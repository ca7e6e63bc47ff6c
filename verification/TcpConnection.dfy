// One TCP connection: an output path with partial writes, half-close and teardown.
// Each loop callback, and each check-and-set of the state, is one method; what the
// system answers is an argument.  A run is any sequence of these calls.
module TcpConnections {
  import opened Bytes
  import opened Buffers
  import opened Channels
  import opened TcpStates

  datatype Callback = WriteComplete | HighWater(size: nat)

  // What may happen next: a callback, a call by the user, a queued functor, the server's end.
  datatype Step =
    | Establishes | Sends(data: seq<Byte>, result: WriteResult) | SendsElsewhere(data: seq<Byte>)
    | AsksShutdown(inLoop: bool) | AsksClose | RunsQueued(result: WriteResult)
    | Reports(events: Events, read: ReadResult, write: WriteResult)
    | Erases | Destroys | ServerEnds | StartsReading | StopsReading

  predicate PriorityHangUp(step: Step) { step.Reports? && step.events.hup && !step.events.inp && step.events.pri }

  // The message callback runs for data that was read, unless the close callback of the same
  // report has ended the program.
  predicate ReadsData(up: bool, e: Events, r: ReadResult) {
    (e.inp || e.pri) && r.Data? && (up || !e.hup || e.inp)
  }

  // The callbacks queued by a send: all of the payload was written at once, or the high-water
  // mark is crossed.
  function Notices(state: State, mark: nat, before: nat, after: nat, all: bool): seq<Callback> {
    (if state != Disconnected && before == 0 && all then [WriteComplete] else [])
    + (if before < mark <= after then [HighWater(after)] else [])
  }

  class TcpConnection {
    const backend: Backend
    var state: State
    var reading: bool
    var channel: Chan
    const output: Buffer
    var highWatermark: nat
    var callbacks: seq<Callback>
    // calls of the message callback
    var messages: nat
    // the write side of the socket is shut; an assertion has ended the program
    var shut: bool
    var aborted: bool

    // what waits in the connection's loop, but for the final steps
    var queue: seq<Functor>
    var server: Server

    // the same with its history
    ghost var wire: Wire
    ghost var life: Life

    ghost predicate OnWire()
      reads this, output
    {
      && output.Valid() && wire.content == output.Content() && wire.state == state
      && wire.writeOn == channel.writeOn
      && wire.queue == queue && wire.shut == shut
    }

    ghost predicate Alive()
      reads this
    {
      && life.backend == backend && life.state == state && life.reading == reading && life.chan == channel
      && life.server == server && life.aborted == aborted
    }

    ghost predicate Valid()
      reads this, output
    {
      OnWire() && Alive() && wire.Ok() && life.Ok()
    }

    // ---- construction and set-up ----

    constructor (backend: Backend, highWatermark: nat)
      ensures Valid() && state == Connecting && this.backend == backend && !aborted && fresh(output)
      ensures wire == START && life == Newborn(backend) && !shut && output.Content() == []
      ensures !life.quietAtClose && !life.switched && queue == [] && callbacks == [] && messages == 0
    {
      this.backend := backend;
      output := new Buffer(INITIAL_SIZE);
      this.highWatermark := highWatermark;
      state, reading, channel := Connecting, true, Chan(false, false, Absent, false);
      server := Server(NotAsked, NotYet, false, 0);
      callbacks, queue, messages := [], [], 0;
      shut, aborted := false, false;
      wire := START;
      life := Newborn(backend);
    }

    // Queued once by the server, right after it enters the connection in its map.
    method ConnectEstablished()
      requires Valid() && state == Connecting
      modifies `state, `channel, `wire, `life
      ensures Valid() && life == old(life).Established() && wire == old(wire).(state := Connected)
      ensures state == Connected && channel.readOn && !channel.writeOn && life.ups == old(life).ups + 1
      ensures old(wire).Before(wire)
      ensures old(life).Sound(life)
    {
      life.EstablishedOk();
      state := Connected;
      channel := channel.Reading(true);
      wire := wire.(state := Connected);
      life := life.Established();
    }

    // ---- sending ----

    // What is to be kept of a payload must find room.
    predicate CanSend(data: seq<Byte>, r: WriteResult)
      requires output.Valid()
      reads `state, `shut, output
    {
      state != Disconnected ==>
        var direct := output.Content() == [];
        && (direct ==> r.Count() <= |data| && (shut && data != [] ==> r.Broken?))
        && (!(direct && r.Broken?) ==>
              Enough(output.Writable(), output.reader, |data| - if direct then r.Count() else 0))
    }

    // Write at once if nothing is waiting; keep what was not written and ask for write events.
    method SendInLoop(data: seq<Byte>, r: WriteResult)
      requires OnWire() && Alive() && wire.InterestMatches() && state != Connecting && CanSend(data, r)
      modifies `callbacks, `channel, `wire, `life, output
      ensures OnWire() && Alive() && wire == old(wire).Sent(data, r) && life == old(life).Writing(channel.writeOn)
      ensures callbacks == old(callbacks)
                  + Notices(state, highWatermark, |old(output.Content())|, |output.Content()|, r == Wrote(|data|))
    {
      hide Enough, Wire.Sent, Wire.InterestMatches;
      wire.SentIs(data, r);
      ghost var w := wire.Sent(data, r);
      if state != Disconnected {
        WriteOrKeep(data, r);
      }
      wire := w;
      life := life.Writing(channel.writeOn);
    }

    // The rest of SendInLoop.
    method WriteOrKeep(data: seq<Byte>, r: WriteResult)
      requires output.Valid() && state != Disconnected && CanSend(data, r) &&
        (channel.writeOn <==> output.Content() != [])
      modifies `callbacks, `channel, output
      ensures output.Valid()
      ensures var direct := old(output.Content()) == [];
              && output.Content() == (if !direct then old(output.Content()) + data
                                      else if r.Broken? then [] else data[r.Count()..])
              && channel == (if direct && !r.Broken? && r.Count() < |data|
                             then old(channel).Writing(true) else old(channel))
              && callbacks == old(callbacks)
                  + ((if direct && r == Wrote(|data|) then [WriteComplete] else [])
                     + (if |old(output.Content())| < highWatermark <= |output.Content()|
                        then [HighWater(|output.Content()|)] else []))
    {
      var nwrote, remaining, faultError := 0, |data|, false;
      if !channel.writeOn && output.writer - output.reader == 0 {
        nwrote, faultError := WriteNow(data, r);
        remaining := |data| - nwrote;
      }
      assert data[0..] == data;
      if !faultError && remaining > 0 {
        Keep(data[nwrote..]);
      }
    }

    method WriteNow(data: seq<Byte>, r: WriteResult) returns (nwrote: nat, faultError: bool)
      requires r.Count() <= |data|
      modifies `callbacks
      ensures nwrote == r.Count() && faultError == r.Broken?
      ensures callbacks == old(callbacks) + if r.Wrote? && nwrote == |data| then [WriteComplete] else []
    {
      nwrote, faultError := 0, false;
      match r {
        case Wrote(n) =>
          nwrote := n;
          if n == |data| {
            callbacks := callbacks + [WriteComplete];
          }
        case Broken =>
          faultError := true;
        case WouldBlock =>
        case Failed =>
      }
    }

    // Queue the bytes that were not written and make sure the poller reports writability.
    method Keep(rest: seq<Byte>)
      requires output.Valid() && 0 < |rest| && Enough(output.Writable(), output.reader, |rest|)
      modifies `callbacks, `channel, output
      ensures output.Valid() && output.Content() == old(output.Content()) + rest
      ensures channel == if old(channel).writeOn then old(channel) else old(channel).Writing(true)
      ensures var crosses := |old(output.Content())| < highWatermark <= |output.Content()|;
              callbacks == old(callbacks) + if crosses then [HighWater(|output.Content()|)] else []
    {
      var oldLen := output.writer - output.reader;
      if oldLen + |rest| >= highWatermark && oldLen < highWatermark {
        callbacks := callbacks + [HighWater(oldLen + |rest|)];
      }
      output.Append(rest);
      if !channel.writeOn {
        channel := channel.Writing(true);
      }
    }

    // Send in the loop thread: only while connected, and ahead of what other threads queued.
    method Send(data: seq<Byte>, r: WriteResult)
      requires Valid() && CanSend(data, r)
      modifies `callbacks, `channel, `wire, `life, output
      ensures Valid() && wire == (if state == Connected then old(wire).Sent(data, r) else old(wire))
      ensures life == if state == Connected then old(life).Writing(channel.writeOn) else old(life)
      ensures old(life).Sound(life)
      ensures old(wire).Before(wire)
      ensures callbacks == old(callbacks)
                  + ((if state == Connected && old(output.Content()) == [] && r == Wrote(|data|)
                      then [WriteComplete] else [])
                     + (if |old(output.Content())| < highWatermark <= |output.Content()|
                        then [HighWater(|output.Content()|)] else []))
    {
      if state == Connected {
        wire.SentBefore(data, r);
        wire.SentOk(data, r);
        life.WritingOk(true);
        SendInLoop(data, r);
      }
    }

    // Send in another thread: the payload is copied and queued.
    method SendElsewhere(data: seq<Byte>)
      requires Valid()
      modifies `queue, `wire
      ensures Valid() && wire == if state == Connected then old(wire).Pushed(QSend(data)) else old(wire)
      ensures queue == old(queue) + if state == Connected then [QSend(data)] else []
      ensures old(wire).Before(wire)
    {
      if state == Connected {
        wire.PushedOk(QSend(data));
        queue := queue + [QSend(data)];
        wire := wire.Pushed(QSend(data));
      }
    }

    // The socket takes some of what is waiting; when all is gone a pending half-close happens.
    method HandleWrite(r: WriteResult)
      requires Valid() && (channel.writeOn ==> r.Count() <= |output.Content()|)
      modifies `callbacks, `channel, `shut, `wire, `life, output
      ensures Valid() && life == old(life).Writing(channel.writeOn)
      ensures old(life).Sound(life)
      ensures wire == if old(channel).writeOn then old(wire).Drained(r.Count()) else old(wire)
      ensures old(wire).Calm(wire)
      ensures old(channel).writeOn ==>
        && wire.written == old(wire).written + old(output.Content())[..r.Count()]
        && output.Content() == old(output.Content())[r.Count()..]
        && channel.writeOn == (r.Count() == 0 || output.Content() != [])
      ensures shut == (old(shut) || (old(channel).writeOn && !channel.writeOn && state == Disconnecting))
      ensures callbacks == old(callbacks) + if old(channel).writeOn && !channel.writeOn then [WriteComplete] else []
    {
      hide Wire.Ok, Life.Ok, Wire.Drained;
      if channel.writeOn {
        wire.DrainedCalm(r.Count());
        wire.DrainedOk(r.Count());
        wire.DrainedIs(r.Count());
        life.WritingOk(false);
        life.WritingOk(true);
        ghost var w := wire.Drained(r.Count());
        WriteOut(r);
        wire := w;
        life := life.Writing(channel.writeOn);
      }
    }

    // The body of HandleWrite: what WriteFd wrote is retrieved.
    method WriteOut(r: WriteResult)
      requires output.Valid() && channel.writeOn && r.Count() <= |output.Content()|
      modifies `callbacks, `channel, `shut, output
      ensures output.Valid() && output.Content() == old(output.Content())[r.Count()..]
      ensures channel == if r.Count() == 0 || output.Content() != [] then old(channel) else old(channel).Writing(false)
      ensures shut == (old(shut) || (!channel.writeOn && state == Disconnecting))
      ensures callbacks == old(callbacks) + if !channel.writeOn then [WriteComplete] else []
    {
      if r.Wrote? && r.n > 0 {
        output.Retrieve(r.n);
        if output.writer - output.reader == 0 {
          channel := channel.Writing(false);
          callbacks := callbacks + [WriteComplete];
          if state == Disconnecting {
            ShutdownInLoop();
          }
        }
      }
    }

    // ---- half-close ----

    // The state changes at once; the half-close itself is left to the loop thread.
    method Shutdown(inLoop: bool)
      requires Valid()
      modifies `state, `queue, `shut, `wire, `life
      ensures Valid() && wire == old(wire).AskedToShut(inLoop) && old(wire).Calm(wire)
      ensures old(life).Sound(life)
      ensures life == if old(state) == Connected then old(life).Leaving() else old(life)
      ensures if old(state) != Connected then state == old(state) && queue == old(queue) && shut == old(shut)
              else
              && state == Disconnecting && queue == (if inLoop then old(queue) else old(queue) + [QShutdown])
              && shut == (old(shut) || (inLoop && !channel.writeOn))
    {
      hide Wire.Ok, Life.Ok, Wire.AskedToShut;
      wire.AskedToShutOk(inLoop);
      wire.AskedToShutIs(inLoop);
      wire.AskedToShutCalm(inLoop);
      life.LeavingOk();
      ghost var w := wire.AskedToShut(inLoop);
      if state == Connected {
        state := Disconnecting;
        if inLoop {
          ShutdownInLoop();
        } else {
          queue := queue + [QShutdown];
        }
        life := life.Leaving();
      }
      wire := w;
    }

    // socket_->ShutdownWrite() unless bytes are still waiting.
    method ShutdownInLoop()
      modifies `shut
      ensures shut == (old(shut) || !channel.writeOn)
    {
      if !channel.writeOn {
        shut := true;
      }
    }

    // The loop thread runs the next functor queued.
    method RunQueued(r: WriteResult)
      requires Valid() && queue != [] && (queue[0].QSend? ==> CanSend(queue[0].data, r))
      modifies this, output
      ensures Valid() && queue == old(queue)[1..] && aborted == old(aborted) && old(wire).Before(wire)
      ensures old(life).Sound(life)
      ensures match old(queue)[0]
              case QSend(data) =>
                && wire == old(wire).Popped().Sent(data, r) && life == old(life).Writing(channel.writeOn)
                && callbacks == old(callbacks)
                     + Notices(state, highWatermark, |old(output.Content())|, |output.Content()|, r == Wrote(|data|))
              case QShutdown =>
                && wire == old(wire).Popped().ShutDown() && life == old(life)
                && shut == (old(shut) || !old(channel).writeOn)
              case QClose =>
                && wire == (if old(state).Up() then old(wire).Popped().Closed() else old(wire).Popped())
                && life == if old(state).Up() then old(life).CloseCalled() else old(life)
    {
      hide Notices, Wire.Ok, Life.Ok;
      match queue[0]
      case QSend(data) => RunSend(data, r);
      case QShutdown => RunShutdown();
      case QClose => RunClose();
    }

    method RunSend(data: seq<Byte>, r: WriteResult)
      requires Valid() && queue != [] && queue[0] == QSend(data) && CanSend(data, r)
      modifies `queue, `callbacks, `channel, `wire, `life, output
      ensures Valid() && queue == old(queue)[1..] && old(wire).Before(wire)
      ensures old(life).Sound(life)
      ensures wire == old(wire).Popped().Sent(data, r) && life == old(life).Writing(channel.writeOn)
      ensures callbacks == old(callbacks)
                  + Notices(state, highWatermark, |old(output.Content())|, |output.Content()|, r == Wrote(|data|))
    {
      wire.PoppedIs();
      Answers(data, r);
      hide Notices, Wire.Ok, Life.Ok, Wire.Sent, Life.Writing, CanSend, Wire.InterestMatches, Wire.MayAnswer;
      wire.SentFromQueueOk(r);
      life.WritingOk(false);
      ghost var l := life;
      queue := queue[1..];
      wire := wire.Popped();
      wire.SentBefore(data, r);
      SendInLoop(data, r);
      if wire.writeOn { l.WritingOk(true); }
    }

    lemma Answers(data: seq<Byte>, r: WriteResult)
      requires OnWire() && CanSend(data, r)
      ensures wire.MayAnswer(data, r)
    {
      hide Enough;
    }

    method RunShutdown()
      requires Valid() && queue != [] && queue[0].QShutdown?
      modifies `queue, `shut, `wire
      ensures Valid() && queue == old(queue)[1..] && wire == old(wire).Popped().ShutDown()
      ensures shut == (old(shut) || !channel.writeOn)
    {
      hide Wire.Ok, Life.Ok, InQueue;
      wire.PoppedOk();
      wire.Popped().ShutDownOk();
      queue := queue[1..];
      ShutdownInLoop();
      wire := wire.Popped().ShutDown();
    }

    method RunClose()
      requires Valid() && queue != [] && queue[0].QClose?
      modifies `queue, `state, `channel, `server, `aborted, `wire, `life
      ensures Valid() && queue == old(queue)[1..] && aborted == old(aborted)
      ensures old(life).Sound(life)
      ensures wire == if old(state).Up() then old(wire).Popped().Closed() else old(wire).Popped()
      ensures life == if old(state).Up() then old(life).CloseCalled() else old(life)
    {
      hide Wire.Ok, Life.Ok;
      wire.PoppedOk();
      queue := queue[1..];
      wire := wire.Popped();
      ForceCloseInLoop();
    }

    // ---- closing ----

    method ForceClose()
      requires Valid()
      modifies `state, `queue, `wire, `life
      ensures Valid() && wire == old(wire).AskedToClose() && life == old(life).Leaving()
      ensures if old(state).Up() then state == Disconnecting && queue == old(queue) + [QClose]
              else state == old(state) && queue == old(queue)
      ensures old(wire).Before(wire)
      ensures old(life).Sound(life)
    {
      hide Wire.Ok, Life.Ok, Wire.AskedToClose;
      wire.AskedToCloseOk();
      wire.AskedToCloseIs();
      life.LeavingOk();
      if state.Up() {
        state := Disconnecting;
        queue := queue + [QClose];
      }
      wire := wire.AskedToClose();
      life := life.Leaving();
    }

    // A failing assertion on the state ends the program.  The close callback is a call of the
    // server, which asks its own loop to erase the connection.
    method HandleClose()
      requires Valid() && state != Connecting
      modifies `state, `channel, `server, `aborted, `wire, `life
      ensures Valid() && life == old(life).CloseCalled() && state == Disconnected
      ensures if !old(state).Up() then aborted && channel == old(channel) && server == old(server)
              else
              && aborted == old(aborted) && !channel.readOn && !channel.writeOn && life.downs == old(life).downs + 1
              && (life.quietAtClose <==> !old(channel).readOn && !old(channel).writeOn)
              && server == old(server).CloseCalled() && server.erase.Requested?
              && (server.stale <==> old(server).stale || !server.end.NotYet?)
      ensures old(life).Sound(life)
      ensures wire == if old(state).Up() then old(wire).Closed() else old(wire)
    {
      hide Wire.Ok, Life.Ok;
      wire.ClosedOk();
      life.CloseCalledOk();
      ghost var l := life.CloseCalled();
      if !state.Up() {
        aborted := true;
      } else {
        state := Disconnected;
        channel := channel.Disabled();
        server := server.CloseCalled();
        wire := wire.Closed();
      }
      life := l;
    }

    method ForceCloseInLoop()
      requires Valid()
      modifies `state, `channel, `server, `aborted, `wire, `life
      ensures Valid() && aborted == old(aborted)
      ensures old(life).Sound(life)
      ensures wire == if old(state).Up() then old(wire).Closed() else old(wire)
      ensures life == if old(state).Up() then old(life).CloseCalled() else old(life)
    {
      hide Wire.Ok, Life.Ok;
      if state.Up() {
        HandleClose();
      }
    }

    // Data goes to the message callback, end of file closes, an error is only logged.
    method HandleRead(r: ReadResult)
      requires Valid() && state != Connecting
      modifies `state, `channel, `server, `aborted, `messages, `wire, `life
      ensures Valid() && life == if r.EndOfFile? then old(life).CloseCalled() else old(life)
      ensures old(life).Sound(life)
      ensures wire == if r.EndOfFile? && old(state).Up() then old(wire).Closed() else old(wire)
      ensures messages == old(messages) + if r.Data? then 1 else 0
    {
      hide Wire.Ok, Life.Ok;
      if r.Data? {
        messages := messages + 1;
      } else if r.EndOfFile? {
        HandleClose();
      }
    }

    // One poller report.  It may have been fetched before another handler changed the interest.
    method HandleEvent(e: Events, r: ReadResult, w: WriteResult)
      requires Valid() && !aborted && !channel.Revived() && state != Connecting
      requires channel.writeOn ==> w.Count() <= |output.Content()|
      modifies `state, `channel, `server, `aborted, `callbacks, `messages, `shut, `wire, `life, output
      ensures Valid() && (aborted <==> ClosesAgain(old(state).Up(), e, r))
      ensures state == Disconnected <==>
              old(state) == Disconnected || (e.hup && !e.inp) || ((e.inp || e.pri) && r.EndOfFile?)
      ensures life.downs == if state == Disconnected then 1 else 0
      ensures old(wire).Calm(wire)
      ensures old(state) == Disconnected ==> life == old(life).(aborted := aborted)
      ensures var closed := old(life).Reported(e, r);
              life == if e.out && !aborted then closed.Writing(channel.writeOn) else closed
      ensures var closed := if old(state).Up() && state == Disconnected then old(wire).Closed() else old(wire);
              wire == if e.out && !aborted && closed.writeOn then closed.Drained(w.Count()) else closed
      ensures messages == old(messages) + if ReadsData(old(state).Up(), e, r) then 1 else 0
      ensures if e.out && state.Up() && old(channel).writeOn
              then
              && wire.written == old(wire).written + old(output.Content())[..w.Count()]
              && output.Content() == old(output.Content())[w.Count()..]
              && channel.writeOn == (w.Count() == 0 || output.Content() != [])
              && shut == (old(shut) || (!channel.writeOn && state == Disconnecting))
              && callbacks == old(callbacks) + if channel.writeOn then [] else [WriteComplete]
              else
              && wire.written == old(wire).written && output.Content() == old(output.Content())
              && shut == old(shut) && callbacks == old(callbacks)
      ensures aborted && old(state).Up() ==> e.hup && !e.inp && e.pri
      ensures aborted && !old(state).Up() && old(life).Deliverable(e) ==>
                (backend == EpollBackend && life.quietAtClose) || life.switched
      ensures old(life).Sound(life)
    {
      hide Wire.Ok, Life.Ok, Life.Reported, Life.Deliverable, Wire.Drained, ClosesAgain;
      life.ReportedIs(e, r);
      HandleEventWithGuard(e, r, w);
    }

    // The order of the callbacks of one report: close, error, read, write.
    method HandleEventWithGuard(e: Events, r: ReadResult, w: WriteResult)
      requires Valid() && !aborted && state != Connecting
      requires channel.writeOn ==> w.Count() <= |output.Content()|
      modifies `state, `channel, `server, `aborted, `callbacks, `messages, `shut, `wire, `life, output
      ensures Valid() && old(wire).Calm(wire)
      ensures var closed := old(life).Reported(e, r);
              life == if e.out && !aborted then closed.Writing(channel.writeOn) else closed
      ensures var closed := if old(state).Up() && state == Disconnected then old(wire).Closed() else old(wire);
              wire == if e.out && !aborted && closed.writeOn then closed.Drained(w.Count()) else closed
      ensures messages == old(messages) + if ReadsData(old(state).Up(), e, r) then 1 else 0
      ensures if e.out && state.Up() && old(channel).writeOn
              then
              && wire.written == old(wire).written + old(output.Content())[..w.Count()]
              && output.Content() == old(output.Content())[w.Count()..]
              && channel.writeOn == (w.Count() == 0 || output.Content() != [])
              && shut == (old(shut) || (!channel.writeOn && state == Disconnecting))
              && callbacks == old(callbacks) + if channel.writeOn then [] else [WriteComplete]
              else
              && wire.written == old(wire).written && output.Content() == old(output.Content())
              && shut == old(shut) && callbacks == old(callbacks)
      ensures old(life).Sound(life)
    {
      hide Wire.Ok, Life.Ok, Life.Reported, Wire.Drained;
      CloseOrRead(e, r);
      NoInterestClosed();
      if e.out && !aborted {
        HandleWrite(w);
      }
    }

    lemma NoInterestClosed()
      requires Valid()
      ensures state == Disconnected ==> !channel.writeOn
    {
    }

    // The close callback, and the read callback unless that has ended the program.
    method CloseOrRead(e: Events, r: ReadResult)
      requires Valid() && !aborted && state != Connecting
      modifies `state, `channel, `server, `aborted, `messages, `wire, `life
      ensures Valid() && life == old(life).Reported(e, r) && old(wire).Calm(wire)
      ensures wire == if old(state).Up() && state == Disconnected then old(wire).Closed() else old(wire)
      ensures old(life).Sound(life)
      ensures channel.writeOn ==> old(channel).writeOn
      ensures state.Up() ==> channel.writeOn == old(channel).writeOn
      ensures aborted ==> state == Disconnected
      ensures messages == old(messages) + if ReadsData(old(state).Up(), e, r) then 1 else 0
    {
      hide Wire.Ok, Life.Ok;
      if e.hup && !e.inp {
        HandleClose();
      }
      if (e.inp || e.pri) && !aborted {
        HandleRead(r);
      }
    }

    // ---- the server's side ----

    // The server takes the connection out of its map and queues a final step; it is called
    // even if it has been destroyed since the close.
    method RemoveConnectionInLoop()
      requires Valid() && server.erase.Requested?
      modifies `server, `life
      ensures Valid() && life == old(life).Erased()
      ensures server.erase.Done? && server.finalSteps == old(server).finalSteps + 1 && server.end == old(server).end
      ensures server.stale <==> old(server).stale || !server.end.NotYet?
      ensures old(life).Sound(life)
    {
      hide Wire.Ok, Life.Ok;
      life.ErasedOk();
      server := server.Erased();
      life := life.Erased();
    }

    // ~TcpServer: a final step is queued for what is in the map.
    method ServerDestroyed()
      requires Valid() && server.end.NotYet?
      modifies `server, `life
      ensures Valid() && life == old(life).ServerEnded()
      ensures if old(server).erase.Done?
              then server.end.MissedIt? && server.finalSteps == old(server).finalSteps
              else server.end.FoundIt? && server.finalSteps == old(server).finalSteps + 1
      ensures server.erase == old(server).erase && server.stale == old(server).stale
      ensures old(life).Sound(life)
    {
      hide Wire.Ok, Life.Ok;
      life.ServerEndedOk();
      server := server.Ended();
      life := life.ServerEnded();
    }

    // A final step: disable and report down if still connected, then remove the channel.  The
    // poller asserts that it is registered and has no interest.
    method ConnectDestroyed()
      requires Valid() && 0 < server.finalSteps && state != Connecting && !aborted && !channel.Revived()
      modifies `state, `channel, `server, `aborted, `wire, `life
      ensures Valid() && life == old(life).Destroyed()
      ensures old(wire).Before(wire)
      ensures old(life).Sound(life)
      ensures wire == if old(state) == Connected then old(wire).Closed() else old(wire)
      ensures aborted <==> old(channel).removed || (old(state) != Connected && !old(channel).Idle())
      ensures state == if old(state) == Connected then Disconnected else old(state)
      ensures old(state) == Connected ==> !channel.readOn && !channel.writeOn
      ensures life.downs == old(life).downs + if old(state) == Connected then 1 else 0
      ensures !aborted ==> channel.removed && server == old(server).(finalSteps := old(server).finalSteps - 1)
      ensures aborted ==> life.switched || life.server.end.FoundIt?
    {
      hide Wire.Ok, Life.Ok;
      life.DestroyedOk();
      wire.ClosedOk();
      ghost var l, w := life.Destroyed(), if state == Connected then wire.Closed() else wire;
      DisableAndRemove();
      life, wire := l, w;
    }

    // The body of ConnectDestroyed.
    method DisableAndRemove()
      requires 0 < server.finalSteps
      modifies `state, `channel, `server, `aborted
      ensures state == if old(state) == Connected then Disconnected else old(state)
      ensures var c := if old(state) == Connected then old(channel).Disabled() else old(channel);
              if !c.removed && c.Idle()
              then channel == c.Removed() && server == old(server).StepTaken() && aborted == old(aborted)
              else channel == c && server == old(server) && aborted
    {
      if state == Connected {
        state := Disconnected;
        channel := channel.Disabled();
      }
      if !channel.removed && channel.Idle() {
        channel := channel.Removed();
        server := server.StepTaken();
      } else {
        aborted := true;
      }
    }

    // ---- flow control of reading ----

    // Neither looks at the state: both may run after the connection has closed, and even after
    // the channel has left its poller.
    method StartReadInLoop()
      requires Valid() && state != Connecting
      modifies `reading, `channel, `life
      ensures Valid() && channel.readOn && reading && life == old(life).Reading(true)
      ensures life.switched <==>
              old(life).switched || (state == Disconnected && !(old(reading) && old(channel).readOn))
      ensures old(life).Sound(life)
    {
      hide Wire.Ok, Life.Ok;
      life.ReadingOk(true);
      if !reading || !channel.readOn {
        channel := channel.Reading(true);
        reading := true;
      }
      life := life.Reading(true);
    }

    method StopReadInLoop()
      requires Valid() && state != Connecting
      modifies `reading, `channel, `life
      ensures Valid() && !channel.readOn && !reading && life == old(life).Reading(false)
      ensures life.switched <==>
              old(life).switched || (state == Disconnected && (old(reading) || old(channel).readOn))
      ensures old(life).Sound(life)
    {
      hide Wire.Ok, Life.Ok;
      life.ReadingOk(false);
      if reading || channel.readOn {
        channel := channel.Reading(false);
        reading := false;
      }
      life := life.Reading(false);
    }

    // ---- any run ----

    // A run ends when an assertion has failed, or a removed channel was registered anew.  A
    // report is one the system makes now, or was fetched before: by then nothing but the
    // server's end can have closed the connection.
    predicate Enabled(step: Step)
      requires output.Valid()
      reads this, output
    {
      !aborted && !channel.Revived() &&
      match step
      case Establishes => state == Connecting
      case Sends(data, r) => CanSend(data, r)
      case SendsElsewhere(_) => true
      case AsksShutdown(_) => true
      case AsksClose => true
      case RunsQueued(r) => queue != [] && (queue[0].QSend? ==> CanSend(queue[0].data, r))
      case Reports(e, _, w) =>
        && state != Connecting && (state.Up() || server.end.FoundIt? || MayReport(e))
        && (channel.writeOn ==> w.Count() <= |output.Content()|)
      case Erases => server.erase.Requested?
      case Destroys => 0 < server.finalSteps && state != Connecting
      case ServerEnds => server.end.NotYet?
      case StartsReading => state != Connecting
      case StopsReading => state != Connecting
    }

    predicate MayReport(e: Events)
      reads `channel
    {
      Watches(backend, channel.told) && (e.inp || e.pri ==> channel.readOn) && (e.out ==> channel.writeOn)
    }

    // Nothing that was asked for is held up, and users may call at any moment: what a functor, a
    // report, the server or a user needs to go on is never more than the code itself asks for.
    lemma AlwaysMoves(data: seq<Byte>, inLoop: bool, e: Events, r: ReadResult)
      requires Valid() && !aborted && !channel.Revived()
      ensures Enabled(SendsElsewhere(data)) && Enabled(AsksShutdown(inLoop)) && Enabled(AsksClose)
      ensures state == Connecting ==> Enabled(Establishes)
      ensures queue != [] && !queue[0].QSend? ==> Enabled(RunsQueued(WouldBlock))
      ensures state != Connecting ==> Enabled(StartsReading) && Enabled(StopsReading)
      ensures state.Up() || (state != Connecting && MayReport(e)) ==> Enabled(Reports(e, r, WouldBlock))
      ensures server.erase.Requested? ==> Enabled(Erases)
      ensures 0 < server.finalSteps && state != Connecting ==> Enabled(Destroys)
      ensures server.end.NotYet? ==> Enabled(ServerEnds)
      ensures |data| <= 0x7FFF_FFFF ==> Enabled(Sends(data, if shut then Broken else WouldBlock))
      ensures |data| <= 0x7FFF_FFFF && !shut ==> Enabled(Sends(data, Wrote(|data|))) || output.Content() != []
      ensures state.Up() ==> Enabled(Reports(e, r, Wrote(|output.Content()|)))
    {
    }

    // What a failed assertion, or a removed channel registered anew, is owed to: a hang-up with
    // priority data alone; with epoll a close without interest; a switch of reading after the
    // close; or the server's end.
    ghost predicate Explained()
      reads this
    {
      (backend == EpollBackend && life.quietAtClose) || life.switched || life.server.end.FoundIt?
    }

    // A step takes nothing back, fails only for one of these reasons, and does not save a
    // connection doomed by the server's end.
    method Take(step: Step)
      requires Valid() && Enabled(step)
      modifies this, output
      ensures Valid() && old(wire).Before(wire)
      ensures aborted ==> PriorityHangUp(step) || Explained()
      ensures old(life).Sound(life)
    {
      hide Wire.Ok, Life.Ok, Life.Sound, CanSend, Wire.Before, Wire.Sent, Wire.AskedToShut, ClosesAgain;
      life.SoundSame();
      wire.BeforeSame();
      match step
      case Establishes => ConnectEstablished();
      case Sends(data, r) => Send(data, r);
      case SendsElsewhere(data) => SendElsewhere(data);
      case AsksShutdown(inLoop) => Shutdown(inLoop);
      case AsksClose => ForceClose();
      case RunsQueued(r) => RunQueued(r);
      case Reports(e, r, w) => HandleEvent(e, r, w);
      case Erases => RemoveConnectionInLoop();
      case Destroys => ConnectDestroyed();
      case ServerEnds => ServerDestroyed();
      case StartsReading => StartReadInLoop();
      case StopsReading => StopReadInLoop();
    }

    // Any run from any reachable state: steps that cannot be taken where they stand are
    // skipped.  What was accepted is written or waits, in order, and the state only moves
    // forward.  Hang-ups with priority data alone, switches of reading after the close and
    // the server's end aside, no assertion fails with poll, nor with epoll unless the channel
    // had no interest left at the close.  A doomed teardown is never completed.
    method RunSteps(steps: seq<Step>)
      requires Valid()
      modifies this, output
      ensures Valid() && old(wire).Before(wire) && wire.written + output.Content() == wire.accepted
      ensures old(!aborted && !channel.Revived()) && (forall s <- steps :: !PriorityHangUp(s)) ==>
                aborted || channel.Revived() ==> Explained()
      ensures old(life).Doomed() ==> life.Doomed() && !life.Complete()
    {
      hide Life.Ok, Enabled, Wire.InterestMatches, Wire.ShutdownKept, Wire.QueueOrdered, Wire.PromiseKept,
           Life.Doomed, Life.Complete;
      for i := 0 to |steps|
        invariant Valid() && old(wire).Before(wire)
        invariant old(!aborted && !channel.Revived()) && (forall s <- steps :: !PriorityHangUp(s)) ==>
                    aborted || channel.Revived() ==> Explained()
        invariant old(life).Doomed() ==> life.Doomed()
      {
        if Enabled(steps[i]) {
          Running(steps[i]);
          Take(steps[i]);
          assert steps[i] in steps;
        }
      }
      NotComplete();
    }

    lemma NotComplete()
      requires Valid()
      ensures life.Doomed() ==> !life.Complete()
    {
    }

    lemma Running(step: Step)
      requires output.Valid() && Enabled(step)
      ensures !aborted && !channel.Revived()
    {
    }
  }

  // ---- runs in which less is written, or more happens, than one would wish ----

  // A byte waits, Shutdown is queued, the peer closes, and only then the half-close runs.
  method LateHalfClose(backend: Backend) returns (c: TcpConnection)
    ensures c.Valid() && c.state == Disconnected && c.shut && !c.wire.faulted && c.wire.written != c.wire.accepted
  {
    hide Wire.Ok, Life.Ok, Wire.ShutDown, Wire.Closed, Wire.Popped, BYTE_WAITING;
    LateHalfCloseRun();
    c := ByteWaiting(backend);
    c.HandleEvent(Events(false, false, true, false, false), EndOfFile, WouldBlock);
    c.RunQueued(WouldBlock);
  }

  method ByteWaiting(backend: Backend) returns (c: TcpConnection)
    ensures c.Valid() && c.state == Disconnecting && fresh(c) && fresh(c.output) && c.wire == BYTE_WAITING
    ensures !c.aborted && !c.channel.Revived()
  {
    hide Wire.Ok, Life.Ok, Wire.Sent, Wire.AskedToShut, BYTE_WAITING;
    ByteWaitingRun();
    c := new TcpConnection(backend, 1000);
    c.ConnectEstablished();
    c.Send([7], WouldBlock);
    c.Shutdown(false);
  }

  // A payload queued by another thread before it asked for the shutdown is never written:
  // what waited drained first, and that shut the write side.
  method LatePayload(backend: Backend) returns (c: TcpConnection)
    ensures c.Valid() && c.state == Disconnecting && c.wire.promised == Some([7, 8]) && c.wire.written == [7]
    ensures c.shut && c.wire.shutUp && c.wire.shutClean && c.wire.late == [8]
  {
    hide Wire.Ok, Life.Ok, Wire.Sent, Wire.Drained, Wire.Popped;
    LatePayloadRun();
    c := TwoPayloads(backend);
    c.HandleWrite(Wrote(1));
    c.RunQueued(Broken);
  }

  method TwoPayloads(backend: Backend) returns (c: TcpConnection)
    ensures c.Valid() && c.state == Disconnecting && fresh(c) && fresh(c.output)
    ensures c.wire == TWO_PAYLOADS
  {
    hide Wire.Ok, Life.Ok, Wire.Sent, Wire.Drained, Wire.AskedToShut, TWO_PAYLOADS;
    TwoPayloadsRun();
    c := new TcpConnection(backend, 1000);
    c.ConnectEstablished();
    c.Send([7], WouldBlock);
    c.SendElsewhere([8]);
    c.Shutdown(false);
  }

  // With epoll: reading was stopped and nothing is waiting when the connection is closed.  The
  // descriptor is watched again, its hang-up is reported, and the connection closed twice.
  method ClosedTwice() returns (c: TcpConnection)
    ensures c.Valid() && c.backend == EpollBackend && c.aborted && c.life.quietAtClose && c.server.end.NotYet?
  {
    hide Wire.Ok, Life.Ok;
    c := new TcpConnection(EpollBackend, 1000);
    c.ConnectEstablished();
    c.StopReadInLoop();
    c.ForceClose();
    c.RunQueued(WouldBlock);
    c.HandleEvent(Events(true, false, false, false, false), ReadError, WouldBlock);
  }

  // With either: one hang-up with priority data, whose read meets the end of file.
  method ClosedTwiceAtOnce(backend: Backend) returns (c: TcpConnection)
    ensures c.Valid() && c.aborted && c.life.downs == 1 && c.server.end.NotYet?
  {
    hide Wire.Ok, Life.Ok;
    c := new TcpConnection(backend, 1000);
    c.ConnectEstablished();
    c.HandleEvent(Events(true, false, false, true, false), EndOfFile, WouldBlock);
  }

  // The peer closes a connection that reads.
  method ClosedByPeer(backend: Backend) returns (c: TcpConnection)
    ensures c.Valid() && fresh(c) && fresh(c.output) && c.backend == backend
    ensures c.life == Newborn(backend).Established().CloseCalled()
  {
    hide Wire.Ok, Life.Ok, ClosesAgain;
    c := new TcpConnection(backend, 1000);
    c.ConnectEstablished();
    c.HandleEvent(Events(false, false, true, false, false), EndOfFile, WouldBlock);
  }

  // With epoll: the peer closes, and reading is stopped before the final step.  That watches
  // the descriptor again, and its hang-up closes the connection twice.
  method StoppedLate() returns (c: TcpConnection)
    ensures c.Valid() && c.backend == EpollBackend && c.aborted && !c.life.quietAtClose && c.server.end.NotYet?
  {
    hide Wire.Ok, Life.Ok;
    c := ClosedByPeer(EpollBackend);
    c.StopReadInLoop();
    c.HandleEvent(Events(true, false, false, false, false), ReadError, WouldBlock);
  }

  // With either: reading is started again before the final step, which finds a channel with
  // interest.
  method StartedLate(backend: Backend) returns (c: TcpConnection)
    ensures c.Valid() && c.aborted && c.life.downs == 1 && !c.channel.removed && c.server.end.NotYet?
  {
    hide Wire.Ok, Life.Ok;
    c := ClosedByPeer(backend);
    c.StartReadInLoop();
    c.RemoveConnectionInLoop();
    c.ConnectDestroyed();
  }

  // ---- runs in which the server is destroyed ----

  // While the connection is connected; before its final step runs, its own loop shuts it down.
  method ShutAfterEnd(backend: Backend) returns (c: TcpConnection)
    ensures c.Valid() && c.aborted && c.state == Disconnecting && c.life.downs == 0
  {
    hide Wire.Ok, Life.Ok;
    c := new TcpConnection(backend, 1000);
    c.ConnectEstablished();
    c.ServerDestroyed();
    c.Shutdown(true);
    c.ConnectDestroyed();
  }

  // While it is disconnecting and reads no more: it leaves its poller and is not reported down,
  // with nothing left to run.
  method NeverDown(backend: Backend) returns (c: TcpConnection)
    ensures c.Valid() && !c.aborted && c.state == Disconnecting && c.life.downs == 0
    ensures c.channel.removed && c.server.finalSteps == 0 && c.queue == []
  {
    hide Wire.Ok, Life.Ok;
    c := new TcpConnection(backend, 1000);
    c.ConnectEstablished();
    c.StopReadInLoop();
    c.Shutdown(true);
    c.ServerDestroyed();
    c.ConnectDestroyed();
  }

  // Between the close and the erasure: the erasure is a call of a server that is gone, and the
  // final step it queues finds the channel removed by the first one.
  method ErasedAfterEnd(backend: Backend) returns (c: TcpConnection)
    ensures c.Valid() && c.server.stale && c.aborted && c.channel.removed && c.state == Disconnected
  {
    hide Wire.Ok, Life.Ok;
    c := ClosedByPeer(backend);
    c.ServerDestroyed();
    c.ConnectDestroyed();
    c.RemoveConnectionInLoop();
    c.ConnectDestroyed();
  }

  // While the connection is connected and stays so: the final step completes the teardown.
  method EndedInTime(backend: Backend) returns (c: TcpConnection)
    ensures c.Valid() && c.life.Complete() && c.server.end.FoundIt?
  {
    hide Wire.Ok, Life.Ok;
    c := new TcpConnection(backend, 1000);
    c.ServerDestroyed();
    c.ConnectEstablished();
    c.ConnectDestroyed();
  }
}
