// The state of a connection as values: what is on the wire and what waits, and the life of
// the connection with its poller and its server.  Each step is a function, and each keeps
// what the two halves promise.
module TcpStates {
  import opened Bytes
  import opened Channels

  datatype State = Connecting | Connected | Disconnecting | Disconnected {
    function Rank(): nat {
      match this
      case Connecting => 0
      case Connected => 1
      case Disconnecting => 2
      case Disconnected => 3
    }

    predicate Up() { Connected? || Disconnecting? }
  }

  // What write returns: a count, would-block, EPIPE or ECONNRESET, or another error.
  datatype WriteResult = Wrote(n: nat) | WouldBlock | Broken | Failed {
    function Count(): nat { if Wrote? then n else 0 }
  }

  datatype ReadResult = Data | EndOfFile | ReadError

  // The events a poller reports for the channel.
  datatype Events = Events(hup: bool, err: bool, inp: bool, pri: bool, out: bool)

  // What other threads leave for the loop thread, which runs it in this order.
  datatype Functor = QSend(data: seq<Byte>) | QShutdown | QClose

  datatype Option<T> = None | Some(value: T)

  // The payloads still queued.
  function InQueue(queue: seq<Functor>): seq<Byte> {
    if queue == [] then [] else Payload(queue[0]) + InQueue(queue[1..])
  }

  function Payload(f: Functor): seq<Byte> { if f.QSend? then f.data else [] }

  lemma {:induction false} QueuedMore(queue: seq<Functor>, f: Functor)
    ensures InQueue(queue + [f]) == InQueue(queue) + Payload(f)
  {
    if queue == [] {
      assert [] + [f] == [f] && [f][1..] == [];
    } else {
      assert (queue + [f])[0] == queue[0] && (queue + [f])[1..] == queue[1..] + [f];
      QueuedMore(queue[1..], f);
      var head, rest, last := Payload(queue[0]), InQueue(queue[1..]), Payload(f);
      assert InQueue(queue + [f]) == head + (rest + last) == head + rest + last;
    }
  }

  lemma {:induction false} NoneQueued(queue: seq<Functor>)
    requires forall i :: 0 <= i < |queue| ==> !queue[i].QSend?
    ensures InQueue(queue) == []
  {
    if queue != [] { NoneQueued(queue[1..]); }
  }

  // ---- the wire ----

  // content waits for the wire; promised is everything passed to Send before Shutdown took
  // effect; late, shutUp and shutClean are of the moment when the write side was shut: what
  // was still queued, whether the connection was up, and whether it had lost nothing.
  datatype Wire = Wire(
    state: State, content: seq<Byte>, writeOn: bool, written: seq<Byte>, accepted: seq<Byte>, faulted: bool,
    queue: seq<Functor>, shut: bool, shutAsked: bool,
    promised: Option<seq<Byte>>, late: seq<Byte>, shutUp: bool, shutClean: bool) {

    // No byte is lost, repeated or reordered.
    ghost predicate StreamIntact() { written + content == accepted }

    // The channel asks for write events exactly while bytes are waiting.
    ghost predicate InterestMatches() {
      && (state != Disconnected ==> (writeOn <==> content != []))
      && (state == Connecting || state == Disconnected ==> !writeOn)
    }

    // A shutdown that was asked for has happened as soon as nothing is waiting.
    ghost predicate ShutdownKept() {
      && (shut || shutAsked ==> state.Rank() >= 2)
      && (shutAsked && state == Disconnecting && !writeOn ==> shut)
      && (shut && state.Up() ==> !writeOn && shutUp)
    }

    // Sends are queued before a shutdown, and only while connected.
    ghost predicate QueueOrdered() {
      && (state == Connecting ==> queue == [])
      && (forall i :: 0 <= i < |queue| && queue[i].QShutdown? ==> state.Rank() >= 2)
      && (forall i, j :: 0 <= i < j < |queue| && queue[i].QShutdown? ==> !queue[j].QSend?)
    }

    // After Shutdown, until the write side is shut, everything promised is accepted or queued;
    // from then on it was written but for what was queued at that moment.
    ghost predicate PromiseKept() {
      && (promised.Some? ==> state.Rank() >= 2)
      && (promised.Some? && !faulted && !shut && state == Disconnecting ==> accepted + InQueue(queue) == promised.value)
      && (promised.Some? && shut && shutUp && shutClean ==> written + late == promised.value)
    }

    ghost predicate Ok() {
      StreamIntact() && InterestMatches() && ShutdownKept() && QueueOrdered() && PromiseKept()
    }

    // ---- steps ----

    // What write may answer: a count within the payload, and EPIPE once the write side is shut.
    predicate MayAnswer(data: seq<Byte>, r: WriteResult) {
      state != Disconnected && content == [] ==> r.Count() <= |data| && (shut && data != [] ==> r.Broken?)
    }

    // A payload is written at once if nothing is waiting, as far as the system takes it.
    ghost function Sent(data: seq<Byte>, r: WriteResult): Wire
      requires state != Disconnected && content == [] ==> r.Count() <= |data|
    {
      if state == Disconnected then this
      else if content != [] then this.(content := content + data, accepted := accepted + data)
      else if r.Broken? then this.(faulted := true)
      else this.(written := written + data[..r.Count()], content := data[r.Count()..], accepted := accepted + data,
                 writeOn := r.Count() < |data|)
    }

    // The write side is shut unless bytes are waiting.
    ghost function HalfClosed(): Wire {
      if writeOn || shut then this
      else this.(shut := true, late := InQueue(queue), shutUp := state.Up(), shutClean := !faulted)
    }

    ghost function ShutDown(): Wire { this.(shutAsked := true).HalfClosed() }

    // The socket takes some of what is waiting; when all is gone a pending half-close happens.
    ghost function Drained(n: nat): Wire
      requires n <= |content|
    {
      if n == 0 then this
      else
        var w := this.(written := written + content[..n], content := content[n..], writeOn := n < |content|);
        if w.writeOn || state != Disconnecting then w else w.HalfClosed()
    }

    ghost function Pushed(f: Functor): Wire { this.(queue := queue + [f]) }

    ghost function Popped(): Wire
      requires queue != []
    {
      this.(queue := queue[1..])
    }

    // Shutdown changes the state at once; the half-close is done or queued.
    ghost function AskedToShut(inLoop: bool): Wire {
      if state != Connected then this
      else
        var w := this.(state := Disconnecting, promised := Some(accepted + InQueue(queue)));
        if inLoop then w.ShutDown() else w.Pushed(QShutdown)
    }

    ghost function AskedToClose(): Wire { if state.Up() then this.(state := Disconnecting).Pushed(QClose) else this }

    ghost function Closed(): Wire { this.(state := Disconnected, writeOn := false) }

    // ---- what they do to what the program has ----

    // Nothing is written of a payload that has to wait, its front part of one that has not, and
    // nothing is taken of one that meets a broken connection or a closed one.
    lemma SentIs(data: seq<Byte>, r: WriteResult)
      requires InterestMatches() && state != Connecting && MayAnswer(data, r)
      ensures var w := Sent(data, r);
              && w.state == state && w.queue == queue && w.shut == shut && w.promised == promised && w.late == late
              && (state != Disconnected ==> (writeOn <==> content != []))
              && (state == Disconnected ==> w == this)
              && (state != Disconnected && content != [] ==>
                    && w.content == content + data && w.writeOn && writeOn
                    && w.written == written && w.accepted == accepted + data)
              && (state != Disconnected && content == [] && r.Broken? ==>
                    w.content == [] && !w.writeOn && w.written == written && w.accepted == accepted && w.faulted)
              && (state != Disconnected && content == [] && !r.Broken? ==>
                    && w.content == data[r.Count()..] && w.writeOn == (r.Count() < |data|)
                    && w.written == written + data[..r.Count()] && w.accepted == accepted + data)
              && (!r.Broken? ==> w.faulted == faulted)
    {
    }

    lemma AskedToCloseIs()
      ensures var w := AskedToClose();
              if !state.Up() then w == this
              else
              && w.state == Disconnecting && w.content == content && w.writeOn == writeOn && w.shut == shut
              && w.queue == queue + [QClose]
      ensures Before(AskedToClose())
    {
    }

    lemma PoppedIs()
      requires Ok() && queue != [] && queue[0].QSend?
      ensures state != Connecting && Popped().InterestMatches()
    {
    }

    // Exactly the first n waiting bytes reach the wire; after the last one a pending half-close
    // happens, leaving what is still queued too late.
    lemma DrainedIs(n: nat)
      requires n <= |content| && writeOn
      ensures var w := Drained(n);
              && w.state == state && w.queue == queue && w.content == content[n..]
              && w.written == written + content[..n] && w.accepted == accepted
              && w.writeOn == (n == 0 || n < |content|)
              && w.shut == (shut || (!w.writeOn && state == Disconnecting))
              && (w.shut && !shut ==> w.late == InQueue(queue) && w.shutUp && w.shutClean == !faulted)
    {
      assert written + [] == written;
    }

    // From then on the connection is disconnecting, and what was accepted or is queued is
    // promised; the half-close is made at once in the loop unless bytes wait, or queued.
    lemma AskedToShutIs(inLoop: bool)
      ensures var w := AskedToShut(inLoop);
              if state != Connected then w == this
              else
              && w.state == Disconnecting && w.content == content && w.writeOn == writeOn
              && w.queue == (if inLoop then queue else queue + [QShutdown]) && w.shut == (shut || (inLoop && !writeOn))
              && w.promised == Some(accepted + InQueue(queue)) && w.written == written && w.accepted == accepted
              && w.shutAsked == (shutAsked || inLoop)
              && (w.shut && !shut ==> w.late == InQueue(queue) && w.shutUp && w.shutClean == !faulted)
    {
    }

    // ---- what they keep ----

    lemma SentStream(data: seq<Byte>, r: WriteResult)
      requires StreamIntact() && InterestMatches() && state != Connecting && MayAnswer(data, r)
      ensures Sent(data, r).StreamIntact() && Sent(data, r).InterestMatches()
    {
      if state != Disconnected && content == [] {
        assert data[..r.Count()] + data[r.Count()..] == data && written + [] == written;
        assert written + data[..r.Count()] + data[r.Count()..] == written + (data[..r.Count()] + data[r.Count()..]);
      }
    }

    lemma SentOk(data: seq<Byte>, r: WriteResult)
      requires Ok() && state == Connected && MayAnswer(data, r)
      ensures Sent(data, r).Ok()
    {
      hide StreamIntact, InQueue;
      SentStream(data, r);
    }

    // The payload at the head of the queue is sent.
    lemma SentFromQueueOk(r: WriteResult)
      requires Ok() && queue != [] && queue[0].QSend? && MayAnswer(queue[0].data, r)
      ensures var w := Popped().Sent(queue[0].data, r); w.Ok() && (w.writeOn ==> w.state.Up())
    {
      PoppedStream();
      Popped().SentStream(queue[0].data, r);
      SentOrder(r);
      SentPromise(r);
      hide StreamIntact, ShutdownKept, QueueOrdered, PromiseKept, Sent;
    }

    lemma PoppedStream()
      requires StreamIntact() && InterestMatches() && queue != []
      ensures Popped().StreamIntact() && Popped().InterestMatches()
    {
    }

    lemma SentOrder(r: WriteResult)
      requires InterestMatches() && ShutdownKept() && QueueOrdered()
      requires queue != [] && queue[0].QSend? && MayAnswer(queue[0].data, r)
      ensures state != Connecting
      ensures Popped().Sent(queue[0].data, r).ShutdownKept() && Popped().Sent(queue[0].data, r).QueueOrdered()
    {
    }

    lemma SentPromise(r: WriteResult)
      requires PromiseKept() && ShutdownKept() && InterestMatches()
      requires queue != [] && queue[0].QSend? && state != Connecting && MayAnswer(queue[0].data, r)
      ensures Popped().Sent(queue[0].data, r).PromiseKept()
    {
      var data, rest := queue[0].data, InQueue(queue[1..]);
      assert InQueue(queue) == data + rest;
      hide InQueue;
      assert accepted + (data + rest) == accepted + data + rest;
      assert written + [] == written;
      assert data == [] && content == [] && state != Disconnected ==>
        data[..r.Count()] == [] && data[r.Count()..] == [];
    }

    lemma PoppedOk()
      requires Ok() && queue != [] && !queue[0].QSend?
      ensures Popped().Ok() && (queue[0].QShutdown? ==> state.Rank() >= 2 && InQueue(Popped().queue) == [])
    {
      assert [] + InQueue(queue[1..]) == InQueue(queue[1..]);
      if queue[0].QShutdown? { NoneQueued(queue[1..]); }
    }

    lemma PushedOk(f: Functor)
      requires Ok() && state.Up() && (f.QSend? ==> state == Connected)
      requires f.QShutdown? ==> state == Disconnecting
      ensures Pushed(f).Ok()
    {
      QueuedMore(queue, f);
      assert !f.QSend? ==> InQueue(queue) + Payload(f) == InQueue(queue);
      assert f.QSend? ==> promised.None?;
      hide InQueue, Payload;
    }

    lemma ShutDownOk()
      requires Ok() && state.Rank() >= 2
      ensures ShutDown().Ok() && ShutDown().shutAsked && (ShutDown().shut <==> shut || !writeOn)
    {
    }

    lemma DrainedOk(n: nat)
      requires Ok() && n <= |content| && writeOn
      ensures Drained(n).Ok() && state.Up()
    {
      assert content[..n] + content[n..] == content;
      assert written + content[..n] + content[n..] == written + (content[..n] + content[n..]);
    }

    lemma AskedToShutOk(inLoop: bool)
      requires Ok()
      ensures AskedToShut(inLoop).Ok()
    {
      if state == Connected {
        var w := this.(state := Disconnecting, promised := Some(accepted + InQueue(queue)));
        assert w.Ok();
        if inLoop { w.ShutDownOk(); } else { w.PushedOk(QShutdown); }
      }
    }

    lemma AskedToCloseOk()
      requires Ok()
      ensures AskedToClose().Ok()
    {
      if state.Up() {
        var w := this.(state := Disconnecting);
        assert w.Ok();
        w.PushedOk(QClose);
      }
    }

    lemma ClosedOk()
      requires Ok() && state != Connecting
      ensures Closed().Ok()
    {
    }

    // ---- what it means ----

    // Nothing that is written or accepted is taken back, and the state moves forward.
    ghost predicate Before(w: Wire) { written <= w.written && accepted <= w.accepted && state.Rank() <= w.state.Rank() }

    lemma BeforeSame()
      ensures Before(this)
    {
    }

    // Only a payload sent in this step is accepted.
    ghost predicate Calm(w: Wire) { Before(w) && w.accepted == accepted }

    lemma SentBefore(data: seq<Byte>, r: WriteResult)
      requires state != Disconnected && content == [] ==> r.Count() <= |data|
      ensures Before(Sent(data, r))
    {
    }

    lemma DrainedCalm(n: nat)
      requires n <= |content|
      ensures Calm(Drained(n))
    {
    }

    lemma AskedToShutCalm(inLoop: bool)
      ensures Calm(AskedToShut(inLoop))
    {
    }

    // A half-close the loop thread was asked for has happened, unless bytes still wait or the
    // connection has closed.
    lemma PendingHalfClose()
      requires Ok() && shutAsked && state != Disconnected && content == []
      ensures shut
    {
    }

    // With nothing waiting, exactly the accepted bytes are on the wire.
    lemma DrainedMeansWritten()
      requires Ok() && state.Up() && !writeOn
      ensures written == accepted
    {
      assert written + [] == written;
    }

    // A half-close that runs once nothing keeps it waiting shuts the write side, and everything
    // accepted was written by then exactly if the connection is up or nothing waited when it
    // closed.
    lemma EarlyHalfCloseIff()
      requires Ok() && !writeOn && !shut && state.Rank() >= 2
      ensures ShutDown().shut
      ensures ShutDown().written == ShutDown().accepted <==> state.Up() || content == []
    {
      assert written + [] == written;
      assert |written + content| == |written| + |content|;
    }

    // What was passed to Send before Shutdown is written exactly if nothing of it was still
    // queued when the write side was shut; otherwise that part, and no other, is missing.
    lemma PromiseIff()
      requires Ok() && promised.Some? && shut && shutUp && shutClean
      ensures written + late == promised.value && (written == promised.value <==> late == [])
    {
      assert written + [] == written;
    }
  }

  // ---- two runs in which something promised or accepted is not written ----

  const START := Wire(Connecting, [], false, [], [], false, [], false, false, None, [], false, false)

  // A byte waits, and Shutdown is queued.
  const BYTE_WAITING := Wire(Disconnecting, [7], true, [], [7], false, [QShutdown], false, false, Some([7]), [],
                             false, false)

  lemma ByteWaitingRun()
    ensures START.(state := Connected).Sent([7], WouldBlock).AskedToShut(false) == BYTE_WAITING
  {
    ByteSent();
    assert [7] + InQueue([]) == [7];
    var none: seq<Functor> := [];
    assert none + [QShutdown] == [QShutdown];
    hide Wire.Sent, InQueue, START;
    assert BYTE_SENT.AskedToShut(false) == BYTE_WAITING;
  }

  const BYTE_SENT := Wire(Connected, [7], true, [], [7], false, [], false, false, None, [], false, false)

  lemma ByteSent()
    ensures START.(state := Connected).Sent([7], WouldBlock) == BYTE_SENT
  {
    assert [7][0..] == [7] && [7][..0] == [];
    var nothing: seq<Byte> := [];
    assert nothing + [7][..0] == nothing && nothing + [7] == [7];
  }

  // The peer closes, and the half-close runs only then.
  lemma LateHalfCloseRun()
    ensures var w := BYTE_WAITING;
            && w.queue == [QShutdown] && w.state == Disconnecting && w.content == [7] && w.writeOn
            && var v := w.Closed().Popped().ShutDown(); v.shut && !v.faulted && v.written == [] && v.accepted == [7]
  {
    hide InQueue;
    var w := BYTE_WAITING.Closed().Popped();
    assert [QShutdown][1..] == [];
    assert w == BYTE_WAITING.(state := Disconnected, writeOn := false, queue := []);
    assert w.ShutDown().shut && w.ShutDown().written == [];
  }

  // A byte waits and another is queued by another thread, which then asks for the shutdown.
  lemma TwoPayloadsRun()
    ensures START.(state := Connected).Sent([7], WouldBlock).Pushed(QSend([8])).AskedToShut(false) == TWO_PAYLOADS
  {
    ByteSent();
    assert InQueue([QSend([8])]) == [8] by { assert [QSend([8])][1..] == [] && [8] + InQueue([]) == [8]; }
    hide InQueue, Wire.Sent, START;
    var none: seq<Functor> := [];
    assert none + [QSend([8])] == [QSend([8])] && [QSend([8])] + [QShutdown] == [QSend([8]), QShutdown];
    assert [7] + [8] == [7, 8];
    assert BYTE_SENT.Pushed(QSend([8])).AskedToShut(false) == TWO_PAYLOADS;
  }

  const TWO_PAYLOADS := Wire(Disconnecting, [7], true, [], [7], false, [QSend([8]), QShutdown], false, false,
                             Some([7, 8]), [], false, false)

  // The first byte drains, the write side is shut at once, and the second byte is refused.
  lemma LatePayloadRun()
    ensures var w := TWO_PAYLOADS.Drained(1).Popped().Sent([8], Broken);
            w.written == [7] && w.promised == Some([7, 8]) && w.late == [8] && w.shut && w.shutUp && w.shutClean
    ensures var w := TWO_PAYLOADS.Drained(1); w.shut && w.content == [] && w.queue == [QSend([8]), QShutdown]
  {
    assert InQueue([QSend([8]), QShutdown]) == [8] by {
      QueuedMore([QSend([8])], QShutdown);
      assert [QSend([8])] + [QShutdown] == [QSend([8]), QShutdown] && [QSend([8])][1..] == [] && [8] + [] + [] == [8];
    }
    hide InQueue;
    assert [] + [7] == [7] && [7][..1] == [7];
  }

  // ---- the life ----

  // Whether a report makes HandleClose run while the connection is closed already: the
  // channel's close callback runs for a hang-up without data, and after it the read callback
  // for data or priority data.
  predicate ClosesAgain(up: bool, e: Events, r: ReadResult) {
    if up then e.hup && !e.inp && e.pri && r.EndOfFile?
    else (e.hup && !e.inp) || ((e.inp || e.pri) && r.EndOfFile?)
  }

  // The channel: its interest, what its poller was told, and whether it has left its poller.
  datatype Chan = Chan(readOn: bool, writeOn: bool, told: Told, removed: bool) {
    function Updated(): Chan { this.(told := Tell(told, !readOn && !writeOn)) }

    function Reading(on: bool): Chan { this.(readOn := on).Updated() }

    function Writing(on: bool): Chan { this.(writeOn := on).Updated() }

    function Disabled(): Chan { this.(readOn := false, writeOn := false).Updated() }

    function Removed(): Chan { this.(told := Absent, removed := true) }

    predicate Idle() { !readOn && !writeOn }

    // An update after the removal: epoll registers the channel anew, poll fails an assertion,
    // the channel still carrying the number of its slot.
    predicate Revived() { removed && !told.Absent? }
  }

  // Whether the server was asked to take the connection out of its map, and whether it has.
  datatype Erase = NotAsked | Requested | Done

  // Whether the server has been destroyed, and whether it found the connection in its map then.
  datatype ServerEnd = NotYet | FoundIt | MissedIt

  // The server's side: stale says that it was called after its end; finalSteps counts those
  // queued for the connection, one by the erasure and one by the destructor.
  datatype Server = Server(erase: Erase, end: ServerEnd, stale: bool, finalSteps: nat) {
    // It knows the connection until that is erased or the server destroyed.
    predicate InMap() { !erase.Done? && end.NotYet? }

    // The close callback asks its loop for the erasure, whether or not it is still there.
    function CloseCalled(): Server { this.(erase := Requested, stale := stale || !end.NotYet?) }

    function Erased(): Server {
      this.(erase := Done, stale := stale || !end.NotYet?, finalSteps := finalSteps + 1)
    }

    // ~TcpServer: what is in the map goes, and its final step is queued.
    function Ended(): Server {
      if InMap() then this.(end := FoundIt, finalSteps := finalSteps + 1) else this.(end := MissedIt)
    }

    function StepTaken(): Server
      requires 0 < finalSteps
    {
      this.(finalSteps := finalSteps - 1)
    }
  }

  // A connection as the server makes it.
  function Newborn(backend: Backend): Life {
    Life(backend, Connecting, true, Chan(false, false, Absent, false), Server(NotAsked, NotYet, false, 0), false,
         0, 0, false, false)
  }

  // aborted: an assertion has failed, that of
  // HandleClose on the state or that of the poller on a channel it removes; quietAtClose: the
  // channel had no interest left when the connection closed; switched: reading was started or
  // stopped after that.
  datatype Life = Life(
    backend: Backend, state: State, reading: bool, chan: Chan, server: Server, aborted: bool,
    ups: nat, downs: nat, quietAtClose: bool, switched: bool) {

    predicate Watched() { Watches(backend, chan.told) }

    // What the system may report: for a watched descriptor, error and hang-up always, the
    // rest by interest.
    predicate Deliverable(e: Events) { Watched() && (e.inp || e.pri ==> chan.readOn) && (e.out ==> chan.writeOn) }

    // What the poller was told follows the interest; while the connection is up it has been
    // told of no interest at most once in a row, and by a close without interest twice.
    ghost predicate PollerTold() {
      && (state == Connecting ==> reading && chan.Idle())
      && (chan.told.Absent? <==> state == Connecting || chan.removed)
      && (chan.removed ==> chan.Idle())
      && (state.Up() ==> reading == chan.readOn)
      && (state.Up() && !chan.removed ==> chan.told == if chan.Idle() then Quiet(1, false) else Active)
      && (state == Disconnected && !chan.removed ==>
            if chan.Idle() then chan.told.Quiet? && !chan.told.fromStart && 1 <= chan.told.times
            else chan.told == Active)
      && (state == Disconnected && !chan.removed && !switched ==>
            chan.told == Quiet(if quietAtClose then 2 else 1, false))
    }

    // One up callback and then one down callback.
    ghost predicate CalledBack() {
      && (state == Connecting ==> ups == 0 && downs == 0)
      && (state.Up() ==> ups == 1 && downs == 0)
      && (state == Disconnected ==> ups == 1 && downs == 1 && !chan.writeOn)
      && (state != Disconnected ==> !switched)
    }

    // An erasure is asked for by the close, and the channel removed by a final step: of a
    // connection that is not closed only after the server's end.
    ghost predicate InOrder() {
      && (state != Disconnected ==> server.erase.NotAsked? && !server.end.MissedIt?)
      && (state != Disconnected && (chan.removed || aborted) ==> state == Disconnecting && server.end.FoundIt?)
      && (state == Disconnected && server.erase.NotAsked? ==> server.end.FoundIt? && chan.removed)
      && (chan.removed ==> server.erase.Done? || server.end.FoundIt?)
      && (server.end.NotYet? || server.erase.NotAsked? ==> !server.stale)
      && (server.end.MissedIt? ==> server.erase.Done? && !server.stale)
      && (server.end.FoundIt? && server.erase.Done? ==> server.stale)
      && server.finalSteps ==
           (if server.erase.Done? then 1 else 0) + (if server.end.FoundIt? then 1 else 0)
           - (if chan.removed then 1 else 0)
    }

    ghost predicate Ok() { CalledBack() && InOrder() && (chan.Revived() || PollerTold()) }

    // What each step keeps: a doomed connection is not saved, and a removed channel is
    // registered anew only by a switch of reading after the close or after the server's end.
    ghost predicate Sound(l: Life) {
      && (Doomed() ==> l.Doomed())
      && (l.chan.Revived() && !chan.Revived() ==> l.switched || l.server.end.FoundIt?)
    }

    lemma SoundSame()
      ensures Sound(this)
    {
    }

    // After the server's end: the connection has closed or begun to close before its final
    // step ran.
    ghost predicate Doomed() { server.end.FoundIt? && (!server.erase.NotAsked? || state == Disconnecting) }

    // ---- steps ----

    function Established(): Life { this.(state := Connected, chan := chan.Reading(true), ups := ups + 1) }

    function Reading(on: bool): Life {
      if reading == chan.readOn == on then this
      else this.(chan := chan.Reading(on), reading := on, switched := switched || state == Disconnected)
    }

    function Writing(on: bool): Life { if chan.writeOn == on then this else this.(chan := chan.Writing(on)) }

    function Leaving(): Life { if state.Up() then this.(state := Disconnecting) else this }

    // HandleClose: the assertion on the state, and the rest of it.
    function CloseCalled(): Life {
      if !state.Up() then this.(aborted := true)
      else
        this.(state := Disconnected, quietAtClose := chan.Idle(), chan := chan.Disabled(), downs := downs + 1,
              server := server.CloseCalled())
    }

    function Erased(): Life { this.(server := server.Erased()) }

    function ServerEnded(): Life { this.(server := server.Ended()) }

    // ConnectDestroyed: reported down if still connected, and removed from the poller, which
    // asserts that the channel is registered and has no interest.
    function Destroyed(): Life
      requires 0 < server.finalSteps
    {
      var l := if state == Connected
               then this.(state := Disconnected, chan := chan.Disabled(), downs := downs + 1) else this;
      if !l.chan.removed && l.chan.Idle() then l.(chan := l.chan.Removed(), server := server.StepTaken())
      else l.(aborted := true)
    }

    // The connection after one report: the close callback, then the read callback, and, if
    // neither has ended the program, the write callback.
    function Reported(e: Events, r: ReadResult): Life {
      var l := if e.hup && !e.inp then CloseCalled() else this;
      if (e.inp || e.pri) && !l.aborted && r.EndOfFile? then l.CloseCalled() else l
    }

    // Any report; what the system reports now is only needed to tell why a closed connection
    // is closed again.
    lemma ReportedIs(e: Events, r: ReadResult)
      requires Ok() && !aborted && !chan.Revived() && state != Connecting
      ensures var l := Reported(e, r);
              && l.Ok() && (l.aborted <==> ClosesAgain(state.Up(), e, r))
              && l.downs == (if l.state == Disconnected then 1 else 0)
              && (l.state == Disconnected <==>
                    state == Disconnected || (e.hup && !e.inp) || ((e.inp || e.pri) && r.EndOfFile?))
              && state.Rank() <= l.state.Rank()
              && (state == Disconnected ==> l == this.(aborted := l.aborted))
              && (l.state == Disconnected ==> !l.chan.writeOn)
              && (l.aborted && !state.Up() && Deliverable(e) ==>
                    (backend == EpollBackend && l.quietAtClose) || l.switched)
              && (l.aborted && state.Up() ==> e.hup && !e.inp && e.pri)
              && l.server.end == server.end && Sound(l)
    {
    }

    // ---- what they keep ----

    lemma EstablishedOk()
      requires Ok() && state == Connecting
      ensures Established().Ok() && Sound(Established())
    {
    }

    lemma ReadingOk(on: bool)
      requires Ok() && state != Connecting
      ensures Reading(on).Ok() && Sound(Reading(on)) && Reading(on).chan.readOn == on == Reading(on).reading
    {
    }

    lemma WritingOk(on: bool)
      requires Ok() && (state.Up() || !on)
      ensures Writing(on).Ok() && Sound(Writing(on))
    {
    }

    lemma LeavingOk()
      requires Ok()
      ensures Leaving().Ok() && Sound(Leaving())
    {
    }

    lemma CloseCalledOk()
      requires Ok() && state != Connecting
      ensures CloseCalled().Ok() && Sound(CloseCalled())
      ensures CloseCalled().state == Disconnected && CloseCalled().downs == 1
    {
    }

    lemma ErasedOk()
      requires Ok() && server.erase.Requested?
      ensures Erased().Ok() && Sound(Erased())
    {
    }

    lemma ServerEndedOk()
      requires Ok() && server.end.NotYet?
      ensures ServerEnded().Ok() && Sound(ServerEnded())
    {
    }

    // A final step runs after the connection was established, which was queued before it.  An
    // assertion fails exactly if the channel is gone already, or has interest and the
    // connection is not connected; without the server's end that takes a switch of reading
    // after the close.
    lemma DestroyedOk()
      requires Ok() && 0 < server.finalSteps && state != Connecting && !aborted && !chan.Revived()
      ensures Destroyed().Ok() && Sound(Destroyed())
      ensures Destroyed().aborted <==> chan.removed || (state != Connected && !chan.Idle())
      ensures !Destroyed().aborted ==> Destroyed().chan.removed && Destroyed().server == server.StepTaken()
      ensures Destroyed().aborted ==> switched || server.end.FoundIt?
    {
    }

    // ---- what it means ----

    // The teardown is complete: reported down, out of its poller, forgotten by the server,
    // with nothing left to run and nothing gone wrong.
    ghost predicate Complete() {
      && state == Disconnected && ups == 1 && downs == 1 && chan.removed && !Watched() && !server.InMap()
      && server.finalSteps == 0 && !server.erase.Requested? && !aborted && !server.stale
    }

    // Of a connection the destructor finds, the teardown completes exactly if it is connected
    // when the final step runs: then that step completes it.
    lemma EndedIff()
      requires Ok() && server.end.FoundIt? && 0 < server.finalSteps && state != Connecting
      requires !aborted && !chan.Revived()
      ensures Destroyed().Complete() <==> state == Connected
      ensures state == Disconnecting && !Destroyed().aborted ==> Destroyed().downs == 0
      ensures state == Disconnected ==> server.erase.Requested? || server.stale
    {
    }

    // It is doomed exactly from when it leaves the connected state before that, or did so
    // before the end without being erased in time; until then it can be completed.
    lemma DoomedIff()
      requires Ok() && server.end.FoundIt? && !aborted && !chan.Revived()
      ensures Doomed() ==> !Complete()
      ensures !Doomed() && state == Connecting ==> Established().Destroyed().Complete()
      ensures !Doomed() && state == Connected ==> Destroyed().Complete()
      ensures !Doomed() && state.Rank() >= 2 ==> Complete()
    {
    }

    // Of one it does not find the teardown completes as without the server's end.
    lemma MissedIff()
      requires Ok() && !server.end.FoundIt? && 0 < server.finalSteps && !aborted && !chan.Revived()
      ensures Destroyed().Complete() <==> chan.Idle()
      ensures !switched ==> chan.Idle()
    {
    }

    // A closed connection can be closed a second time exactly if its descriptor is still
    // watched: if reading was started again, or, with epoll, if the updates without interest
    // since it last had some are even in number.  Unless reading was switched after the close,
    // that is so exactly with epoll when the channel had no interest left at the close.
    lemma SecondCloseIff()
      requires Ok() && state == Disconnected && !chan.Revived()
      ensures (exists e, r :: Deliverable(e) && ClosesAgain(false, e, r)) <==> Watched()
      ensures Watched() <==>
              !chan.removed && (chan.readOn || (backend == EpollBackend && chan.told.times % 2 == 0))
      ensures !switched ==> (Watched() <==> backend == EpollBackend && quietAtClose && !chan.removed)
    {
      var hangUp := Events(true, false, false, false, false);
      assert ClosesAgain(false, hangUp, Data);
      assert Watched() ==> Deliverable(hangUp);
    }

    // While the connection is up its descriptor is watched exactly when it has interest.
    lemma UpWatchedIff()
      requires Ok() && state.Up() && !chan.Revived()
      ensures Watched() <==> !chan.Idle()
    {
    }

    // Without the server's end: once every functor of a closed connection has run, the channel
    // has left its poller and the server no longer knows the connection.
    lemma Finished()
      requires Ok() && state == Disconnected && !server.end.FoundIt? && !aborted && !chan.Revived()
      requires !server.erase.Requested? && server.finalSteps == 0
      ensures Complete()
    {
    }
  }
}
