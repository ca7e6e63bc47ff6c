// The asynchronous logger: front-end threads fill buffers under a lock, a back-end thread
// takes the filled ones over, writes them, and hands two empty ones back.  Each method is
// one stretch of code under the lock, or one stretch of the back-end outside it; they may
// be called in any order that the back-end's phase allows.
//
// A buffer has exactly one owner at any time, so it is modelled by the text it holds, and a
// pointer to it by an option: moving a buffer leaves null behind.
module AsyncLoggings {
  import opened FixedBuffers

  const LARGE_BUFFER: nat := 4000 * 1000

  type Buffer = s: string | |s| <= LARGE_BUFFER

  datatype BufferPtr = Null | Ptr(text: Buffer)

  // Where the back-end is: about to look whether the logger runs, about to collect, writing
  // what it collected, or gone.
  datatype Phase = Testing | Collecting | Writing | Exited

  // What may happen next, in whatever order the threads get to run.
  datatype Step = Appends(logline: string) | Tests | Collects | WritesNext | Returns | Stops

  function Concat(texts: seq<string>): string {
    if texts == [] then "" else texts[0] + Concat(texts[1..])
  }

  lemma {:induction false} ConcatAppend(texts: seq<string>, t: string)
    ensures Concat(texts + [t]) == Concat(texts) + t
  {
    if texts == [] {
      assert texts + [t] == [t];
      assert Concat([t]) == t + Concat([]);
    } else {
      assert (texts + [t])[1..] == texts[1..] + [t];
      ConcatAppend(texts[1..], t);
    }
  }

  lemma ConcatNone()
    ensures Concat([]) == ""
  {
  }

  lemma ConcatNext(texts: seq<string>, k: nat)
    requires k < |texts|
    ensures Concat(texts[k..]) == texts[k] + Concat(texts[k + 1..])
  {
  }

  class AsyncLogging {
    // shared, under the lock
    var currentBuffer: BufferPtr
    var nextBuffer: BufferPtr
    var buffers: seq<Buffer>
    var running: bool
    // the back-end's own
    var newBuffer1: BufferPtr
    var newBuffer2: BufferPtr
    var buffersToWrite: seq<Buffer>
    var next: nat
    var phase: Phase

    // what was appended, what of it the last round collected, and what reached the file
    ghost var history: string
    ghost var collected: string
    ghost var written: string

    // There is always a buffer to fill, and without a spare one there is a full one.  The
    // back-end starts a round with two empty buffers, and during it has collected enough to
    // have two again.
    ghost predicate Spares()
      reads this
    {
      && currentBuffer.Ptr? && (nextBuffer.Null? ==> buffers != [])
      && (nextBuffer.Ptr? ==> nextBuffer.text == "") && (newBuffer2.Ptr? ==> newBuffer2.text == "")
      && if phase == Writing then
           newBuffer1.Null? && buffersToWrite != [] && (newBuffer2.Null? ==> |buffersToWrite| >= 2)
         else
           newBuffer1 == Ptr("") && newBuffer2.Ptr? && buffersToWrite == []
    }

    // What is queued, and what is being filled.
    ghost function Uncollected(): string
      requires currentBuffer.Ptr?
      reads this
    {
      Concat(buffers) + currentBuffer.text
    }

    // Whatever was appended is in the file, collected and on its way there, or in the front
    // end's buffers, in order.
    ghost predicate Valid()
      reads this
    {
      && Spares() && next <= |buffersToWrite|
      && written + Concat(buffersToWrite[next..]) == collected && collected + Uncollected() == history
    }

    constructor ()
      ensures Valid() && history == written == "" && phase == Testing && running
    {
      currentBuffer, nextBuffer, buffers := Ptr(""), Ptr(""), [];
      newBuffer1, newBuffer2, buffersToWrite := Ptr(""), Ptr(""), [];
      next, phase, running, history, collected, written := 0, Testing, true, "", "", "";
    }

    // ---- the front end ----

    // A record shorter than a buffer is kept whole, behind all earlier ones; a longer one is dropped.
    method Append(logline: string)
      requires Valid()
      modifies `currentBuffer, `nextBuffer, `buffers, `history
      ensures Valid() && history == old(history) + if |logline| < 4_000_000 then logline else ""
    {
      hide Concat;
      if LARGE_BUFFER - |currentBuffer.text| > |logline| {
        Fill(logline);
      } else {
        ConcatAppend(buffers, currentBuffer.text);
        buffers := buffers + [currentBuffer.text];
        if nextBuffer.Ptr? {
          currentBuffer, nextBuffer := nextBuffer, Null;
        } else {
          currentBuffer := Ptr("");
        }
        assert Uncollected() == old(Uncollected()) + "";
        Fill(logline);
      }
    }

    // currentBuffer_->Append.
    method Fill(logline: string)
      requires Valid()
      modifies `currentBuffer, `history
      ensures Valid() && buffers == old(buffers)
      ensures history == old(history) + if |logline| < LARGE_BUFFER - |old(currentBuffer.text)| then logline else ""
    {
      hide Concat;
      ghost var t := if |logline| < LARGE_BUFFER - |currentBuffer.text| then logline else "";
      currentBuffer := Ptr(Appended(currentBuffer.text, logline, LARGE_BUFFER));
      assert Uncollected() == old(Uncollected()) + t;
      history := history + t;
    }

    // ---- the back end ----

    // The condition of the loop, read without the lock: it ends once the logger is stopped.
    method Test()
      requires Valid() && phase == Testing
      modifies `phase
      ensures Valid() && phase == if running then Collecting else Exited
    {
      phase := if running then Collecting else Exited;
    }

    // The locked part of a round, after a wait if nothing was full: everything filled so far
    // is taken over, and the front end gets empty buffers.  The logger may have been stopped
    // since the loop looked.
    method Collect()
      requires Valid() && phase == Collecting
      modifies `currentBuffer, `nextBuffer, `buffers, `newBuffer1, `newBuffer2, `buffersToWrite, `next, `phase
      modifies `collected
      ensures Valid() && phase == Writing && next == 0 && nextBuffer.Ptr? && currentBuffer == Ptr("")
      ensures buffersToWrite == old(buffers) + [old(currentBuffer).text] && buffers == [] && collected == history
    {
      ConcatNone();
      hide Concat;
      ConcatAppend(buffers, currentBuffer.text);
      assert buffersToWrite[next..] == [];
      buffers := buffers + [currentBuffer.text];
      currentBuffer, newBuffer1 := newBuffer1, Null;
      buffersToWrite, buffers := buffers, buffersToWrite;
      if nextBuffer.Null? {
        nextBuffer, newBuffer2 := newBuffer2, Null;
      }
      next, phase := 0, Writing;
      collected := history;
      assert buffersToWrite[next..] == buffersToWrite;
    }

    // The next collected buffer's used part goes to the file.
    method WriteNext()
      requires Valid() && phase == Writing && next < |buffersToWrite|
      modifies `next, `written
      ensures Valid() && next == old(next) + 1 && written == old(written) + buffersToWrite[old(next)]
    {
      ConcatNext(buffersToWrite, next);
      written := written + buffersToWrite[next];
      next := next + 1;
    }

    // At most two written buffers are kept, and emptied, to have two spare ones again.
    method ReturnBuffers()
      requires Valid() && phase == Writing && next == |buffersToWrite|
      modifies `newBuffer1, `newBuffer2, `buffersToWrite, `phase, `next
      ensures Valid() && phase == Testing && newBuffer1 == newBuffer2 == Ptr("")
    {
      if |buffersToWrite| > 2 {
        buffersToWrite := buffersToWrite[..2];
      }
      if newBuffer1.Null? {
        newBuffer1 := Ptr(buffersToWrite[|buffersToWrite| - 1]);
        buffersToWrite := buffersToWrite[..|buffersToWrite| - 1];
        newBuffer1 := Ptr("");
      }
      if newBuffer2.Null? {
        newBuffer2 := Ptr(buffersToWrite[|buffersToWrite| - 1]);
        buffersToWrite := buffersToWrite[..|buffersToWrite| - 1];
        newBuffer2 := Ptr("");
      }
      buffersToWrite := [];
      next, phase := 0, Testing;
    }

    method Stop()
      requires Valid()
      modifies `running
      ensures Valid() && !running
    {
      running := false;
    }

    predicate Enabled(step: Step)
      reads this
    {
      match step
      case Appends(_) => true
      case Tests => phase == Testing
      case Collects => phase == Collecting
      case WritesNext => phase == Writing && next < |buffersToWrite|
      case Returns => phase == Writing && next == |buffersToWrite|
      case Stops => true
    }

    // Any interleaving: steps that cannot be taken where they stand are skipped.
    method RunSteps(steps: seq<Step>)
      requires Valid()
      modifies this
      ensures Valid() && old(written) <= written <= history && old(history) <= history
    {
      hide Concat;
      WrittenInOrder();
      for i := 0 to |steps|
        invariant Valid() && old(written) <= written <= history && old(history) <= history
      {
        if Enabled(steps[i]) {
          match steps[i]
          case Appends(logline) => Append(logline);
          case Tests => Test();
          case Collects => Collect();
          case WritesNext => WriteNext();
          case Returns => ReturnBuffers();
          case Stops => Stop();
        }
        WrittenInOrder();
      }
    }

    // ---- what the invariant says at any moment of any run ----

    // The file holds a front part of what was appended; between rounds exactly the queued and
    // the current buffer are missing.
    lemma WrittenInOrder()
      requires Valid()
      ensures written <= collected <= history
      ensures phase != Writing ==> written == collected && written + Uncollected() == history
    {
    }

    // So once the back-end has gone the file holds what its last round collected, and is
    // complete exactly when nothing was appended after that.
    lemma CompleteIff()
      requires Valid() && phase == Exited
      ensures written == collected && (written == history <==> history == collected)
    {
    }

    // Until it has gone the back end is never stuck: at any moment exactly one of its steps is
    // next; and records may come, and the logger be stopped, at any moment.
    lemma AlwaysMoves(logline: string)
      requires Valid()
      ensures Enabled(Appends(logline)) && Enabled(Stops)
      ensures phase != Exited ==>
        var step := if phase == Testing then Tests else if phase == Collecting then Collects
                    else if next < |buffersToWrite| then WritesNext else Returns;
        Enabled(step) && forall s: Step :: Enabled(s) && s != step ==> s.Appends? || s == Stops
    {
    }

    // One undisturbed round puts everything appended before it into the file, also when the
    // logger was stopped after the loop had looked.
    method Round()
      requires Valid() && phase == Collecting
      modifies this
      ensures Valid() && phase == Testing && running == old(running) && written == collected == history == old(history)
    {
      Collect();
      while next < |buffersToWrite|
        invariant Valid() && phase == Writing && running == old(running)
        invariant collected == history == old(history)
      {
        WriteNext();
      }
      ReturnBuffers();
      WrittenInOrder();
    }
  }

  // A record appended after the last round, and before Stop, never reaches the file.
  method LostRecord() returns (l: AsyncLogging)
    ensures l.Valid() && l.phase == Exited && l.history == "ab" && l.written == "a"
  {
    hide Concat, AsyncLogging.Spares;
    l := new AsyncLogging();
    l.Append("a");
    l.Test();
    l.Round();
    l.Append("b");
    l.Stop();
    l.Test();
    l.WrittenInOrder();
  }

  // Stopped while the back-end is between its look and its lock, everything is still written.
  method StoppedInTime() returns (l: AsyncLogging)
    ensures l.Valid() && l.phase == Exited && l.history == l.written == "a"
  {
    l := new AsyncLogging();
    l.Test();
    l.Append("a");
    l.Stop();
    l.Round();
    l.Test();
    l.WrittenInOrder();
  }
}
