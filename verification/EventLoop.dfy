// The event loop's queue of functors and its wakeup descriptor, as steps that the loop
// thread and any number of other threads take in any order.
module EventLoops {
  type Functor = nat

  // Where the loop thread is: blocked in poll or about to be, running channel callbacks,
  // past the flag but not yet past the swap, or running the batch it swapped out.
  datatype Phase = Polling | Handling | Swapping | Running

  // What may happen next, in whatever order the threads get to run.
  datatype Step =
    | OtherPushes(cb: Functor) | OtherWakes | PollEnds | ReadsCount | LoopQueues(cb: Functor)
    | Begins | Swaps | RunsNext | Ends

  // An eventfd refuses to count past this value.
  const EVENT_MAX: nat := 0xFFFF_FFFF_FFFF_FFFE

  class EventLoop {
    var pendingFunctors: seq<Functor>
    var callingPendingFunctors: bool
    var eventCount: nat
    // the local vector of DoPendingFunctors
    var functors: seq<Functor>
    var phase: Phase
    // poll reported the wakeup descriptor
    var wakeupActive: bool

    // other threads that have pushed and not yet written to the descriptor
    var between: nat
    ghost var history: seq<Functor>
    ghost var executed: seq<Functor>

    // Every functor is in exactly one place, and in the order in which it was queued.
    ghost predicate InOrder()
      reads this
    {
      executed + functors + pendingFunctors == history
    }

    // Work that the current round will not pick up has its wakeup written or on the way.
    ghost predicate WillWake()
      reads this
    {
      pendingFunctors != [] && (phase == Polling || phase == Running) ==> 0 < eventCount || 0 < between
    }

    ghost predicate Valid()
      reads this
    {
      && InOrder() && WillWake()
      && eventCount <= EVENT_MAX
      && (callingPendingFunctors <==> phase == Swapping || phase == Running)
      && (phase != Running ==> functors == [])
      && (wakeupActive ==> phase == Handling)
    }

    constructor ()
      ensures Valid() && phase == Polling && history == []
    {
      pendingFunctors, functors, callingPendingFunctors, eventCount := [], [], false, 0;
      phase, wakeupActive, between, history, executed := Polling, false, 0, [], [];
    }

    // ---- other threads ----

    // The locked part of QueueInLoop.
    method PushFromOther(cb: Functor)
      requires Valid()
      modifies `pendingFunctors, `between, `history
      ensures Valid() && history == old(history) + [cb] && between == old(between) + 1
      ensures pendingFunctors == old(pendingFunctors) + [cb]
    {
      pendingFunctors := pendingFunctors + [cb];
      between := between + 1;
      history := history + [cb];
    }

    // ... and its wakeup: the caller is not the loop thread.
    method WakeupFromOther()
      requires Valid() && 0 < between
      modifies `eventCount, `between
      ensures Valid() && 0 < eventCount && between == old(between) - 1
    {
      Wakeup();
      between := between - 1;
    }

    method Wakeup()
      modifies `eventCount
      ensures old(eventCount) <= eventCount && 0 < eventCount
      ensures old(eventCount) < 0xFFFF_FFFF_FFFF_FFFE ==> eventCount == old(eventCount) + 1
      ensures old(eventCount) <= EVENT_MAX ==> eventCount <= EVENT_MAX
    {
      if eventCount < EVENT_MAX {
        eventCount := eventCount + 1;
      }
    }

    // ---- the loop thread ----

    // Poll returns for the wakeup descriptor, for other events or for its timeout.  It can
    // only keep blocking while the count is zero.
    method PollReturns()
      requires Valid() && phase == Polling
      modifies `phase, `wakeupActive
      ensures Valid() && phase == Handling && wakeupActive == (0 < eventCount)
    {
      phase := Handling;
      wakeupActive := 0 < eventCount;
    }

    // The wakeup channel's callback reads the count back to zero.
    method HandleRead()
      requires Valid() && phase == Handling && wakeupActive
      modifies `eventCount, `wakeupActive
      ensures Valid() && eventCount == 0 && !wakeupActive
    {
      eventCount := 0;
      wakeupActive := false;
    }

    // QueueInLoop called by a channel callback or by a running functor.
    method QueueFromLoop(cb: Functor)
      requires Valid() && (phase == Handling || phase == Running)
      modifies `pendingFunctors, `history, `eventCount
      ensures Valid() && history == old(history) + [cb]
      ensures pendingFunctors == old(pendingFunctors) + [cb]
      ensures if phase == Running then 0 < eventCount else eventCount == old(eventCount)
    {
      pendingFunctors := pendingFunctors + [cb];
      history := history + [cb];
      if callingPendingFunctors {
        Wakeup();
      }
    }

    method BeginPending()
      requires Valid() && phase == Handling && !wakeupActive
      modifies `callingPendingFunctors, `phase
      ensures Valid() && phase == Swapping
    {
      callingPendingFunctors := true;
      phase := Swapping;
    }

    // The locked swap: everything queued so far becomes the batch.
    method SwapPending()
      requires Valid() && phase == Swapping
      modifies `functors, `pendingFunctors, `phase
      ensures Valid() && phase == Running && pendingFunctors == [] && executed + functors == history
      ensures functors == old(pendingFunctors)
    {
      functors, pendingFunctors := pendingFunctors, functors;
      phase := Running;
    }

    method RunNext() returns (cb: Functor)
      requires Valid() && phase == Running && functors != []
      modifies `functors, `executed
      ensures Valid() && |executed| <= |history| && executed == old(executed) + [cb]
      ensures |old(executed)| < |history| && cb == history[|old(executed)|]
      ensures old(functors) == [cb] + functors
    {
      cb := functors[0];
      functors := functors[1..];
      executed := executed + [cb];
      assert executed + functors == old(executed + functors);
      assert history[..|executed|] == executed;
    }

    method EndPending()
      requires Valid() && phase == Running && functors == []
      modifies `callingPendingFunctors, `phase
      ensures Valid() && phase == Polling
    {
      callingPendingFunctors := false;
      phase := Polling;
    }

    // One undisturbed round of Loop.
    method Round()
      requires Valid() && phase == Polling
      modifies this
      ensures Valid() && phase == Polling && executed == history == old(history) && between == old(between)
      ensures pendingFunctors == []
    {
      PollReturns();
      if wakeupActive {
        HandleRead();
      }
      BeginPending();
      SwapPending();
      while functors != []
        invariant Valid() && phase == Running && history == old(history) && between == old(between) &&
          pendingFunctors == []
        invariant executed + functors == history
        decreases |functors|
      {
        var _ := RunNext();
      }
      EndPending();
    }

    predicate Enabled(step: Step)
      reads this
    {
      match step
      case OtherPushes(_) => true
      case OtherWakes => 0 < between
      case PollEnds => phase == Polling
      case ReadsCount => phase == Handling && wakeupActive
      case LoopQueues(_) => phase == Handling || phase == Running
      case Begins => phase == Handling && !wakeupActive
      case Swaps => phase == Swapping
      case RunsNext => phase == Running && functors != []
      case Ends => phase == Running && functors == []
    }

    // Any interleaving: steps that cannot be taken where they stand are skipped.  At every
    // moment nothing runs out of turn and no wakeup is lost.
    method RunSteps(steps: seq<Step>)
      requires Valid()
      modifies this
      ensures Valid() && old(executed) <= executed <= history && old(history) <= history
    {
      RanInOrder();
      for i := 0 to |steps|
        invariant Valid() && old(executed) <= executed <= history && old(history) <= history
        invariant phase == Polling && executed != history ==> 0 < eventCount || 0 < between
      {
        if Enabled(steps[i]) {
          match steps[i]
          case OtherPushes(cb) => PushFromOther(cb);
          case OtherWakes => WakeupFromOther();
          case PollEnds => PollReturns();
          case ReadsCount => HandleRead();
          case LoopQueues(cb) => QueueFromLoop(cb);
          case Begins => BeginPending();
          case Swaps => SwapPending();
          case RunsNext => var _ := RunNext();
          case Ends => EndPending();
        }
        RanInOrder();
        if phase == Polling && executed != history { NoLostWakeup(); }
      }
    }

    // ---- what the invariant says at any moment of any run ----

    // The loop never blocks on work that nobody will announce.
    lemma NoLostWakeup()
      requires Valid() && phase == Polling && executed != history
      ensures 0 < eventCount || 0 < between
    {
    }

    // The loop thread is never stuck: at any moment exactly one of its own steps is next; and
    // other threads may push and wake at any moment.
    lemma AlwaysMoves(cb: Functor)
      requires Valid()
      ensures var next := if phase == Polling then PollEnds
                          else if phase == Handling then if wakeupActive then ReadsCount else Begins
                          else if phase == Swapping then Swaps else if functors != [] then RunsNext else Ends;
              Enabled(next) && forall s: Step :: Enabled(s) && s != next ==>
                s.OtherPushes? || s == OtherWakes || s.LoopQueues?
      ensures Enabled(OtherPushes(cb)) && (0 < between ==> Enabled(OtherWakes))
      ensures Enabled(LoopQueues(cb)) <==> phase == Handling || phase == Running
    {
    }

    // No functor runs twice or out of turn: what has run is a prefix of what was queued.
    lemma RanInOrder()
      requires Valid()
      ensures executed <= history
      ensures |executed| + |functors| + |pendingFunctors| == |history|
    {
    }
  }
}
