// The timer queue: an ordered set of timers and a one-shot alarm for the earliest of them.
// Other callbacks, and the timers' own, may add timers at any moment of a run.
module TimerQueues {
  import opened TimerOrder

  // Off; set to go off at a time, for an expiration, by a clock reading; or gone off and
  // not yet read.
  datatype Alarm = Off | Armed(at: Time, target: Time, setAt: Time) | Fired(target: Time)

  datatype Run = Run(timer: Timer, when: Time, now: Time)

  // Every live timer is in exactly one place, once.
  ghost predicate Placed(live: set<Timer>, timers: seq<Entry>, called: seq<Entry>, due: seq<Entry>) {
    && live == TimersOf(timers) + TimersOf(called) + TimersOf(due)
    && TimersOf(timers) !! TimersOf(called) !! TimersOf(due)
    && Once(called) && Once(due)
  }

  ghost predicate Once(s: seq<Entry>) { forall i, j :: 0 <= i < j < |s| ==> s[i].timer != s[j].timer }

  // Live timers are stored at different addresses.
  ghost predicate Stored(live: set<Timer>, ever: set<Timer>) {
    && live <= ever && (forall t <- live :: t.address < UINTPTR_MAX)
    && (forall t <- live, u <- live :: t.address == u.address ==> t == u)
  }

  // No run was early, and a one-shot timer that ran is not among those still to run.
  ghost predicate Logged(log: seq<Run>, ever: set<Timer>, toRun: set<Timer>) {
    && (forall i :: 0 <= i < |log| ==>
          log[i].when <= log[i].now && log[i].timer in ever && (log[i].timer.Repeat() || log[i].timer !in toRun))
    && (forall i, j :: 0 <= i < j < |log| && log[i].timer == log[j].timer ==> log[i].timer.Repeat())
  }

  ghost predicate Held(s: seq<Entry>, live: set<Timer>)
    reads live
  {
    forall i :: 0 <= i < |s| ==> s[i].timer in live && s[i].when == s[i].timer.expiration
  }

  // ---- a timer is added ----

  lemma PlacedAdd(live: set<Timer>, timers: seq<Entry>, called: seq<Entry>, due: seq<Entry>, e: Entry)
    requires Placed(live, timers, called, due) && e.timer !in live
    ensures Placed(live + {e.timer}, Inserted(timers, e), called, due)
  {
    hide Inserted;
    InsertedTimers(timers, e);
  }

  lemma StoredAdd(live: set<Timer>, ever: set<Timer>, t: Timer)
    requires Stored(live, ever) && t.address < UINTPTR_MAX && forall u <- live :: u.address != t.address
    ensures Stored(live + {t}, ever + {t})
  {
  }

  lemma LoggedAdd(log: seq<Run>, ever: set<Timer>, toRun: set<Timer>, t: Timer)
    requires Logged(log, ever, toRun) && t !in ever
    ensures Logged(log, ever + {t}, toRun + {t})
  {
  }

  lemma HeldAdd(s: seq<Entry>, live: set<Timer>, e: Entry)
    requires Held(s, live) && e.when == e.timer.expiration
    ensures Held(Inserted(s, e), live + {e.timer})
  {
  }

  lemma InsertedOnce(s: seq<Entry>, live: set<Timer>, e: Entry)
    requires Sorted(s) && Held(s, live) && forall u <- live :: u.address != e.timer.address
    ensures Sorted(Inserted(s, e))
  {
    forall x | x in s
      ensures x.timer in live
    {
      var k :| 0 <= k < |s| && s[k] == x;
    }
    InsertedSorted(s, e);
  }

  // ---- timers become due, run, and are put back or deleted ----

  ghost predicate Resting(called: seq<Entry>, due: seq<Entry>) { called == [] && due == [] }

  lemma TimersOfNone()
    ensures TimersOf([]) == {}
  {
  }

  lemma TimersOfNext(s: seq<Entry>, k: nat)
    requires k < |s|
    ensures TimersOf(s[..k + 1]) == TimersOf(s[..k]) + {s[k].timer}
  {
  }

  lemma PlacedRun(live: set<Timer>, timers: seq<Entry>, called: seq<Entry>, due: seq<Entry>)
    requires Placed(live, timers, called, due) && due != []
    ensures Placed(live, timers, called + [due[0]], due[1..])
    ensures TimersOf(timers) + TimersOf(due[1..]) == TimersOf(timers) + TimersOf(due) - {due[0].timer}
  {
    assert due == [due[0]] + due[1..];
    assert due[0].timer in TimersOf(due);
    forall i | 0 <= i < |called|
      ensures called[i].timer in TimersOf(called)
    {
    }
  }

  lemma LoggedRun(log: seq<Run>, ever: set<Timer>, toRun: set<Timer>, r: Run)
    requires Logged(log, ever, toRun) && r.timer in toRun && r.timer in ever && r.when <= r.now
    ensures Logged(log + [r], ever, toRun - {r.timer})
  {
  }

  lemma LoggedMore(log: seq<Run>, ever: set<Timer>, toRun: set<Timer>, t: Timer)
    requires Logged(log, ever, toRun) && t.Repeat()
    ensures Logged(log, ever, toRun + {t})
  {
  }

  lemma HeldLess(s: seq<Entry>, live: set<Timer>, t: Timer)
    requires Held(s, live) && t !in TimersOf(s)
    ensures Held(s, live - {t})
  {
  }

  lemma StoredLess(live: set<Timer>, ever: set<Timer>, t: Timer)
    requires Stored(live, ever) && t in live
    ensures Stored(live - {t}, ever) && forall u <- live - {t} :: u.address != t.address
  {
  }

  lemma PlacedBack(live: set<Timer>, timers: seq<Entry>, called: seq<Entry>, e: Entry)
    requires Placed(live, timers, called, []) && called != [] && e.timer == called[0].timer
    ensures Placed(live, Inserted(timers, e), called[1..], [])
    ensures Placed(live - {e.timer}, timers, called[1..], [])
  {
    hide Inserted;
    InsertedTimers(timers, e);
    assert called == [called[0]] + called[1..];
    assert called[0].timer in TimersOf(called);
  }

  // The timers left once some have run: one-shot timers are deleted.
  ghost function Kept(live: set<Timer>, ran: set<Timer>): set<Timer> { set t <- live | t.Repeat() || t !in ran }

  lemma KeptAll(live: set<Timer>)
    ensures Kept(live, {}) == live
  {
  }

  lemma KeptNext(live: set<Timer>, ran: set<Timer>, t: Timer)
    ensures Kept(live, ran + {t}) == if t.Repeat() then Kept(live, ran) else Kept(live, ran) - {t}
  {
  }

  lemma Addresses(s: seq<Entry>, live: set<Timer>, ever: set<Timer>)
    requires Held(s, live) && Stored(live, ever)
    ensures forall e <- s :: e.timer.address < UINTPTR_MAX
  {
    assert forall e <- s :: e.timer in live;
  }

  // Timers a callback adds: new ones, stored where no other is.
  datatype Addition = Addition(timer: Timer, clock: Time)

  ghost predicate Addable(adds: seq<Addition>, live: set<Timer>, ever: set<Timer>) {
    && (forall i :: 0 <= i < |adds| ==> adds[i].timer !in ever && adds[i].timer.address < UINTPTR_MAX)
    && (forall i, t :: 0 <= i < |adds| && t in live ==> t.address != adds[i].timer.address)
    && (forall i, j :: 0 <= i < j < |adds| ==>
          adds[i].timer != adds[j].timer && adds[i].timer.address != adds[j].timer.address)
  }

  // What becomes of a timer that ran: one that repeats is put back for its interval of seconds
  // later, another is deleted.
  ghost predicate Settled(t: Timer, restartAt: Time, timers: seq<Entry>, live: set<Timer>) {
    if t.interval > 0.0 then Entry(restartAt + (t.interval * 1_000_000.0).Floor, t) in timers else t !in live
  }

  function RunsOf(s: seq<Entry>, now: Time): (r: seq<Run>)
    ensures |r| == |s| && forall i :: 0 <= i < |s| ==> r[i] == Run(s[i].timer, s[i].when, now)
  {
    seq(|s|, i requires 0 <= i < |s| => Run(s[i].timer, s[i].when, now))
  }

  lemma RunsOfNext(s: seq<Entry>, t: seq<Entry>, now: Time)
    ensures s == [] ==> RunsOf(s, now) == []
    ensures t != [] ==> RunsOf(s + [t[0]], now) == RunsOf(s, now) + [Run(t[0].timer, t[0].when, now)]
  {
  }

  lemma AddableNext(adds: seq<Addition>, live: set<Timer>, ever: set<Timer>)
    requires Addable(adds, live, ever) && adds != []
    ensures var t := adds[0].timer;
            && t !in ever && t.address < UINTPTR_MAX && (forall u <- live :: u.address != t.address)
            && Addable(adds[1..], live + {t}, ever + {t})
  {
  }

  class TimerQueue {
    var timers: seq<Entry>
    var alarm: Alarm
    var callingExpiredTimers: bool
    // the local vector of HandleRead: what has been called and what is still to be called
    var called: seq<Entry>
    var due: seq<Entry>
    var now: Time

    // timers not deleted, and timers ever given to the queue
    ghost var live: set<Timer>
    ghost var ever: set<Timer>
    ghost var log: seq<Run>

    ghost predicate Valid()
      reads this, live
    {
      && Sorted(timers) && Held(timers, live) && Held(called, live) && Held(due, live)
      && Placed(live, timers, called, due) && Stored(live, ever)
      && Logged(log, ever, TimersOf(timers) + TimersOf(due))
      && (forall i :: 0 <= i < |due| ==> due[i].when <= now)
    }

    // At rest this is what makes the earliest timer run: the alarm is set for its expiration,
    // no sooner and at most the least delay later, or has gone off for it.
    ghost predicate AlarmSet()
      reads `timers, `alarm
    {
      timers != [] ==>
        match alarm
        case Off => false
        case Armed(at, target, setAt) => target == timers[0].when && at == setAt + Delay(target, setAt)
        case Fired(target) => target == timers[0].when
    }

    constructor ()
      ensures Valid() && AlarmSet() && timers == called == due == [] && log == [] && ever == {}
    {
      timers, called, due, alarm, callingExpiredTimers, now := [], [], [], Off, false, 0;
      live, ever, log := {}, {}, [];
    }

    // ---- the alarm ----

    method ResetTimerfd(expiration: Time, clock: Time)
      modifies `alarm
      ensures alarm == Armed(clock + Delay(expiration, clock), expiration, clock)
      ensures alarm.at == if expiration < clock + 100 then clock + 100 else expiration
    {
      var microSecondDif := expiration - clock;
      if microSecondDif < MIN_DELAY {
        microSecondDif := MIN_DELAY;
      }
      alarm := Armed(clock + microSecondDif, expiration, clock);
    }

    // The alarm goes off once its time has come; the descriptor stays readable.
    method Fire(clock: Time)
      requires Valid() && alarm.Armed? && alarm.at <= clock
      modifies `alarm
      ensures Valid() && alarm == Fired(old(alarm).target)
      ensures old(AlarmSet()) ==> AlarmSet()
      ensures old(AlarmSet()) && timers != [] ==> timers[0].when <= clock
    {
      alarm := Fired(alarm.target);
    }

    // ---- adding ----

    method Insert(timer: Timer) returns (earliestChanged: bool)
      modifies `timers
      ensures timers == Inserted(old(timers), Entry(timer.expiration, timer))
      ensures earliestChanged <==> old(timers) == [] || timer.expiration < old(timers)[0].when
    {
      earliestChanged := timers == [] || timer.expiration < timers[0].when;
      timers := Inserted(timers, Entry(timer.expiration, timer));
    }

    // A newly allocated timer, at an address no live timer has.  The alarm is set for a new
    // earliest timer, which also repairs an alarm that had been lost; for another it is left.
    method AddTimerInLoop(timer: Timer, clock: Time)
      requires Valid() && timer !in ever && timer.address < UINTPTR_MAX
      requires forall t <- live :: t.address != timer.address
      modifies `timers, `alarm, `live, `ever
      ensures Valid() && live == old(live) + {timer} && ever == old(ever) + {timer}
      ensures timers == Inserted(old(timers), Entry(timer.expiration, timer))
      ensures var earliest := old(timers) == [] || timer.expiration < old(timers)[0].when;
              && alarm == (if earliest then Armed(clock + Delay(timer.expiration, clock), timer.expiration, clock)
                           else old(alarm))
              && (AlarmSet() <==> old(AlarmSet()) || earliest)
    {
      hide Inserted, Placed, Stored, Logged, Held, Sorted, TimersOf, Delay;
      ghost var e, toRun := Entry(timer.expiration, timer), TimersOf(timers) + TimersOf(due);
      NewTimer(timer);
      HeldAdd(timers, live, e);
      HeldMore(called, live, timer);
      HeldMore(due, live, timer);
      InsertedOnce(timers, live, e);
      PlacedAdd(live, timers, called, due, e);
      StoredAdd(live, ever, timer);
      LoggedAdd(log, ever, toRun, timer);
      InsertedTimers(timers, e);
      InsertedFirst(timers, e);
      live := live + {timer};
      ever := ever + {timer};
      var earliestChanged := Insert(timer);
      if earliestChanged {
        ResetTimerfd(timer.expiration, clock);
      }
      assert TimersOf(timers) + TimersOf(due) == toRun + {timer};
    }

    // ---- the alarm's callback ----

    // Exactly the timers due at the time leave the set, in ascending order.
    method GetExpired(clock: Time) returns (expired: seq<Entry>)
      requires Sorted(timers) && Held(timers, live) && Stored(live, ever)
      modifies `timers
      ensures old(timers) == expired + timers && |expired| == LowerBound(old(timers), clock, UINTPTR_MAX)
      ensures forall i :: 0 <= i < |expired| ==> expired[i].when <= clock
      ensures forall i :: 0 <= i < |timers| ==> clock < timers[i].when
    {
      hide Sorted, Held, Stored, LowerBound;
      Addresses(timers, live, ever);
      DueSplit(timers, clock);
      var end := LowerBound(timers, clock, UINTPTR_MAX);
      expired := timers[..end];
      timers := timers[end..];
    }

    // The first part of HandleRead: read the descriptor and take what is due.
    method BeginHandleRead(clock: Time)
      requires Valid() && Resting(called, due)
      modifies `timers, `alarm, `due, `now, `callingExpiredTimers
      ensures Valid() && now == clock && called == []
      ensures old(timers) == due + timers && |due| == LowerBound(old(timers), clock, UINTPTR_MAX)
      ensures forall i :: 0 <= i < |timers| ==> clock < timers[i].when
      ensures alarm == if old(alarm).Fired? then Off else old(alarm)
    {
      hide Placed, Stored, Logged, Sorted, TimersOf, LowerBound;
      now := clock;
      if alarm.Fired? {
        alarm := Off;
      }
      ghost var all := timers;
      due := GetExpired(now);
      callingExpiredTimers := true;
      SplitKeeps(all, |due|);
    }

    lemma SplitKeeps(all: seq<Entry>, k: nat)
      requires k <= |all| && timers == all[k..] && due == all[..k] && called == []
      requires Sorted(all) && Held(all, live) && Placed(live, all, [], []) &&
        Logged(log, ever, TimersOf(all) + TimersOf([]))
      ensures Sorted(timers) && Held(timers, live) && Held(due, live) && Placed(live, timers, [], due)
      ensures Logged(log, ever, TimersOf(timers) + TimersOf(due))
    {
    }

    // The next due timer's callback is called.
    method RunNext() returns (e: Entry)
      requires Valid() && due != []
      modifies `called, `due, `log
      ensures Valid() && e == old(due)[0] && due == old(due)[1..] && called == old(called) + [e]
      ensures log == old(log) + [Run(e.timer, e.when, now)] && e.when <= now
    {
      hide Placed, Stored, Logged, Sorted, TimersOf;
      e := due[0];
      ghost var toRun := TimersOf(timers) + TimersOf(due);
      PlacedRun(live, timers, called, due);
      IsToRun(e);
      LoggedRun(log, ever, toRun, Run(e.timer, e.when, now));
      due := due[1..];
      called := called + [e];
      log := log + [Run(e.timer, e.when, now)];
    }

    lemma IsToRun(e: Entry)
      requires Valid() && e in due
      ensures e.timer in TimersOf(timers) + TimersOf(due) && e.timer in ever
    {
    }

    lemma CalledApart()
      requires Valid() && called != []
      ensures var t := called[0].timer;
              t in live && t in ever && t !in TimersOf(timers) && t !in TimersOf(called[1..])
    {
    }

    // One turn of the loop in Reset.
    method ResetOne(restartAt: Time, clock: Time)
      requires Valid() && due == [] && called != []
      modifies `timers, `called, `alarm, `live, called[0].timer
      ensures Valid() && called == old(called)[1..] && AlarmSet()
      ensures var t := old(called)[0].timer;
              if t.Repeat() then live == old(live) && timers == Inserted(old(timers), Entry(restartAt + t.Delta(), t))
              else live == old(live) - {t} && timers == old(timers)
    {
      hide Inserted, Placed, Stored, Logged, Sorted, TimersOf, Delay;
      var timer := called[0].timer;
      var e := Entry(restartAt + timer.Delta(), timer);
      ghost var others, toRun := live - {timer}, TimersOf(timers) + TimersOf(due);
      CalledApart();
      PlacedBack(live, timers, called, e);
      HeldLess(timers, live, timer);
      HeldLess(called[1..], live, timer);
      StoredLess(live, ever, timer);
      called := called[1..];
      if timer.Repeat() {
        timer.Restart(restartAt);
        InsertedOnce(timers, others, e);
        HeldAdd(timers, others, e);
        HeldMore(called, others, timer);
        InsertedTimers(timers, e);
        LoggedMore(log, ever, toRun, timer);
        var _ := Insert(timer);
        assert TimersOf(timers) + TimersOf(due) == toRun + {timer};
        assert others + {timer} == live;
      } else {
        live := others;
      }
      if timers != [] {
        ResetTimerfd(timers[0].timer.expiration, clock);
      }
    }

    // Reset: the timers that ran are put back or deleted, each time setting the alarm anew.
    method Reset(restarts: seq<Time>, clocks: seq<Time>)
      requires Valid() && due == [] && |restarts| == |clocks| == |called|
      modifies `timers, `called, `alarm, `live, set e <- called :: e.timer
      ensures Valid() && called == []
      ensures old(called) != [] ==> AlarmSet()
      ensures old(called) == [] ==> timers == old(timers) && alarm == old(alarm)
      ensures live == Kept(old(live), TimersOf(old(called)))
      ensures forall i :: 0 <= i < |restarts| ==>
        Settled(old(called)[i].timer, restarts[i], timers, live)
      ensures forall e <- old(timers) :: e in timers
    {
      TimersOfNone();
      hide Inserted, Placed, Stored, Logged, Sorted, TimersOf, Held, Kept;
      ghost var all := called;
      var i := 0;
      KeptAll(live);
      assert all[..0] == [];
      while called != []
        invariant Valid() && 0 <= i <= |all| && called == all[i..]
        invariant i > 0 ==> AlarmSet()
        invariant i == 0 ==> timers == old(timers) && alarm == old(alarm)
        invariant live == Kept(old(live), TimersOf(all[..i]))
        invariant forall k :: 0 <= k < i && all[k].timer.Repeat() ==>
          Entry(restarts[k] + all[k].timer.Delta(), all[k].timer) in timers
        invariant forall e <- old(timers) :: e in timers
        decreases |called|
      {
        ghost var before, t := timers, called[0].timer;
        ghost var e := Entry(restarts[i] + t.Delta(), t);
        forall x
          ensures x in Inserted(before, e) <==> x == e || x in before
        {
          InsertedHas(before, e, x);
        }
        ResetOne(restarts[i], clocks[i]);
        i := i + 1;
        TimersOfNext(all, i - 1);
        KeptNext(old(live), TimersOf(all[..i - 1]), t);
      }
      assert all[..i] == all;
      Deleted(all, old(live));
    }

    // A one-shot timer among those that ran is not kept.
    lemma Deleted(ran: seq<Entry>, before: set<Timer>)
      ensures forall i :: 0 <= i < |ran| && !ran[i].timer.Repeat() ==> ran[i].timer !in Kept(before, TimersOf(ran))
    {
      forall i | 0 <= i < |ran|
        ensures ran[i].timer in TimersOf(ran)
      {
        assert ran[i] in ran;
      }
    }

    // The whole of HandleRead, the callbacks adding timers of their own in any order.  The
    // alarm is right afterwards exactly if no timer was waiting, or one was due, or it had been
    // right and had not gone off: when it had, the descriptor was read, nothing ran, and
    // nothing set the alarm again.
    method HandleRead(clock: Time, adds: seq<Addition>, restarts: seq<Time>, clocks: seq<Time>)
      requires Valid() && Resting(called, due) && Addable(adds, live, ever)
      requires |restarts| == |clocks| == LowerBound(timers, clock, UINTPTR_MAX)
      requires adds != [] ==> timers != [] && timers[0].when <= clock
      modifies this, live
      ensures Valid() && Resting(called, due)
      ensures log == old(log) + RunsOf(old(timers)[..|restarts|], clock)
      ensures forall i :: 0 <= i < |old(timers)| ==> (old(timers)[i].when <= clock <==> i < |restarts|)
      ensures forall i :: 0 <= i < |restarts| ==>
        Settled(old(timers)[i].timer, restarts[i], timers, live)
      ensures AlarmSet() <==>
        old(timers) == [] || old(timers)[0].when <= clock || (old(AlarmSet()) && !old(alarm).Fired?)
      ensures |restarts| == 0 ==> timers == old(timers) && alarm == if old(alarm).Fired? then Off else old(alarm)
    {
      hide Placed, Stored, Logged, Sorted, TimersOf, LowerBound, Held, Addable, Delay, Inserted, Settled;
      ghost var all := timers;
      BeginHandleRead(clock);
      ghost var batch := due;
      assert batch == all[..|restarts|];
      AreLive();
      CallExpired(adds);
      callingExpiredTimers := false;
      Reset(restarts, clocks);
    }

    lemma AreLive()
      requires Valid()
      ensures forall e <- due :: e.timer in live
    {
    }

    // The loop over the expired timers, with whatever their callbacks add.
    method CallExpired(adds: seq<Addition>)
      requires Valid() && called == [] && Addable(adds, live, ever) && (due == [] ==> adds == [])
      modifies `timers, `alarm, `called, `due, `live, `ever, `log
      ensures Valid() && due == [] && called == old(due)
      ensures log == old(log) + RunsOf(old(due), now)
      ensures adds == [] ==> timers == old(timers) && alarm == old(alarm)
    {
      hide Inserted, Placed, Stored, Logged, Sorted, TimersOf, Held, RunsOf, Addable;
      ghost var batch := due;
      assert adds[0..] == adds;
      RunsOfNext([], due, now);
      var k := 0;
      while due != [] || k < |adds|
        invariant Valid() && batch == called + due && 0 <= k <= |adds|
        invariant Addable(adds[k..], live, ever)
        invariant log == old(log) + RunsOf(called, now)
        invariant k == 0 ==> timers == old(timers) && alarm == old(alarm)
        decreases |due| + |adds| - k
      {
        var more: bool := *;
        if due != [] && (k == |adds| || more) {
          RunsOfNext(called, due, now);
          var _ := RunNext();
        } else {
          AddableNext(adds[k..], live, ever);
          assert adds[k..][1..] == adds[k + 1..] && adds[k..][0] == adds[k];
          AddTimerInLoop(adds[k].timer, adds[k].clock);
          k := k + 1;
        }
      }
    }

    // At any moment of any run: nothing has run early, and a one-shot timer not twice.
    lemma RunsRight(i: nat, j: nat)
      requires Valid() && i < j < |log|
      ensures log[i].when <= log[i].now && log[j].when <= log[j].now
      ensures !log[i].timer.Repeat() ==> log[i].timer != log[j].timer
    {
    }

    lemma NewTimer(t: Timer)
      requires Valid() && t !in ever
      ensures t !in live
    {
    }
  }

  // Two clocks are involved: the alarm goes off by one, and what is due is decided by another.
  // When the second is behind by one microsecond, the timer waits and nothing will wake it.
  method LostAlarm() returns (q: TimerQueue)
    ensures q.Valid() && q.timers != [] && q.alarm == Off && !q.AlarmSet() && q.log == []
  {
    hide TimerQueue.Valid, Placed, Stored, Logged, Sorted, TimersOf, Held, Inserted, Addable;
    q := Waiting();
    q.HandleRead(999, [], [], []);
  }

  // A timer expiring at 1000 is added at 0; at 1000 the alarm goes off.
  method Waiting() returns (q: TimerQueue)
    ensures q.Valid() && Resting(q.called, q.due) && q.alarm == Fired(1000) && fresh(q) && fresh(q.live) && q.log == []
    ensures |q.timers| == 1 && q.timers[0].when == 1000 && q.AlarmSet()
    ensures LowerBound(q.timers, 999, UINTPTR_MAX) == 0 && Addable([], q.live, q.ever)
  {
    q := new TimerQueue();
    var t := new Timer(16, 1000, 0.0);
    q.AddTimerInLoop(t, 0);
    q.Fire(1000);
  }

  lemma HeldMore(s: seq<Entry>, live: set<Timer>, t: Timer)
    requires Held(s, live)
    ensures Held(s, live + {t})
  {
  }
}
