// Timers, and the ordered set of pairs of an expiration and a timer.
module TimerOrder {
  // microseconds since the epoch
  type Time = int

  const UINTPTR_MAX: nat := 0xFFFF_FFFF_FFFF_FFFF

  class Timer {
    // where the timer is stored; no object is stored at the very last address
    const address: nat
    const interval: real
    var expiration: Time

    constructor (at: nat, when: Time, seconds: real)
      ensures address == at && expiration == when && interval == seconds
    {
      address, expiration, interval := at, when, seconds;
    }

    predicate Repeat() { interval > 0.0 }

    // Seconds to whole microseconds.
    function Delta(): int { (interval * 1_000_000.0).Floor }

    // An interval of so many whole seconds is as many million microseconds, and any other lies
    // less than one microsecond above its whole ones.
    lemma DeltaIs(n: int)
      ensures interval == n as real ==> Delta() == n * 1_000_000
      ensures Delta() as real <= interval * 1_000_000.0 < Delta() as real + 1.0
    {
      assert interval == n as real ==> interval * 1_000_000.0 == (n * 1_000_000) as real;
    }

    method Restart(now: Time)
      modifies this
      ensures expiration == if interval > 0.0 then now + (interval * 1_000_000.0).Floor else 0
    {
      if Repeat() {
        expiration := now + Delta();
      } else {
        expiration := 0;
      }
    }
  }

  datatype Entry = Entry(when: Time, timer: Timer)

  // Pairs are compared by time and then by address.
  predicate Less(when: Time, address: nat, when2: Time, address2: nat) {
    when < when2 || (when == when2 && address < address2)
  }

  predicate Before(a: Entry, b: Entry) { Less(a.when, a.timer.address, b.when, b.timer.address) }

  ghost predicate Sorted(s: seq<Entry>) { forall i, j :: 0 <= i < j < |s| ==> Before(s[i], s[j]) }

  ghost function TimersOf(s: seq<Entry>): set<Timer> { set e <- s :: e.timer }

  // ---- insertion ----

  function Inserted(s: seq<Entry>, e: Entry): (r: seq<Entry>)
    ensures |r| == |s| + 1
  {
    if s == [] || Before(e, s[0]) then [e] + s else [s[0]] + Inserted(s[1..], e)
  }

  lemma {:induction false} InsertedHas(s: seq<Entry>, e: Entry, x: Entry)
    ensures x in Inserted(s, e) <==> x == e || x in s
  {
    if s != [] && !Before(e, s[0]) {
      InsertedHas(s[1..], e, x);
      assert s == [s[0]] + s[1..];
    }
  }

  lemma {:induction false} InsertedSorted(s: seq<Entry>, e: Entry)
    requires Sorted(s) && forall x <- s :: x.when != e.when || x.timer.address != e.timer.address
    ensures Sorted(Inserted(s, e))
  {
    if s != [] && !Before(e, s[0]) {
      assert s[0] in s;
      assert Sorted(s[1..]) && forall x <- s[1..] :: x in s;
      InsertedSorted(s[1..], e);
      var r := Inserted(s[1..], e);
      forall j | 0 <= j < |r|
        ensures Before(s[0], r[j])
      {
        InsertedHas(s[1..], e, r[j]);
        assert r[j] in r;
        if r[j] != e {
          var k :| 0 <= k < |s[1..]| && s[1..][k] == r[j];
          assert s[k + 1] == r[j];
        }
      }
    }
  }

  lemma InsertedTimers(s: seq<Entry>, e: Entry)
    ensures TimersOf(Inserted(s, e)) == TimersOf(s) + {e.timer}
  {
    forall x | x in Inserted(s, e)
      ensures x.timer in TimersOf(s) + {e.timer}
    {
      InsertedHas(s, e, x);
    }
    InsertedHas(s, e, e);
    forall x | x in s
      ensures x.timer in TimersOf(Inserted(s, e))
    {
      InsertedHas(s, e, x);
    }
  }

  // The first expiration changes only to an earlier one, and then it is the new one.
  lemma InsertedFirst(s: seq<Entry>, e: Entry)
    ensures Inserted(s, e)[0].when == if s == [] || e.when < s[0].when then e.when else s[0].when
  {
  }

  // ---- splitting ----

  // The position of the first pair that is not less than the given one.
  function LowerBound(s: seq<Entry>, when: Time, address: nat): (k: nat)
    ensures k <= |s|
  {
    if s != [] && Less(s[0].when, s[0].timer.address, when, address) then 1 + LowerBound(s[1..], when, address) else 0
  }

  // Searching for a pair that no stored timer can follow at its time splits the set into
  // what is due and what is not.
  lemma {:induction false} DueSplit(s: seq<Entry>, now: Time)
    requires Sorted(s) && forall e <- s :: e.timer.address < UINTPTR_MAX
    ensures var k := LowerBound(s, now, UINTPTR_MAX);
            && (forall i :: 0 <= i < k ==> s[i].when <= now)
            && (forall i :: k <= i < |s| ==> now < s[i].when)
  {
    if s != [] {
      assert s[0] in s;
      if s[0].when <= now {
        assert Sorted(s[1..]) && forall e <- s[1..] :: e in s;
        DueSplit(s[1..], now);
        var k := LowerBound(s[1..], now, UINTPTR_MAX);
        forall i | 0 < i < |s|
          ensures i < k + 1 ==> s[i].when <= now
          ensures k + 1 <= i ==> now < s[i].when
        {
          assert s[i] == s[1..][i - 1];
        }
      }
    }
  }

  // ---- the alarm's delay ----

  const MIN_DELAY := 100
  const MICROS := 1_000_000

  function Delay(expiration: Time, now: Time): (d: int)
    ensures 100 <= d && expiration <= now + d
    ensures d == 100 || now + d == expiration
  {
    if expiration - now < MIN_DELAY then MIN_DELAY else expiration - now
  }

  // The delay as seconds and nanoseconds: both in range, never both zero (which would turn
  // the alarm off), and together the same length of time.
  lemma TimespecExact(expiration: Time, now: Time)
    ensures var d := Delay(expiration, now); var sec, nsec := d / MICROS, d % MICROS * 1000;
            && 0 <= sec && 0 <= nsec < 1_000_000_000 && (sec != 0 || nsec != 0)
            && sec * 1_000_000_000 + nsec == d * 1000
  {
  }
}
