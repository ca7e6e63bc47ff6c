// A channel: one descriptor, the events its owner is interested in, and what the poller
// keeps with it.
module Channels {
  // the bits of poll and epoll
  type Mask = bv16

  const NONE_EVENT: Mask := 0
  const READ_EVENT: Mask := 3
  const WRITE_EVENT: Mask := 4

  datatype Change = EnableReading | DisableReading | EnableWriting | DisableWriting | DisableAll

  predicate Reading(m: Mask) { m & READ_EVENT != 0 }

  predicate Writing(m: Mask) { m & WRITE_EVENT != 0 }

  function Changed(c: Change, m: Mask): Mask {
    match c
    case EnableReading => m | READ_EVENT
    case DisableReading => m & !READ_EVENT
    case EnableWriting => m | WRITE_EVENT
    case DisableWriting => m & !WRITE_EVENT
    case DisableAll => m & NONE_EVENT
  }

  // Only these occur: each change starts from them and leads to them.
  predicate GoodMask(m: Mask) { m == NONE_EVENT || m == READ_EVENT || m == WRITE_EVENT || m == 7 }

  // What a change makes of the bits: reading is input (1) and priority data (2), writing is
  // output (4), and no other bit is ever asked for.
  ghost predicate Turned(c: Change, before: Mask, after: Mask) {
    && (after & 1 != 0 <==> c.EnableReading? || (before & 1 != 0 && !c.DisableReading? && !c.DisableAll?))
    && (after & 2 != 0 <==> c.EnableReading? || (before & 2 != 0 && !c.DisableReading? && !c.DisableAll?))
    && (after & 4 != 0 <==> c.EnableWriting? || (before & 4 != 0 && !c.DisableWriting? && !c.DisableAll?))
    && after <= 7
  }

  // A change does what it is called and leaves the other interest alone.
  lemma ChangeDoes(c: Change, m: Mask)
    requires GoodMask(m)
    ensures Turned(c, m, Changed(c, m))
    ensures GoodMask(Changed(c, m))
    ensures Reading(Changed(c, m)) <==> c == EnableReading || (Reading(m) && c != DisableReading && c != DisableAll)
    ensures Writing(Changed(c, m)) <==> c == EnableWriting || (Writing(m) && c != DisableWriting && c != DisableAll)
    ensures Changed(c, m) == NONE_EVENT <==> !Reading(Changed(c, m)) && !Writing(Changed(c, m))
  {
  }

  // ---- what the system watches ----

  datatype Backend = EpollBackend | PollBackend

  // What a poller has been told of a channel: nothing; that it has interest; or that it has
  // none, so many times in a row, the registration itself being the first of them or not.
  datatype Told = Absent | Active | Quiet(times: nat, fromStart: bool)

  // An update with or without interest.
  function Tell(t: Told, none: bool): Told {
    if !none then Active
    else
      match t
      case Absent => Quiet(1, true)
      case Active => Quiet(1, false)
      case Quiet(k, fromStart) => Quiet(k + 1, fromStart)
  }

  // Whether the system watches the descriptor at all: for one it watches, error and hang-up
  // are reported whatever the mask.  Epoll deletes a descriptor without interest and adds it
  // again at the next such update; poll ignores it from then on.
  predicate Watches(b: Backend, t: Told) {
    match t
    case Absent => false
    case Active => true
    case Quiet(k, fromStart) => if b == PollBackend then fromStart && k == 1 else fromStart == (k % 2 == 1)
  }

  // The two agree except on a descriptor that was without interest at several updates in a
  // row, the last of which had epoll add it again.
  lemma BackendsAgreeIff(t: Told)
    requires t.Quiet? ==> 1 <= t.times
    ensures (Watches(EpollBackend, t) <==> Watches(PollBackend, t)) <==>
            (t.Quiet? ==> t.times == 1 || (t.fromStart <==> t.times % 2 == 0))
  {
  }

  // What is known of a registered channel: the mask its owner last asked for, and all that
  // the poller was told.
  datatype Asked = Asked(mask: Mask, told: Told) {
    ghost predicate Ok() {
      (mask == NONE_EVENT <==> told.Quiet?) && !told.Absent? && (told.Quiet? ==> 1 <= told.times)
    }
  }

  ghost function ToldOf(asks: map<nat, Asked>, fd: nat): Told { if fd in asks then asks[fd].told else Absent }

  ghost function Ask(asks: map<nat, Asked>, fd: nat, mask: Mask): Asked {
    Asked(mask, Tell(ToldOf(asks, fd), mask == NONE_EVENT))
  }

  lemma AskOk(asks: map<nat, Asked>, fd: nat, mask: Mask)
    requires fd in asks ==> asks[fd].Ok()
    ensures var a, t := Ask(asks, fd, mask), ToldOf(asks, fd);
            && a.Ok() && a.mask == mask
            && (Watches(EpollBackend, a.told) <==> mask != NONE_EVENT || !Watches(EpollBackend, t))
            && (Watches(PollBackend, a.told) <==> mask != NONE_EVENT || fd !in asks)
  {
  }

  // What an owner may do with one of its channels.
  datatype Step = Change(k: nat, change: Change) | Remove(k: nat)

  class Channel {
    const fd: nat
    var events: Mask
    var revents: Mask
    var index: int

    constructor (d: nat)
      ensures fd == d && events == NONE_EVENT && index == -1
    {
      fd, events, revents, index := d, NONE_EVENT, NONE_EVENT, -1;
    }

    predicate IsNoneEvent()
      reads `events
    {
      events == NONE_EVENT
    }
  }
}
