// The poll(2) backend: an array of slots, a map from descriptors to channels, and in each
// channel the number of its slot.  A slot whose channel has no interest holds the
// complement of its descriptor, which poll ignores.
module PollSlots {
  import opened Channels

  datatype PollFd = PollFd(fd: int, events: Mask, revents: Mask)

  function Ignored(fd: nat): int { -1 - fd }

  // The descriptor a slot belongs to, ignored or not.
  function Owner(p: PollFd): nat { if p.fd < 0 then -1 - p.fd else p.fd }

  // The slots, the slot number each registered descriptor's channel holds, and what the
  // poller was told of each.
  datatype Table = Table(slots: seq<PollFd>, index: map<nat, int>, asks: map<nat, Asked>) {
    // Registered descriptors and slots match one to one.
    ghost predicate Bijection() {
      && (forall fd <- index :: 0 <= index[fd] < |slots| && Owner(slots[index[fd]]) == fd)
      && (forall i {:trigger slots[i]} :: 0 <= i < |slots| ==> Owner(slots[i]) in index && index[Owner(slots[i])] == i)
    }

    // A slot has its owner's mask, and is ignored when poll is not to watch the owner.
    ghost predicate SlotOk(p: PollFd) {
      && Owner(p) in asks && asks[Owner(p)].Ok() && p.events == asks[Owner(p)].mask
      && (p.fd < 0 <==> !Watches(PollBackend, asks[Owner(p)].told))
    }

    ghost predicate Ok() {
      Bijection() && index.Keys == asks.Keys && forall i :: 0 <= i < |slots| ==> SlotOk(slots[i])
    }

    ghost function Registered(fd: nat, mask: Mask): Table {
      Table(slots + [PollFd(fd, mask, NONE_EVENT)], index[fd := |slots|], asks[fd := Ask(asks, fd, mask)])
    }

    ghost function Updated(fd: nat, mask: Mask): Table
      requires fd in index && 0 <= index[fd] < |slots|
    {
      Table(slots[index[fd] := PollFd(if mask == NONE_EVENT then Ignored(fd) else fd, mask, NONE_EVENT)],
            index, asks[fd := Ask(asks, fd, mask)])
    }

    // The last slot moves into the gap.
    ghost function Removed(fd: nat): Table
      requires fd in index && 0 <= index[fd] < |slots|
    {
      var last := slots[|slots| - 1];
      Table(slots[index[fd] := last][..|slots| - 1], index[Owner(last) := index[fd]] - {fd}, asks - {fd})
    }

    lemma RegisteredOk(fd: nat, mask: Mask)
      requires Ok() && fd !in index
      ensures Registered(fd, mask).Ok()
    {
      AskOk(asks, fd, mask);
      hide Watches, Ask, Asked.Ok;
      var t := Registered(fd, mask);
      forall i | 0 <= i < |t.slots|
        ensures Owner(t.slots[i]) in t.index && t.index[Owner(t.slots[i])] == i && t.SlotOk(t.slots[i])
      {
        if i < |slots| { assert SlotOk(slots[i]); }
      }
    }

    lemma UpdatedOk(fd: nat, mask: Mask)
      requires Ok() && fd in index
      ensures Updated(fd, mask).Ok()
    {
      assert SlotOk(slots[index[fd]]);
      AskOk(asks, fd, mask);
      hide Watches, Ask, Asked.Ok;
      var t := Updated(fd, mask);
      assert Owner(t.slots[index[fd]]) == fd;
      forall i | 0 <= i < |t.slots|
        ensures Owner(t.slots[i]) in t.index && t.index[Owner(t.slots[i])] == i && t.SlotOk(t.slots[i])
      {
        if i != index[fd] { assert SlotOk(slots[i]); }
      }
    }

    lemma RemovedOk(fd: nat)
      requires Ok() && fd in index
      ensures Removed(fd).Ok()
    {
      RemovedBijection(fd);
      hide Watches, Asked.Ok, Bijection;
      var t := Removed(fd);
      forall i | 0 <= i < |t.slots|
        ensures t.SlotOk(t.slots[i])
      {
        assert SlotOk(slots[i]) && SlotOk(slots[|slots| - 1]);
        assert Owner(t.slots[i]) != fd;
      }
    }

    // The other slots stay in place, but for the last one, which takes the place that is free.
    lemma RemovedBijection(fd: nat)
      requires Bijection() && fd in index
      ensures Removed(fd).Bijection() && 0 <= index[fd] < |slots| && Removed(fd).index.Keys == index.Keys - {fd}
      ensures |Removed(fd).slots| == |slots| - 1
      ensures forall i :: 0 <= i < |slots| - 1 ==>
        Removed(fd).slots[i] == slots[if i == index[fd] then |slots| - 1 else i] && Owner(Removed(fd).slots[i]) != fd
    {
    }

    lemma ReportedOk(reported: seq<PollFd>)
      requires Ok() && |reported| == |slots|
      requires forall i :: 0 <= i < |slots| ==> reported[i] == slots[i].(revents := reported[i].revents)
      ensures this.(slots := reported).Ok()
    {
      hide Watches, Asked.Ok;
      var t := this.(slots := reported);
      forall i | 0 <= i < |slots|
        ensures Owner(t.slots[i]) in index && index[Owner(t.slots[i])] == i && t.SlotOk(t.slots[i])
      {
        assert SlotOk(slots[i]);
      }
    }

    // Whether some slot has poll watch the descriptor at all, and for which events beside
    // error and hang-up.
    ghost predicate Watched(fd: nat) { exists i :: 0 <= i < |slots| && slots[i].fd == fd }

    ghost function Effective(fd: nat): Mask {
      if Watched(fd) then
        var i :| 0 <= i < |slots| && slots[i].fd == fd;
        slots[i].events
      else NONE_EVENT
    }

    lemma EffectiveIsInterest(fd: nat)
      requires Ok()
      ensures Effective(fd) == if fd in asks then asks[fd].mask else NONE_EVENT
    {
      if Watched(fd) {
        var i :| 0 <= i < |slots| && slots[i].fd == fd && slots[i].events == Effective(fd);
        assert SlotOk(slots[i]);
      } else if fd in asks {
        assert SlotOk(slots[index[fd]]);
      }
    }

    // A descriptor is watched exactly when it has interest, or was registered without and
    // left alone since.
    lemma WatchedIff(fd: nat)
      requires Ok()
      ensures Watched(fd) <==> Watches(PollBackend, ToldOf(asks, fd))
    {
      if Watched(fd) {
        var i :| 0 <= i < |slots| && slots[i].fd == fd;
        assert SlotOk(slots[i]);
      } else if fd in asks {
        assert SlotOk(slots[index[fd]]);
      }
    }

    // The slot of a registered descriptor without interest is ignored exactly when the
    // registration was not itself without interest and then left alone.
    lemma IgnoredIff(fd: nat)
      requires Ok() && fd in asks && asks[fd].mask == NONE_EVENT
      ensures slots[index[fd]].fd == -1 - fd && slots[index[fd]].events == NONE_EVENT <==>
              asks[fd].told != Quiet(1, true)
    {
      assert SlotOk(slots[index[fd]]);
    }
  }

  // The slots as poll leaves them.
  function Reported(slots: seq<PollFd>, revents: seq<Mask>): (r: seq<PollFd>)
    requires |slots| == |revents|
    ensures |r| == |slots| && forall i :: 0 <= i < |r| ==> r[i] == slots[i].(revents := revents[i])
  {
    seq(|slots|, i requires 0 <= i < |slots| => slots[i].(revents := revents[i]))
  }

  // Swapping a slot with the last one and dropping the last is moving the last one there.
  lemma SwappedAway(slots: seq<PollFd>, i: nat)
    requires i < |slots|
    ensures var n := |slots| - 1;
            && slots[i := slots[n]][n := slots[i]][..n] == slots[i := slots[n]][..n]
            && (i == n ==> slots[i := slots[n]][..n] == slots[..i])
  {
  }

  // The descriptors of the slots the system flagged, in slot order.
  function Flagged(slots: seq<PollFd>): seq<nat> {
    if slots == [] then []
    else Flagged(slots[..|slots| - 1]) + if slots[|slots| - 1].revents != 0 then [Owner(slots[|slots| - 1])] else []
  }

  lemma FlaggedNone()
    ensures Flagged([]) == []
  {
  }

  lemma FlaggedNext(slots: seq<PollFd>, k: nat)
    requires k < |slots|
    ensures Flagged(slots[..k + 1]) == Flagged(slots[..k]) + if slots[k].revents != 0 then [Owner(slots[k])] else []
  {
    assert slots[..k + 1][..k] == slots[..k];
  }

  // Exactly the slots with reported events, each once.
  lemma FlaggedIs(slots: seq<PollFd>) returns (at: seq<nat>)
    ensures |at| == |Flagged(slots)|
    ensures forall k :: 0 <= k < |at| ==>
      at[k] < |slots| && slots[at[k]].revents != 0 && Flagged(slots)[k] == Owner(slots[at[k]])
    ensures forall j, k :: 0 <= j < k < |at| ==> at[j] < at[k]
    ensures forall i :: 0 <= i < |slots| && slots[i].revents != 0 ==> i in at
  {
    hide Flagged, Owner;
    FlaggedNone();
    assert slots[..0] == [] && slots[..|slots|] == slots;
    at := [];
    for n := 0 to |slots|
      invariant |at| == |Flagged(slots[..n])|
      invariant forall k :: 0 <= k < |at| ==>
        at[k] < n && slots[at[k]].revents != 0 && Flagged(slots[..n])[k] == Owner(slots[at[k]])
      invariant forall j, k :: 0 <= j < k < |at| ==> at[j] < at[k]
      invariant forall i :: 0 <= i < n && slots[i].revents != 0 ==> i in at
    {
      FlaggedNext(slots, n);
      if slots[n].revents != 0 {
        assert forall i :: i in at ==> i in at + [n];
        at := at + [n];
      }
    }
  }

  // A front part that already has them all is followed by no flagged slot.
  lemma {:induction false} FlaggedPrefix(slots: seq<PollFd>, k: nat)
    requires k <= |slots|
    ensures Flagged(slots[..k]) <= Flagged(slots)
    decreases |slots| - k
  {
    if k < |slots| {
      FlaggedNext(slots, k);
      FlaggedPrefix(slots, k + 1);
    } else {
      assert slots[..k] == slots;
    }
  }
}

module PollPollers {
  import opened Channels
  import opened PollSlots

  class PollPoller {
    var pollFds: seq<PollFd>
    var channels: map<nat, Channel>

    ghost var table: Table

    ghost predicate Registered(c: Channel)
      reads `channels
    {
      c.fd in channels && channels[c.fd] == c
    }

    ghost predicate Indexed()
      reads `channels, `table, set fd <- channels :: channels[fd]`index
    {
      forall fd <- channels :: channels[fd].fd == fd && fd in table.index && channels[fd].index == table.index[fd]
    }

    ghost predicate Valid()
      reads this, set fd <- channels :: channels[fd]`index
    {
      table.Ok() && pollFds == table.slots && channels.Keys == table.index.Keys && Indexed()
    }

    // Every channel's own interest has reached the poller.
    ghost predicate Settled()
      reads this, set fd <- channels :: channels[fd]`index, set fd <- channels :: channels[fd]`events
    {
      Valid() && channels.Keys == table.asks.Keys && forall fd <- channels :: channels[fd].events == table.asks[fd].mask
    }

    constructor ()
      ensures Settled() && table.asks == map[] && channels == map[]
    {
      pollFds, channels, table := [], map[], Table([], map[], map[]);
    }

    // ---- the operations ----

    method UpdateChannel(c: Channel)
      requires Valid() && (if c.index < 0 then c.fd !in channels else Registered(c))
      modifies this, c`index
      ensures Valid() && channels == old(channels)[c.fd := c] && 0 <= c.index < |pollFds|
      ensures table.asks == old(table.asks)[c.fd := Ask(old(table.asks), c.fd, c.events)]
      ensures old(c.index) < 0 ==> table == old(table).Registered(c.fd, c.events)
      ensures old(c.index) >= 0 ==> old(c.fd in table.index && table.index[c.fd] == c.index < |table.slots|)
      ensures old(c.index) >= 0 ==> table == old(table).Updated(c.fd, c.events)
      ensures pollFds == if old(c.index) < 0 then old(pollFds) + [PollFd(c.fd, c.events, 0)]
                         else old(pollFds)[c.index := PollFd(if c.events == 0 then -1 - c.fd else c.fd, c.events, 0)]
      ensures c.index == if old(c.index) < 0 then |old(pollFds)| else old(c.index)
    {
      hide Table.Ok, Table.Bijection, Table.SlotOk, Ask;
      if c.index < 0 {
        table.RegisteredOk(c.fd, c.events);
        pollFds := pollFds + [PollFd(c.fd, c.events, NONE_EVENT)];
        c.index := |pollFds| - 1;
        channels := channels[c.fd := c];
        table := table.Registered(c.fd, c.events);
      } else {
        IndexInRange(c);
        table.UpdatedOk(c.fd, c.events);
        var pfd := PollFd(c.fd, c.events, NONE_EVENT);
        if c.IsNoneEvent() {
          pfd := pfd.(fd := Ignored(c.fd));
        }
        pollFds := pollFds[c.index := pfd];
        table := table.Updated(c.fd, c.events);
        assert channels == channels[c.fd := c];
      }
    }

    lemma IndexInRange(c: Channel)
      requires Valid() && Registered(c)
      ensures c.fd in table.index && table.index[c.fd] == c.index
      ensures 0 <= c.index < |pollFds| && Owner(pollFds[c.index]) == c.fd
    {
    }

    lemma SlotOwner(i: nat)
      requires Valid() && i < |pollFds|
      ensures Owner(pollFds[i]) in channels && channels[Owner(pollFds[i])].index == i
    {
    }

    // Removing asks that the owner has no interest left, and that the slot is ignored.
    method RemoveChannel(c: Channel)
      requires Valid() && Registered(c) && c.IsNoneEvent() && pollFds[c.index].fd == Ignored(c.fd)
      modifies this, set fd <- channels :: channels[fd]`index
      ensures Valid() && channels == old(channels) - {c.fd} && table.asks == old(table.asks) - {c.fd}
      ensures old(c.fd in table.index && 0 <= table.index[c.fd] < |table.slots|) && table == old(table).Removed(c.fd)
    {
      hide Table.Ok, Table.Bijection, Table.SlotOk, Ask;
      IndexInRange(c);
      var idx := c.index;
      SlotOwner(|pollFds| - 1);
      SwappedAway(pollFds, idx);
      table.RemovedOk(c.fd);
      table := table.Removed(c.fd);
      channels := channels - {c.fd};
      assert channels.Keys == table.index.Keys;
      if idx == |pollFds| - 1 {
        pollFds := pollFds[..idx];
      } else {
        var channelAtEnd := pollFds[|pollFds| - 1].fd;
        pollFds := pollFds[idx := pollFds[|pollFds| - 1]][|pollFds| - 1 := pollFds[idx]];
        if channelAtEnd < 0 {
          channelAtEnd := -1 - channelAtEnd;
        }
        channels[channelAtEnd].index := idx;
        pollFds := pollFds[..|pollFds| - 1];
      }
    }

    // An owner changes its interest: the channel's mask, then the poller.
    method ChangeInterest(c: Channel, change: Change)
      requires Settled() && GoodMask(c.events) && (if c.index < 0 then c.fd !in channels else Registered(c))
      modifies this, c`index, c`events
      ensures Settled() && channels == old(channels)[c.fd := c] && 0 <= c.index < |pollFds|
      ensures GoodMask(c.events) && c.events == Changed(change, old(c.events))
      ensures Turned(change, old(c.events), c.events) && pollFds[c.index].events == c.events
      ensures table.asks == old(table.asks)[c.fd := Ask(old(table.asks), c.fd, c.events)]
    {
      hide Table.Ok, Changed, GoodMask, Turned;
      ChangeDoes(change, c.events);
      c.events := Changed(change, c.events);
      UpdateChannel(c);
    }

    // A new channel may register, a registered one change or, its slot being ignored, leave.
    predicate Legal(c: Channel, remove: bool)
      requires Valid()
      reads this, c`index, c`events, set fd <- channels :: channels[fd]`index
    {
      if !remove && c.index < 0 then c.fd !in channels
      else
        && c.fd in channels && channels[c.fd] == c
        && (remove ==> c.IsNoneEvent() && 0 <= c.index < |pollFds| && pollFds[c.index].fd < 0)
    }

    lemma MayRemove(c: Channel)
      requires Settled() && Legal(c, true)
      ensures Registered(c) && c.IsNoneEvent() && pollFds[c.index].fd == Ignored(c.fd)
    {
      assert table.SlotOk(table.slots[c.index]);
    }

    // A registered channel may always change; it may leave exactly if it has no interest and was
    // not registered without and left alone since.
    lemma LegalIff(c: Channel)
      requires Settled() && Registered(c)
      ensures Legal(c, false)
      ensures Legal(c, true) <==> c.events == NONE_EVENT && table.asks[c.fd].told != Quiet(1, true)
    {
      IndexInRange(c);
      assert table.SlotOk(table.slots[c.index]);
      if c.events == NONE_EVENT { table.IgnoredIff(c.fd); }
    }

    // Any legal sequence of changes and removals, illegal ones being skipped.
    method RunSteps(cs: seq<Channel>, steps: seq<Step>)
      requires Settled() && (forall c <- cs :: GoodMask(c.events)) && forall fd <- channels :: channels[fd] in cs
      modifies this, cs
      ensures Settled() && forall c <- cs :: GoodMask(c.events)
    {
      hide GoodMask, Table.Ok;
      for i := 0 to |steps|
        invariant Settled() && forall c <- cs :: GoodMask(c.events)
        invariant forall fd <- channels :: channels[fd] in cs
      {
        var step := steps[i];
        if step.k < |cs| && Legal(cs[step.k], step.Remove?) {
          var c := cs[step.k];
          assert c in cs;
          match step
          case Change(_, change) => ChangeInterest(c, change);
          case Remove(_) =>
            MayRemove(c);
            RemoveChannel(c);
        }
      }
    }

    // The channels of these descriptors, in order, each with what its slot reports.
    ghost predicate Activated(active: seq<Channel>, fds: seq<nat>)
      reads `pollFds, `channels, set fd <- channels :: channels[fd]
    {
      |active| == |fds| && forall k :: 0 <= k < |fds| ==>
        && fds[k] in channels && active[k] == channels[fds[k]]
        && 0 <= active[k].index < |pollFds| && active[k].revents == pollFds[active[k].index].revents
    }

    // The system fills in revents, for slots it does not ignore, and says how many it flagged.
    method Poll(revents: seq<Mask>, numEvents: nat) returns (active: seq<Channel>)
      requires Valid() && |revents| == |pollFds|
      requires forall i :: 0 <= i < |revents| && pollFds[i].fd < 0 ==> revents[i] == 0
      requires numEvents == |Flagged(Reported(pollFds, revents))|
      modifies `pollFds, `table, set fd <- channels :: channels[fd]`revents
      ensures Valid() && table == old(table).(slots := pollFds) && pollFds == Reported(old(pollFds), revents)
      ensures Activated(active, Flagged(pollFds))
      ensures forall k :: 0 <= k < |active| ==>
        && 0 <= active[k].index < |revents| && revents[active[k].index] != 0
        && active[k].revents == revents[active[k].index] && Registered(active[k])
      ensures forall j, k :: 0 <= j < k < |active| ==> active[j].index < active[k].index
      ensures forall i :: 0 <= i < |revents| && revents[i] != 0 ==>
        exists k :: 0 <= k < |active| && active[k].index == i
    {
      hide Table.Ok, Table.Bijection, Table.SlotOk, Ask;
      pollFds := Reported(pollFds, revents);
      table.ReportedOk(pollFds);
      table := table.(slots := pollFds);
      active := [];
      if numEvents > 0 {
        active := FillActiveChannels(numEvents);
      }
      ActiveIs(active);
    }

    lemma ActiveIs(active: seq<Channel>)
      requires Valid() && Activated(active, Flagged(pollFds))
      ensures forall k :: 0 <= k < |active| ==>
        && 0 <= active[k].index < |pollFds| && pollFds[active[k].index].revents != 0
        && active[k].revents == pollFds[active[k].index].revents && Registered(active[k])
      ensures forall j, k :: 0 <= j < k < |active| ==> active[j].index < active[k].index
      ensures forall i :: 0 <= i < |pollFds| && pollFds[i].revents != 0 ==>
        exists k :: 0 <= k < |active| && active[k].index == i
    {
      hide Flagged, Table.Ok;
      var at := FlaggedIs(pollFds);
      forall k | 0 <= k < |at|
        ensures active[k].index == at[k] && Registered(active[k])
      {
        SlotOwner(at[k]);
      }
    }

    // The count of flagged slots ends the walk early.
    method FillActiveChannels(numEvents: nat) returns (active: seq<Channel>)
      requires Valid() && numEvents == |Flagged(pollFds)|
      requires forall i :: 0 <= i < |pollFds| && pollFds[i].fd < 0 ==> pollFds[i].revents == 0
      modifies set fd <- channels :: channels[fd]`revents
      ensures Activated(active, Flagged(pollFds))
    {
      hide Flagged, Table.Ok, Indexed;
      active := [];
      assert pollFds[..0] == [];
      FlaggedNone();
      var i, left := 0, numEvents;
      while i < |pollFds| && left > 0
        invariant 0 <= i <= |pollFds| && left == numEvents - |active|
        invariant Activated(active, Flagged(pollFds[..i]))
      {
        FlaggedPrefix(pollFds, i);
        FlaggedNext(pollFds, i);
        SlotOwner(i);
        if pollFds[i].revents > 0 {
          left := left - 1;
          var channel := channels[pollFds[i].fd];
          channel.revents := pollFds[i].revents;
          active := active + [channel];
        }
        i := i + 1;
      }
      FlaggedPrefix(pollFds, i);
      assert i == |pollFds| ==> pollFds[..i] == pollFds;
    }
  }

  // A channel registered without interest and never changed: its slot is not ignored, and the
  // assertion in RemoveChannel fails.
  method IdleRegistration() returns (p: PollPoller, c: Channel)
    ensures p.Settled() && p.Registered(c) && c.IsNoneEvent() && 0 <= c.index < |p.pollFds|
    ensures p.pollFds[c.index].fd != Ignored(c.fd) && p.table.asks[c.fd].told == Quiet(1, true)
  {
    hide Table.Ok;
    c := new Channel(0);
    p := new PollPoller();
    p.UpdateChannel(c);
    p.IndexInRange(c);
    p.table.IgnoredIff(0);
  }
}
