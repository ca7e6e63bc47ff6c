// The epoll(4) backend: the system keeps the interest set, the poller a map of channels,
// and each channel whether it is new, added to the system's set, or deleted from it.
module EpollPollers {
  import opened Channels

  const NEW := -1
  const ADDED := 1
  const DELETED := 2
  const INIT_EVENT_LIST_SIZE: nat := 16

  const SIZE_T: nat := 0x1_0000_0000_0000_0000

  datatype Operation = CtlAdd | CtlMod | CtlDel

  // What the system holds for a descriptor: the events asked for and the pointer handed back.
  datatype Registration = Registration(events: Mask, data: Channel)

  datatype Ready = Ready(fd: nat, events: Mask)

  // epoll_ctl fails when it adds a descriptor it has, or changes or deletes one it has not.
  predicate Accepted(op: Operation, fd: nat, kernel: map<nat, Registration>) {
    op == CtlAdd <==> fd !in kernel
  }

  // The system's set holds what was added, with the owner's mask and channel.
  ghost predicate Held(channels: map<nat, Channel>, asks: map<nat, Asked>, kernel: map<nat, Registration>) {
    && (forall fd <- asks :: Watches(EpollBackend, asks[fd].told) ==> fd in kernel)
    && (forall fd <- kernel :: fd in asks && fd in channels && Watches(EpollBackend, asks[fd].told) &&
          kernel[fd] == Registration(asks[fd].mask, channels[fd]))
  }

  // The index says whether the system's set has the descriptor.
  ghost function IndexOf(a: Asked): int { if Watches(EpollBackend, a.told) then ADDED else DELETED }

  lemma HeldUpdated(channels: map<nat, Channel>, asks: map<nat, Asked>, kernel: map<nat, Registration>, fd: nat,
                    c: Channel, e: Asked)
    requires Held(channels, asks, kernel) && (fd in channels ==> channels[fd] == c)
    ensures Watches(EpollBackend, e.told) ==>
              Held(channels[fd := c], asks[fd := e], kernel[fd := Registration(e.mask, c)])
    ensures !Watches(EpollBackend, e.told) ==> Held(channels[fd := c], asks[fd := e], kernel - {fd})
    ensures Held(channels - {fd}, asks - {fd}, kernel - {fd})
    ensures fd in kernel <==> fd in asks && Watches(EpollBackend, asks[fd].told)
    ensures fd !in kernel ==> kernel - {fd} == kernel
  {
  }

  class EpollPoller {
    var channels: map<nat, Channel>
    var capacity: nat
    // the system's side
    var kernel: map<nat, Registration>

    ghost var asks: map<nat, Asked>

    ghost predicate Registered(c: Channel)
      reads `channels
    {
      c.fd in channels && channels[c.fd] == c
    }

    // Each channel carries its entry's index.
    ghost predicate Indexed()
      reads `channels, `asks, set fd <- channels :: channels[fd]`index
    {
      && channels.Keys == asks.Keys
      && forall fd <- channels :: channels[fd].fd == fd && asks[fd].Ok() && channels[fd].index == IndexOf(asks[fd])
    }

    ghost predicate Valid()
      reads this, set fd <- channels :: channels[fd]`index
    {
      Indexed() && Held(channels, asks, kernel) && 0 < capacity
    }

    // Every channel's own interest has reached the poller.
    ghost predicate Settled()
      reads this, set fd <- channels :: channels[fd]`index, set fd <- channels :: channels[fd]`events
    {
      Valid() && forall fd <- channels :: channels[fd].events == asks[fd].mask
    }

    constructor ()
      ensures Settled() && asks == map[] && channels == map[] && kernel == map[] && capacity == 16
    {
      channels, kernel, asks, capacity := map[], map[], map[], INIT_EVENT_LIST_SIZE;
    }

    // The events epoll_wait is asked to report for a descriptor, beside error and hang-up.
    ghost function Effective(fd: nat): Mask
      reads `kernel
    {
      if fd in kernel then kernel[fd].events else NONE_EVENT
    }

    lemma EffectiveIsInterest(fd: nat)
      requires Valid()
      ensures Effective(fd) == if fd in asks then asks[fd].mask else NONE_EVENT
    {
    }

    // A descriptor is in the system's set exactly when it has interest, or has had none at so
    // many updates in a row that the last of them added it again.
    lemma WatchedIff(fd: nat)
      requires Valid()
      ensures fd in kernel <==> Watches(EpollBackend, ToldOf(asks, fd))
    {
    }

    // ---- the operations ----

    // epoll_ctl, which the state machine only ever calls legally.
    method Update(op: Operation, c: Channel)
      requires Accepted(op, c.fd, kernel)
      modifies `kernel
      ensures kernel == if op == CtlDel then old(kernel) - {c.fd} else old(kernel)[c.fd := Registration(c.events, c)]
    {
      match op
      case CtlAdd | CtlMod => kernel := kernel[c.fd := Registration(c.events, c)];
      case CtlDel => kernel := kernel - {c.fd};
    }

    method UpdateChannel(c: Channel)
      requires Valid() && (if c.index == NEW then c.fd !in channels else Registered(c))
      modifies this, c`index
      ensures Valid() && channels == old(channels)[c.fd := c]
      ensures asks == old(asks)[c.fd := Ask(old(asks), c.fd, c.events)]
      ensures c.index == if old(c.index) == ADDED && c.IsNoneEvent() then DELETED else ADDED
      ensures kernel == if old(c.index) == ADDED && c.events == 0 then old(kernel) - {c.fd}
                        else old(kernel)[c.fd := Registration(c.events, c)]
    {
      hide Asked.Ok, Ask, Held, Watches;
      IndexKnown(c);
      if c.index == NEW || c.index == DELETED {
        AddOne(c);
      } else {
        ChangeOne(c);
      }
    }

    // A new or deleted channel is added to the system's set.
    method AddOne(c: Channel)
      requires Valid() && (if c.index == NEW then c.fd !in channels else Registered(c) && c.index == DELETED)
      modifies this, c`index
      ensures Valid() && channels == old(channels)[c.fd := c] && c.index == ADDED
      ensures kernel == old(kernel)[c.fd := Registration(c.events, c)]
      ensures asks == old(asks)[c.fd := Ask(old(asks), c.fd, c.events)]
    {
      hide Asked.Ok, Held, ToldOf, Watches, Ask;
      AskOk(asks, c.fd, c.events);
      HeldUpdated(channels, asks, kernel, c.fd, c, Ask(asks, c.fd, c.events));
      IndexKnown(c);
      if c.index == NEW {
        channels := channels[c.fd := c];
      }
      assert channels == old(channels)[c.fd := c];
      c.index := ADDED;
      Update(CtlAdd, c);
      asks := asks[c.fd := Ask(asks, c.fd, c.events)];
    }

    // An added channel is changed there, or deleted when it has no interest left.
    method ChangeOne(c: Channel)
      requires Valid() && Registered(c) && c.index == ADDED
      modifies this, c`index
      ensures Valid() && channels == old(channels)[c.fd := c]
      ensures asks == old(asks)[c.fd := Ask(old(asks), c.fd, c.events)]
      ensures c.index == if c.IsNoneEvent() then DELETED else ADDED
      ensures kernel == if c.events == 0 then old(kernel) - {c.fd} else old(kernel)[c.fd := Registration(c.events, c)]
    {
      hide Asked.Ok, Held, ToldOf, Watches, Ask;
      AskOk(asks, c.fd, c.events);
      HeldUpdated(channels, asks, kernel, c.fd, c, Ask(asks, c.fd, c.events));
      IndexKnown(c);
      assert channels == channels[c.fd := c];
      if c.IsNoneEvent() {
        Update(CtlDel, c);
        c.index := DELETED;
      } else {
        Update(CtlMod, c);
      }
      asks := asks[c.fd := Ask(asks, c.fd, c.events)];
    }

    lemma IndexKnown(c: Channel)
      requires Valid()
      ensures Registered(c) ==> (c.index == ADDED || c.index == DELETED) && c.index == IndexOf(asks[c.fd])
      ensures Registered(c) ==> (Watches(EpollBackend, ToldOf(asks, c.fd)) <==> c.index == ADDED)
      ensures c.fd !in channels ==> !Watches(EpollBackend, ToldOf(asks, c.fd))
      ensures c.fd in asks <==> c.fd in channels
    {
    }

    // Afterwards the channel is new again.
    method RemoveChannel(c: Channel)
      requires Valid() && Registered(c) && c.IsNoneEvent()
      modifies this, c`index
      ensures Valid() && channels == old(channels) - {c.fd} && asks == old(asks) - {c.fd}
      ensures c.index == NEW && kernel == old(kernel) - {c.fd}
    {
      hide Asked.Ok, Held;
      HeldUpdated(channels, asks, kernel, c.fd, c, asks[c.fd]);
      var index := c.index;
      channels := channels - {c.fd};
      asks := asks - {c.fd};
      if index == ADDED {
        Update(CtlDel, c);
      }
      c.index := NEW;
    }

    method ChangeInterest(c: Channel, change: Change)
      requires Settled() && GoodMask(c.events) && (if c.index == NEW then c.fd !in channels else Registered(c))
      modifies this, c`index, c`events
      ensures Settled() && Registered(c) && GoodMask(c.events) && c.events == Changed(change, old(c.events))
      ensures asks == old(asks)[c.fd := Ask(old(asks), c.fd, c.events)]
      ensures Turned(change, old(c.events), c.events)
      ensures c.events != 0 ==> c.fd in kernel && kernel[c.fd] == Registration(c.events, c)
    {
      hide Changed, GoodMask, Asked.Ok, Turned;
      ChangeDoes(change, c.events);
      c.events := Changed(change, c.events);
      UpdateChannel(c);
    }

    // A new channel may register, a registered one change or, without interest, leave.
    predicate Legal(c: Channel, remove: bool)
      reads `channels, c`index, c`events
    {
      if !remove && c.index == NEW then c.fd !in channels
      else c.fd in channels && channels[c.fd] == c && (remove ==> c.IsNoneEvent())
    }

    // Any legal sequence of changes and removals, illegal ones being skipped.
    method RunSteps(cs: seq<Channel>, steps: seq<Step>)
      requires Settled() && forall c <- cs :: GoodMask(c.events)
      modifies this, cs
      ensures Settled() && forall c <- cs :: GoodMask(c.events)
    {
      hide GoodMask, Asked.Ok;
      for i := 0 to |steps|
        invariant Settled() && forall c <- cs :: GoodMask(c.events)
      {
        var step := steps[i];
        if step.k < |cs| && Legal(cs[step.k], step.Remove?) {
          var c := cs[step.k];
          assert c in cs;
          match step
          case Change(_, change) => ChangeInterest(c, change);
          case Remove(_) => RemoveChannel(c);
        }
      }
    }

    // ---- waiting ----

    // The system reports descriptors it holds, each once and no more than there is room
    // for; the pointers it hands back are the registered channels.  A failure is -1, which is
    // kept as the largest unsigned number and walked as a negative one: nothing is active.
    method Poll(ready: seq<Ready>, failed: bool) returns (active: seq<Channel>)
      requires Valid() && |ready| <= capacity < SIZE_T - 1 && (failed ==> ready == [])
      requires forall i :: 0 <= i < |ready| ==> ready[i].fd in kernel
      requires forall i, j :: 0 <= i < j < |ready| ==> ready[i].fd != ready[j].fd
      modifies `capacity, set fd <- channels :: channels[fd]`revents
      ensures Valid() && capacity == (if |ready| == old(capacity) then 2 * |ready| else old(capacity))
      ensures |active| == |ready|
      ensures forall i :: 0 <= i < |ready| ==>
                ready[i].fd in channels && active[i] == channels[ready[i].fd] && active[i].revents == ready[i].events
    {
      active := [];
      var numEvents := if failed then SIZE_T - 1 else |ready|;
      if numEvents > 0 {
        active := FillActiveChannels(ready, if failed then -1 else |ready|);
        if numEvents == capacity {
          capacity := capacity * 2;
        }
      }
    }

    method FillActiveChannels(ready: seq<Ready>, numEvents: int) returns (active: seq<Channel>)
      requires Valid() && numEvents <= |ready|
      requires forall i :: 0 <= i < |ready| ==> ready[i].fd in kernel
      requires forall i, j :: 0 <= i < j < |ready| ==> ready[i].fd != ready[j].fd
      modifies set fd <- channels :: channels[fd]`revents
      ensures |active| == if numEvents < 0 then 0 else numEvents
      ensures forall i :: 0 <= i < |active| ==>
                ready[i].fd in channels && active[i] == channels[ready[i].fd] && active[i].revents == ready[i].events
    {
      active := [];
      var i := 0;
      while i < numEvents
        invariant 0 <= i && |active| == i && (0 <= numEvents ==> i <= numEvents) && (numEvents < 0 ==> i == 0)
        invariant forall k :: 0 <= k < i ==>
                    ready[k].fd in channels && active[k] == channels[ready[k].fd] &&
                      active[k].revents == ready[k].events
      {
        var channel := kernel[ready[i].fd].data;
        channel.revents := ready[i].events;
        active := active + [channel];
        i := i + 1;
      }
    }
  }
}
