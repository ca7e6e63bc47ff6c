// The two backends side by side.  Both keep the same account of what they were asked; with
// the same account they ask the system for the same events, but do not always watch the
// same descriptors: without interest poll ignores a descriptor once and for all, epoll
// deletes it and adds it again in turn.
module Pollers {
  import opened Channels
  import P = PollPollers
  import E = EpollPollers

  ghost predicate Agree(p: P.PollPoller, e: E.EpollPoller)
    reads p, e
    reads set fd <- p.channels :: p.channels[fd]`index, set fd <- p.channels :: p.channels[fd]`events
    reads set fd <- e.channels :: e.channels[fd]`index, set fd <- e.channels :: e.channels[fd]`events
  {
    p.Settled() && e.Settled() && p.table.asks == e.asks
  }

  // Both ask for every descriptor's interest, as far as events beside error and hang-up go.
  lemma SameEvents(p: P.PollPoller, e: E.EpollPoller, fd: nat)
    requires Agree(p, e)
    ensures p.table.Effective(fd) == e.Effective(fd)
    ensures fd in p.channels ==> p.table.Effective(fd) == p.channels[fd].events
    ensures fd in e.channels ==> e.Effective(fd) == e.channels[fd].events
    ensures fd !in e.channels ==> e.Effective(fd) == NONE_EVENT
  {
    p.table.EffectiveIsInterest(fd);
    e.EffectiveIsInterest(fd);
  }

  // Both watch a descriptor, or neither does, exactly unless it was without interest at
  // several updates in a row, the last of which had epoll add it again.
  lemma SameWatchIff(p: P.PollPoller, e: E.EpollPoller, fd: nat)
    requires Agree(p, e)
    ensures var t := ToldOf(e.asks, fd);
            (p.table.Watched(fd) <==> fd in e.kernel) <==>
            (t.Quiet? ==> t.times == 1 || (t.fromStart <==> t.times % 2 == 0))
  {
    p.table.WatchedIff(fd);
    e.WatchedIff(fd);
    AskedOk(e, fd);
    BackendsAgreeIff(ToldOf(e.asks, fd));
  }

  lemma AskedOk(e: E.EpollPoller, fd: nat)
    requires e.Valid()
    ensures fd in e.asks ==> e.asks[fd].Ok()
  {
  }

  // ---- a channel that stops reading and is then disabled as a whole ----

  ghost function Twice(): map<nat, Asked> { map[0 := Asked(NONE_EVENT, Quiet(2, false))] }

  lemma TwiceIs(a1: map<nat, Asked>, a2: map<nat, Asked>, a3: map<nat, Asked>)
    requires a1 == map[][0 := Ask(map[], 0, READ_EVENT)]
    requires a2 == a1[0 := Ask(a1, 0, NONE_EVENT)] && a3 == a2[0 := Ask(a2, 0, NONE_EVENT)]
    ensures a3 == Twice()
  {
  }

  lemma Masks()
    ensures Changed(EnableReading, NONE_EVENT) == READ_EVENT && GoodMask(NONE_EVENT) && GoodMask(READ_EVENT)
    ensures Changed(DisableReading, READ_EVENT) == NONE_EVENT && Changed(DisableAll, NONE_EVENT) == NONE_EVENT
  {
  }

  method PollTwice() returns (p: P.PollPoller, c: Channel)
    ensures fresh(p) && fresh(c) && p.Settled() && p.channels == map[0 := c] && p.table.asks == Twice() && c.fd == 0
  {
    hide Ask, Changed, GoodMask, P.PollSlots.Table.Ok;
    Masks();
    c := new Channel(0);
    p := new P.PollPoller();
    p.ChangeInterest(c, EnableReading);
    ghost var a1 := p.table.asks;
    p.ChangeInterest(c, DisableReading);
    ghost var a2 := p.table.asks;
    p.ChangeInterest(c, DisableAll);
    TwiceIs(a1, a2, p.table.asks);
  }

  method EpollTwice() returns (e: E.EpollPoller, c: Channel)
    ensures fresh(e) && fresh(c) && e.Settled() && e.asks == Twice() && c.fd == 0
  {
    hide Ask, Changed, GoodMask;
    Masks();
    c := new Channel(0);
    e := new E.EpollPoller();
    e.ChangeInterest(c, EnableReading);
    ghost var a1 := e.asks;
    e.ChangeInterest(c, DisableReading);
    ghost var a2 := e.asks;
    e.ChangeInterest(c, DisableAll);
    TwiceIs(a1, a2, e.asks);
  }

  // Epoll watches it again, for no events; poll does not.
  method DisabledTwice() returns (p: P.PollPoller, e: E.EpollPoller)
    ensures Agree(p, e) && 0 in p.channels && p.channels[0].events == NONE_EVENT
    ensures 0 in e.kernel && !p.table.Watched(0)
  {
    hide P.PollSlots.Table.Ok;
    var cp, ce;
    p, cp := PollTwice();
    e, ce := EpollTwice();
    p.table.WatchedIff(0);
    e.WatchedIff(0);
  }
}
