// The memory pool: page blocks on a linked list, recycled by reference count, and
// large blocks whose bookkeeping nodes are allocated from the pool itself.
module MemoryPools {
  import opened PoolBlocks

  class SmallNode {
    const at: nat
    const end: nat
    var last: nat
    var quote: nat
    var failed: nat
    var next: SmallNode?

    constructor (at: nat, end: nat, last: nat)
      ensures this.at == at && this.end == end && this.last == last && quote == 0 && failed == 0 && next == null
    {
      this.at, this.end, this.last := at, end, last;
      quote, failed, next := 0, 0, null;
    }

    function View(): Block
      reads this
    {
      Block(at, end, last, quote)
    }
  }

  class LargeNode {
    const at: nat
    var address: nat
    var size: nat
    var next: LargeNode?

    constructor (at: nat, address: nat, size: nat, next: LargeNode?)
      ensures this.at == at && this.address == address && this.size == size && this.next == next
    {
      this.at, this.address, this.size, this.next := at, address, size, next;
    }

    function Entry(): Record
      reads this
    {
      Record(at, address, size)
    }
  }

  const SIZE_T: int := 0x1_0000_0000_0000_0000

  // A pointer difference as the unsigned number it is compared as.
  function AsUnsigned(d: int): nat
    requires -SIZE_T <= d
  {
    if d < 0 then d + SIZE_T else d
  }

  function Views(chain: seq<SmallNode>): (blocks: seq<Block>)
    reads chain
    ensures |blocks| == |chain| && forall i :: 0 <= i < |chain| ==> blocks[i] == chain[i].View()
  {
    seq(|chain|, i requires 0 <= i < |chain| reads chain => chain[i].View())
  }

  function Fails(chain: seq<SmallNode>): (fails: seq<nat>)
    reads chain`failed
    ensures |fails| == |chain|
    decreases |chain|
  {
    if chain == [] then [] else Fails(chain[..|chain| - 1]) + [chain[|chain| - 1].failed]
  }

  lemma {:induction false} FailsAt(chain: seq<SmallNode>)
    ensures forall i :: 0 <= i < |chain| ==> Fails(chain)[i] == chain[i].failed
    decreases |chain|
  {
    if chain != [] { FailsAt(chain[..|chain| - 1]); }
  }

  // next leads along the chain and ends after its last node.
  ghost predicate SmallList(chain: seq<SmallNode>)
    reads chain`next
  {
    && (forall i, j :: 0 <= i < j < |chain| ==> chain[i] != chain[j])
    && (forall i {:trigger chain[i].next} :: 0 <= i < |chain| ==>
          chain[i].next == if i + 1 < |chain| then chain[i + 1] else null)
  }

  ghost predicate LargeList(larges: seq<LargeNode>)
    reads larges
  {
    && (forall i, j :: 0 <= i < j < |larges| ==> larges[i] != larges[j])
    && (forall i {:trigger larges[i].next} :: 0 <= i < |larges| ==>
          larges[i].next == if i + 1 < |larges| then larges[i + 1] else null)
  }

  // The list of blocks is as before, or has one more at its end, on the page supplied.
  ghost predicate Grown(before: seq<SmallNode>, after: seq<SmallNode>, page: nat) {
    || after == before
    || (page != 0 && |after| == |before| + 1 && before <= after && after[|before|].at == page &&
       after[|before|].end == page + PAGE_SIZE)
  }

  // One record more was allocated.
  ghost predicate NewRecord(before: map<nat, nat>, live: map<nat, nat>) {
    exists a: nat :: a !in before && live == before[a := 24]
  }

  lemma IsNewRecord(before: map<nat, nat>, live: map<nat, nat>, a: nat)
    requires a !in before && live == before[a := LARGE_NODE]
    ensures NewRecord(before, live) && a in live && live[a] == LARGE_NODE
  {
  }

  datatype Record = Record(at: nat, address: nat, size: nat)

  function Entries(larges: seq<LargeNode>): (recs: seq<Record>)
    reads larges
    ensures |recs| == |larges| && forall i :: 0 <= i < |larges| ==> recs[i] == larges[i].Entry()
  {
    seq(|larges|, i requires 0 <= i < |larges| reads larges => larges[i].Entry())
  }

  // The first empty record among the first five, or the number of records if there is none.
  function FirstEmpty(recs: seq<Record>, i: nat): (k: nat)
    requires i <= |recs|
    ensures i <= k <= |recs|
    decreases |recs| - i
  {
    if i == |recs| || i > 4 then |recs| else if recs[i].address == 0 then i else FirstEmpty(recs, i + 1)
  }

  lemma FirstEmptyStep(recs: seq<Record>, i: nat)
    requires i <= |recs|
    ensures i == |recs| || i > 4 ==> FirstEmpty(recs, i) == |recs|
    ensures i < |recs| && i <= 4 ==> FirstEmpty(recs, i) == if recs[i].address == 0 then i else FirstEmpty(recs, i + 1)
  {
  }

  // The block at extra was entered in that record, or else in a new one at the front.
  ghost predicate EnteredIn(recs: seq<Record>, after: seq<Record>, size: nat, extra: nat) {
    var k := FirstEmpty(recs, 0);
    if k < |recs| then after == recs[k := Record(recs[k].at, extra, size % WORD)]
    else |after| == |recs| + 1 && after[1..] == recs && after[0].address == extra && after[0].size == size % WORD
  }

  // Each large node is itself a live allocation of the pool, and the nodes that hold an
  // address correspond one to one to the live large blocks.
  ghost predicate Records(recs: seq<Record>, live: map<nat, nat>, big: map<nat, nat>) {
    && (forall i, j :: 0 <= i < j < |recs| ==> recs[i].at != recs[j].at)
    && (forall i :: 0 <= i < |recs| ==> recs[i].at in live && live[recs[i].at] == LARGE_NODE)
    && (forall i :: 0 <= i < |recs| && recs[i].address != 0 ==>
          recs[i].address in big && recs[i].size == big[recs[i].address] % WORD)
    && (forall i, j :: 0 <= i < j < |recs| && recs[i].address != 0 ==> recs[i].address != recs[j].address)
    && (forall a <- big :: Recorded(recs, a))
  }

  ghost predicate Recorded(recs: seq<Record>, a: nat) {
    exists i :: 0 <= i < |recs| && recs[i].address == a
  }

  // The address ranges a..aEnd and b..bEnd do not meet.
  predicate Clear(a: nat, aEnd: nat, b: nat, bEnd: nat) { aEnd <= b || bEnd <= a }

  // Large blocks lie outside every page and outside each other.
  ghost predicate BigApart(nodes: seq<SmallNode>, big: map<nat, nat>) {
    && (forall a <- big :: 0 < a && 0 < big[a])
    && (forall a, i | a in big && 0 <= i < |nodes| :: Clear(a, a + big[a], nodes[i].at, nodes[i].end))
    && (forall a, b | a in big && b in big && a != b :: Clear(a, a + big[a], b, b + big[b]))
  }

  // Which record a large block is entered in.
  lemma {:induction false} FirstEmptyIs(recs: seq<Record>, i: nat)
    requires i <= |recs|
    ensures var k := FirstEmpty(recs, i);
            && (k < |recs| ==> k < 5 && recs[k].address == 0 && forall j :: i <= j < k ==> recs[j].address != 0)
            && (k == |recs| ==> forall j :: i <= j < |recs| && j < 5 ==> recs[j].address != 0)
    decreases |recs| - i
  {
    if i < |recs| && i < 5 && recs[i].address != 0 { FirstEmptyIs(recs, i + 1); }
  }

  class MemoryPool {
    const head: SmallNode
    var current: SmallNode
    var largeList: LargeNode?
    ghost var chain: seq<SmallNode>
    // the position of current
    ghost var cursor: nat
    ghost var larges: seq<LargeNode>
    ghost var live: map<nat, nat>
    ghost var big: map<nat, nat>

    ghost predicate Linked()
      reads this, chain, larges
    {
      && 0 < |chain| && chain[0] == head && cursor < |chain| && current == chain[cursor] && SmallList(chain)
      && LargeList(larges) && largeList == if larges == [] then null else larges[0]
    }

    // live are the small allocations, big the large ones.
    ghost predicate Valid()
      reads this, chain, larges
    {
      && Linked()
      && Consistent(Views(chain), live)
      && Records(Entries(larges), live, big)
      && BigApart(chain, big)
      && POOL_BYTES < head.at && (forall a <- big :: Clear(a, a + big[a], head.at - POOL_BYTES, head.at))
    }

    // A range the system may hand out: aligned and clear of everything the pool owns.
    ghost predicate Unused(at: nat, size: nat)
      reads this, chain
    {
      && 0 < at && at % ALIGNMENT == 0
      && (forall i :: 0 <= i < |chain| ==> Clear(at, at + size, chain[i].at, chain[i].end))
      && (forall a <- big :: Clear(at, at + size, a, a + big[a]))
      && (POOL_BYTES < head.at ==> Clear(at, at + size, head.at - POOL_BYTES, head.at))
    }

    // CreatePool on a page the system returned at address page.
    constructor (page: nat)
      requires 0 < page && page % ALIGNMENT == 0
      ensures Valid() && live == map[] && big == map[] && chain == [head] && larges == []
      ensures head.at == page + 24 && head.end == page + 4096 && head.last == head.at + 32 && fresh(head)
      ensures current == head && head.quote == 0 && head.failed == 0
    {
      var node := new SmallNode(page + POOL_BYTES, page + PAGE_SIZE, page + POOL_BYTES + SMALL_NODE);
      head := node;
      current := node;
      largeList := null;
      chain, cursor, larges, live, big := [node], 0, [], map[], map[];
      new;
      assert Views(chain) == [node.View()];
      assert Inside(node.View(), live) == {};
    }

    // Take size bytes at the aligned end of block i.
    method Bump(cur: SmallNode, size: nat, ghost i: nat) returns (r: nat)
      requires Valid() && i < |chain| && chain[i] == cur && 0 < size && Align(cur.last) + size <= cur.end
      modifies cur`quote, cur`last, `live
      ensures Valid() && r == Align(old(cur.last)) && 0 < r && r !in old(live) && live == old(live)[r := size]
      ensures Views(chain) == old(Views(chain))[i := Bumped(old(Views(chain))[i], size)] &&
        Fails(chain) == old(Fails(chain))
    {
      hide Consistent, Records, BigApart, Align, Clear, Views, Block.Ok, Fails;
      ghost var blocks := Views(chain);
      RoomAt(blocks, live, i);
      BumpConsistent(blocks, live, i, size);
      RecordsGrow(Entries(larges), live, big, Align(cur.last), size);
      r := Align(cur.last);
      cur.quote := cur.quote + 1;
      cur.last := r + size;
      live := live[r := size];
      assert Views(chain) == blocks[i := Bumped(blocks[i], size)];
      assert Linked();
      assert Consistent(Views(chain), live);
      assert Records(Entries(larges), live, big);
    }

    // Walk the blocks from current for one with room; otherwise take a new page.
    method MallocSmall(size: nat, page: nat) returns (r: nat)
      requires Valid() && 0 < size <= PAGE_SIZE - SMALL_NODE
      requires page != 0 ==> Unused(page, PAGE_SIZE)
      modifies this, chain
      ensures Valid() && Grown(old(chain), chain, page) && larges == old(larges) && big == old(big)
      ensures forall n <- chain :: n in old(chain) || fresh(n)
      ensures old(cursor < |chain|) && r == PlacedAt(old(Views(chain)), old(cursor), size, page)
      ensures Views(chain) == Allocated(old(Views(chain)), old(cursor), size, page)
      ensures (Fails(chain), cursor) == Searched(old(Views(chain)), old(Fails(chain)), old(cursor), size, page)
      ensures r == 0 ==> page == 0 && live == old(live)
      ensures r != 0 ==> r !in old(live) && live == old(live)[r := size]
    {
      hide Consistent, Records, BigApart, Linked, Align, Views, Unused, FirstRoom, PlacedAt, Allocated, Bumped, Fails,
        PageAdded;
      AtCursor();
      var cur: SmallNode? := current;
      ghost var i, blocks := cursor, Views(chain);
      while cur != null
        invariant Valid() && chain == old(chain) && live == old(live) && larges == old(larges) && big == old(big)
        invariant page != 0 ==> Unused(page, PAGE_SIZE)
        invariant cursor <= i <= |chain| && cur == (if i < |chain| then chain[i] else null)
        invariant cursor == old(cursor) && Views(chain) == blocks && Fails(chain) == old(Fails(chain))
        invariant FirstRoom(blocks, i, size) == FirstRoom(blocks, cursor, size)
        decreases |chain| - i
      {
        r := Align(cur.last);
        RoomAt(Views(chain), live, i);
        NextNode(i);
        BlockAt(i);
        FirstRoomStep(blocks, i, size);
        if AsUnsigned(cur.end - r) >= size {
          AllocatedIs(blocks, cursor, size, page);
          r := Bump(cur, size, i);
          return;
        }
        cur := cur.next;
        i := i + 1;
      }
      FirstRoomStep(blocks, i, size);
      AllocatedIs(blocks, cursor, size, page);
      r := MallocSmallNode(size, page);
    }

    lemma NextNode(i: nat)
      requires Linked() && i < |chain|
      ensures chain[i].next == if i + 1 < |chain| then chain[i + 1] else null
    {
    }

    // A new page at the end of the list; blocks that failed often are skipped from now on.
    method MallocSmallNode(size: nat, page: nat) returns (r: nat)
      requires Valid() && 0 < size <= PAGE_SIZE - SMALL_NODE
      requires page != 0 ==> Unused(page, PAGE_SIZE)
      modifies this, chain
      ensures Valid() && Grown(old(chain), chain, page) && larges == old(larges) && big == old(big)
      ensures forall n <- chain :: n in old(chain) || fresh(n)
      ensures page == 0 ==> r == 0 && live == old(live) && Views(chain) == old(Views(chain))
      ensures old(cursor < |chain|)
      ensures (Fails(chain), cursor) ==
        if page == 0 then old((Fails(chain), cursor)) else PageAdded(old(Fails(chain)), old(cursor))
      ensures page != 0 ==> r == Align(page + SMALL_NODE) && 0 < r && r !in old(live) && live == old(live)[r := size]
      ensures page != 0 ==> Views(chain) == old(Views(chain)) + [Bumped(NewPage(page), size)]
    {
      hide Valid, Fails, Views, PageAdded, Bumped, Align, Unused, Grown;
      ValidCursor();
      SameChain(page);
      if page == 0 {
        return 0;
      }
      r := UsePage(size, page);
    }

    method UsePage(size: nat, page: nat) returns (r: nat)
      requires Valid() && 0 < size <= PAGE_SIZE - SMALL_NODE && page != 0 && Unused(page, PAGE_SIZE)
      modifies this, chain
      ensures Valid() && Grown(old(chain), chain, page) && larges == old(larges) && big == old(big)
      ensures forall n <- chain :: n in old(chain) || fresh(n)
      ensures r == Align(page + SMALL_NODE) && 0 < r && r !in old(live) && live == old(live)[r := size]
      ensures Views(chain) == old(Views(chain)) + [Bumped(NewPage(page), size)]
      ensures old(cursor < |chain|) && (Fails(chain), cursor) == PageAdded(old(Fails(chain)), old(cursor))
    {
      hide Valid, Unused, Align, Fails, Views, PageAdded, Bumped;
      ValidCursor();
      var node := AppendPage(page);
      FirstFit(page, size);
      r := Bump(node, size, |chain| - 1);
    }

    lemma ValidCursor()
      requires Valid()
      ensures cursor < |chain| && current == chain[cursor]
    {
    }

    // Raise the failure count of every block from current to the last but one, and
    // move past those that have failed too often.
    method SkipFailed() returns (last: SmallNode, next: SmallNode)
      requires SmallList(chain) && cursor < |chain| && current == chain[cursor]
      modifies chain`failed, `cursor
      ensures last == chain[|chain| - 1] && cursor < |chain| && next == chain[cursor] &&
        Views(chain) == old(Views(chain))
      ensures (Fails(chain) + [0], cursor) == PageAdded(old(Fails(chain)), old(cursor))
    {
      hide Views, Fails, SkipTo, Raised, SmallList;
      ghost var fails := Fails(chain);
      SkipFrom(fails, cursor);
      next := current;
      last := current;
      ghost var i := cursor;
      RaisedStep(fails, cursor, cursor);
      Ends(i);
      while last.next != null
        invariant old(cursor) <= i < |chain| && last == chain[i] && cursor < |chain| && next == chain[cursor]
        invariant SmallList(chain) && last.next == if i + 1 < |chain| then chain[i + 1] else null
        invariant cursor == SkipTo(fails, old(cursor), i)
        invariant Fails(chain) == Raised(fails, old(cursor), i) && Views(chain) == old(Views(chain))
        decreases |chain| - i
      {
        SkipStep(fails, old(cursor), i);
        assert Fails(chain)[i] == last.failed by { FailsAt(chain); }
        RaisedStep(fails, old(cursor), i);
        if last.failed >= 5 {
          next := last.next;
          cursor := i + 1;
        }
        RaiseFailed(last, i);
        last := last.next;
        i := i + 1;
        Ends(i);
      }
    }

    method RaiseFailed(node: SmallNode, ghost i: nat)
      requires SmallList(chain) && i < |chain| && node == chain[i]
      modifies node`failed
      ensures Fails(chain) == old(Fails(chain))[i := (old(Fails(chain))[i] + 1) % WORD]
      ensures Views(chain) == old(Views(chain)) && SmallList(chain)
    {
      hide Views, Fails;
      ghost var blocks := Views(chain);
      FailsAt(chain);
      node.failed := (node.failed + 1) % WORD;
      FailsAt(chain);
      assert Views(chain) == blocks;
    }

    lemma Ends(i: nat)
      requires SmallList(chain) && i < |chain|
      ensures chain[i].next == if i + 1 < |chain| then chain[i + 1] else null
    {
    }

    // Link a node for the page in at the end of the list.
    method LinkPage(page: nat) returns (node: SmallNode)
      requires Linked()
      modifies this`current, this`chain, this`cursor, chain`failed, chain`next
      ensures Linked() && fresh(node) && chain == old(chain) + [node]
      ensures Views(chain) == old(Views(chain)) + [NewPage(page)]
      ensures (Fails(chain), cursor) == PageAdded(old(Fails(chain)), old(cursor))
    {
      hide Views, Fails, PageAdded;
      ghost var before := chain;
      node := new SmallNode(page, page + PAGE_SIZE, page + SMALL_NODE);
      var last, next := SkipFailed();
      ViewsMore(chain, node);
      Attach(last, next, node);
      assert Views(before + [node]) == old(Views(chain)) + [NewPage(page)];
    }

    method Attach(last: SmallNode, next: SmallNode, node: SmallNode)
      requires 0 < |chain| && chain[0] == head && SmallList(chain)
      requires LargeList(larges) && largeList == if larges == [] then null else larges[0]
      requires last == chain[|chain| - 1] && cursor < |chain| && next == chain[cursor]
      requires node !in chain && node.next == null
      modifies `current, `chain, last`next
      ensures Linked() && chain == old(chain) + [node]
      ensures Views(chain) == old(Views(chain + [node])) && Fails(chain) == old(Fails(chain)) + [node.failed]
    {
      hide Views, Fails, LargeList, SmallList;
      ghost var before, blocks := chain, Views(chain + [node]);
      InnerLinks(before);
      FailsAt(chain);
      last.next := node;
      chain := chain + [node];
      current := next;
      Extended(before, node);
      FailsAt(chain);
      assert Views(chain) == blocks;
      assert Fails(chain) == old(Fails(chain)) + [node.failed];
    }

    method AppendPage(page: nat) returns (node: SmallNode)
      requires Valid() && page != 0 && Unused(page, PAGE_SIZE)
      modifies this`current, this`chain, this`cursor, chain`failed, chain`next
      ensures Valid() && fresh(node) && chain == old(chain) + [node]
      ensures node.at == page && node.end == page + PAGE_SIZE && node.last == page + SMALL_NODE && page % ALIGNMENT == 0
      ensures Views(chain) == old(Views(chain)) + [NewPage(page)]
      ensures (Fails(chain), cursor) == PageAdded(old(Fails(chain)), old(cursor))
    {
      hide Consistent, Records, BigApart, Linked, PageAdded, Fails;
      ghost var blocks := Views(chain);
      UnusedPage(blocks, live, page);
      BigUnused(chain, big, page);
      AtCursor();
      node := LinkPage(page);
      assert node.View() == Views(chain)[|chain| - 1];
      BigMore(old(chain), big, node);
      assert node.View() == Views(chain)[|chain| - 1];
    }

    lemma AtCursor()
      requires Linked()
      ensures cursor < |chain| && current == chain[cursor]
    {
    }

    // The large block at extra clears everything the pool owns and can be added to big.
    ghost predicate CanAdd(nodes: seq<SmallNode>, extra: nat, size: nat)
      requires POOL_BYTES < head.at
      reads `big
    {
      && 0 < extra && 0 < size && extra !in big && 0 !in big
      && BigApart(nodes, big[extra := size])
      && Clear(extra, extra + size, head.at - POOL_BYTES, head.at)
    }

    lemma UnusedCanAdd(extra: nat, size: nat)
      requires Valid() && Unused(extra, size) && 0 < size
      ensures POOL_BYTES < head.at && CanAdd(chain, extra, size) && extra !in big
    {
      hide Linked, Consistent, Records;
      BigFresh(chain, big, extra, size);
    }

    lemma StillCanAdd(before: seq<SmallNode>, page: nat, extra: nat, size: nat)
      requires POOL_BYTES < head.at && CanAdd(before, extra, size) && Grown(before, chain, page)
      requires page != 0 ==> Clear(extra, extra + size, page, page + PAGE_SIZE)
      requires Valid()
      ensures CanAdd(chain, extra, size)
    {
      hide Linked, Consistent, Records;
      if chain != before {
        assert chain == before + [chain[|before|]];
        BigMore(before, big[extra := size], chain[|before|]);
      }
    }

    // Enter the block in an empty record.
    method Reuse(node: LargeNode, size: nat, extra: nat, ghost i: nat)
      requires Valid() && CanAdd(chain, extra, size) && i < |larges| && larges[i] == node && node.address == 0
      modifies node`size, node`address, `big
      ensures Valid() && big == old(big)[extra := size]
      ensures Entries(larges) == old(Entries(larges))[i := Record(node.at, extra, size % WORD)]
    {
      hide Consistent, SmallList, Views, Entries, BigApart, Records;
      ghost var recs := Entries(larges);
      RecordsReuse(recs, live, big, i, extra, size);
      node.size := size % WORD;
      node.address := extra;
      big := big[extra := size];
      assert Entries(larges) == recs[i := Record(recs[i].at, extra, size % WORD)];
    }

    // Enter the block in a new record at the front of the list.
    method Enter(at: nat, size: nat, extra: nat)
      requires Valid() && CanAdd(chain, extra, size) && at in live && live[at] == LARGE_NODE
      requires forall i :: 0 <= i < |larges| ==> larges[i].at != at
      modifies `largeList, `larges, `big
      ensures Valid() && big == old(big)[extra := size]
      ensures |larges| == |old(larges)| + 1 && fresh(larges[0]) && larges[1..] == old(larges)
      ensures Entries(larges) == [Record(at, extra, size % WORD)] + old(Entries(larges))
    {
      hide Consistent, SmallList, Views, Entries, BigApart, Records;
      ghost var recs, before := Entries(larges), larges;
      RecordsNew(recs, live, big, at, extra, size);
      var node := new LargeNode(at, extra, size % WORD, largeList);
      largeList := node;
      larges := [node] + larges;
      big := big[extra := size];
      assert Entries(larges) == [Record(at, extra, size % WORD)] + recs;
      FrontList(before, node);
    }

    // A large block: reuse one of the first few empty records, or make a new one in the pool.
    // extra is where the system put the block, page where it would put a new page; 0 is refusal.
    method MallocLarge(size: nat, extra: nat, page: nat) returns (r: nat)
      requires Valid() && 0 < size
      requires extra != 0 ==> Unused(extra, size)
      requires page != 0 ==> Unused(page, PAGE_SIZE)
      requires extra != 0 && page != 0 ==> Clear(extra, extra + size, page, page + PAGE_SIZE)
      modifies this, chain, larges
      ensures Valid() && Grown(old(chain), chain, page)
      ensures forall n <- chain :: n in old(chain) || fresh(n)
      ensures r == 0 ==> big == old(big) && live == old(live) && (extra == 0 || page == 0)
      ensures r != 0 ==> r == extra && r !in old(big) && big == old(big)[r := size]
      ensures r != 0 ==> live == old(live) || NewRecord(old(live), live)
      ensures r != 0 ==> EnteredIn(old(Entries(larges)), Entries(larges), size, extra)
      ensures r != 0 && FirstEmpty(old(Entries(larges)), 0) < |old(larges)| ==> live == old(live)
    {
      hide Valid, CanAdd, Unused, NewRecord, Clear, Grown;
      SameChain(page);
      if extra == 0 {
        return 0;
      }
      UnusedCanAdd(extra, size);
      var count := 0;
      var node := largeList;
      ghost var i, recs := 0, Entries(larges);
      LargeStart();
      while node != null
        invariant Valid() && CanAdd(chain, extra, size) && chain == old(chain) && live == old(live) &&
          larges == old(larges) && big == old(big)
        invariant page != 0 ==> Unused(page, PAGE_SIZE)
        invariant 0 <= i <= |larges| && node == if i < |larges| then larges[i] else null
        invariant Entries(larges) == recs && i == count <= 5 && FirstEmpty(recs, 0) == FirstEmpty(recs, i)
        decreases |larges| - i
      {
        FirstEmptyStep(recs, i);
        if node.address == 0 {
          Reuse(node, size, extra, i);
          return extra;
        }
        FirstEmptyStep(recs, i + 1);
        if count > 3 { break; }
        count := count + 1;
        LargeNext(i);
        node := node.next;
        i := i + 1;
      }
      FirstEmptyStep(recs, i);
      r := MallocRecord(size, extra, page);
    }

    // No empty record was found: the pool itself supplies one.
    method MallocRecord(size: nat, extra: nat, page: nat) returns (r: nat)
      requires Valid() && POOL_BYTES < head.at && 0 < extra && CanAdd(chain, extra, size)
      requires page != 0 ==> Unused(page, PAGE_SIZE) && Clear(extra, extra + size, page, page + PAGE_SIZE)
      modifies this, chain
      ensures Valid() && Grown(old(chain), chain, page)
      ensures forall n <- chain :: n in old(chain) || fresh(n)
      ensures r == 0 ==> big == old(big) && live == old(live) && page == 0
      ensures r != 0 ==> r == extra && big == old(big)[r := size] && NewRecord(old(live), live)
      ensures r != 0 ==> exists at :: Entries(larges) == [Record(at, extra, size % WORD)] + old(Entries(larges))
    {
      hide Valid, CanAdd, Unused, NewRecord, Clear, Grown, Views, Entries, Allocated, PlacedAt, Searched,
        SmallNode.View;
      RecordsLive();
      r := MallocSmall(LARGE_NODE, page);
      if r != 0 {
        IsNewRecord(old(live), live, r);
        StillCanAdd(old(chain), page, extra, size);
        Enter(r, size, extra);
        r := extra;
      }
    }

    lemma SameChain(page: nat)
      ensures Grown(chain, chain, page)
    {
    }

    lemma LargeStart()
      requires Valid()
      ensures largeList == if larges == [] then null else larges[0]
    {
    }

    lemma LargeNext(i: nat)
      requires Valid() && i < |larges|
      ensures larges[i].next == if i + 1 < |larges| then larges[i + 1] else null
    {
    }

    lemma RecordsLive()
      requires Valid()
      ensures forall i :: 0 <= i < |larges| ==> larges[i].at in live
    {
    }

    // The allocator's entry point.  A result of 0 means that nothing was allocated.
    method Malloc(size: nat, extra: nat, page: nat) returns (r: nat)
      requires Valid() && size < SIZE_T
      requires extra != 0 ==> Unused(extra, size)
      requires page != 0 ==> Unused(page, PAGE_SIZE)
      requires extra != 0 && page != 0 ==> Clear(extra, extra + size, page, page + PAGE_SIZE)
      modifies this, chain, larges
      ensures Valid() && Grown(old(chain), chain, page)
      ensures forall n <- chain :: n in old(chain) || fresh(n)
      ensures r == 0 ==> live == old(live) && big == old(big) && (size == 0 || page == 0 || extra == 0)
      ensures 0 < size <= PAGE_SIZE - SMALL_NODE ==>
        && old(cursor < |chain|) && r == PlacedAt(old(Views(chain)), old(cursor), size, page)
        && Views(chain) == Allocated(old(Views(chain)), old(cursor), size, page)
        && (Fails(chain), cursor) == Searched(old(Views(chain)), old(Fails(chain)), old(cursor), size, page)
      ensures size <= 4064 ==> larges == old(larges)
      ensures 0 < size <= 4064 ==> ServedAs(old(Views(chain)), Views(chain), old(cursor), size, page, r)
      ensures 0 < size <= 4064 && r != 0 ==> exists i ::
        && 0 <= i < |chain| && chain[i].last == r + size
        && chain[i].quote == (if i < |old(chain)| then old(chain[i].quote) else 0) + 1
        && forall j :: 0 <= j < |old(chain)| && j != i ==>
             chain[j].last == old(chain[j].last) && chain[j].quote == old(chain[j].quote)
      ensures r != 0 && size <= PAGE_SIZE - SMALL_NODE ==>
        0 < size && r !in old(live) && live == old(live)[r := size] && big == old(big)
      ensures r != 0 && size > PAGE_SIZE - SMALL_NODE ==>
        r == extra && r !in old(big) && big == old(big)[r := size] && (live == old(live) || NewRecord(old(live), live))
    {
      hide Valid, Unused, NewRecord, Clear, Grown, Views, Fails, PlacedAt, Allocated, Searched, ServedAs;
      SameChain(page);
      if size <= 0 {
        return 0;
      }
      if size > PAGE_SIZE - SMALL_NODE {
        r := MallocLarge(size, extra, page);
      } else {
        r := MallocSmall(size, page);
        Served(old(Views(chain)), old(cursor), size, page);
        if r != 0 { ghost var i := UsedNode(old(Views(chain)), old(cursor), size, page, r); }
      }
    }

    // The node that holds the allocation is used up to its end and no further.
    lemma UsedNode(before: seq<Block>, at: nat, size: nat, page: nat, r: nat) returns (i: nat)
      requires ServedAs(before, Views(chain), at, size, page, r) && r != 0
      ensures i < |chain| && chain[i].last == r + size && |before| <= |chain|
      ensures forall j :: 0 <= j < |before| && j != i ==>
        chain[j].last == before[j].last && chain[j].quote == before[j].quote
      ensures chain[i].quote == (if i < |before| then before[i].quote else 0) + 1
    {
      hide Align;
      i := FirstFitOf(before, at, size);
    }

    lemma BlockView(i: nat)
      requires Valid() && i < |chain|
      ensures |Views(chain)| == |chain| && Views(chain)[i] == chain[i].View() && Separate(Views(chain))
      ensures cursor < |chain|
    {
      ConsistentSeparate(Views(chain), live);
    }

    lemma Ranges()
      requires Valid()
      ensures forall j :: 0 <= j < |chain| ==> Views(chain)[j].at == chain[j].at && Views(chain)[j].end == chain[j].end
    {
    }

    // A small allocation just made can be given back.
    lemma SmallOwned(r: nat, before: map<nat, nat>)
      requires Valid() && r in live && forall j :: 0 <= j < |larges| ==> larges[j].at in before
      requires r !in before
      ensures Owned(r) && r !in big
    {
      NotBoth(r);
    }

    lemma CurrentView()
      requires Valid()
      ensures cursor < |chain| == |Views(chain)| && current == chain[cursor] && Views(chain)[cursor] == current.View()
      ensures 0 < current.last <= Align(current.last)
    {
    }

    // ---- giving back ----

    // p is something the pool handed out and has not been given back since.
    ghost predicate Owned(p: nat)
      reads this, larges
    {
      p in big || (p in live && forall i :: 0 <= i < |larges| ==> larges[i].at != p)
    }

    // Give back one allocation; a block whose last allocation goes is used from the start again.
    // i is the block's place in the list, for a small one.
    method FreeMemory(p: nat) returns (ghost i: nat)
      requires Valid() && Owned(p)
      modifies this, chain, larges
      ensures Valid() && chain == old(chain) && larges == old(larges)
      ensures p in old(big) ==> big == old(big) - {p} && live == old(live)
      ensures p !in old(big) ==> live == old(live) - {p} && big == old(big)
      ensures p !in old(big) ==>
        FreedAs(old(Views(chain)), Views(chain), old(Fails(chain)), Fails(chain), i, p, old(cursor), cursor)
    {
      hide Valid, FreedAs, Fails, Views;
      i := 0;
      NotBoth(p);
      var large := largeList;
      ghost var k := 0;
      LargeStart();
      while large != null
        invariant 0 <= k <= |larges| && large == if k < |larges| then larges[k] else null
        invariant forall j :: 0 <= j < k ==> larges[j].address != p
        invariant Valid() && Owned(p) && chain == old(chain) && larges == old(larges) && live == old(live) &&
          big == old(big)
        invariant Views(chain) == old(Views(chain)) && cursor == old(cursor) && Fails(chain) == old(Fails(chain))
        decreases |larges| - k
      {
        if large.address == p {
          EntryLive(k);
          FreeLarge(large, k);
          return;
        }
        LargeNext(k);
        large := large.next;
        k := k + 1;
      }
      AllEntries(p);
      i := FreeSmall(p);
    }

    method FreeLarge(large: LargeNode, ghost i: nat)
      requires Valid() && i < |larges| && larges[i] == large && large.address != 0
      modifies large`size, large`address, `big
      ensures Valid() && big == old(big) - {old(large.address)}
    {
      hide Consistent, SmallList, Views, Entries, BigApart, Records;
      ghost var recs := Entries(larges);
      RecordsFreed(recs, live, big, i);
      BigLess(chain, big, large.address);
      big := big - {large.address};
      large.size := 0;
      large.address := 0;
      assert Entries(larges) == recs[i := Record(recs[i].at, 0, 0)];
    }

    method FreeSmall(p: nat) returns (ghost i: nat)
      requires Valid() && p in live && p !in big && Owned(p)
      modifies `current, `cursor, `live, chain
      ensures Valid() && live == old(live) - {p} && chain == old(chain)
      ensures FreedAs(old(Views(chain)), Views(chain), old(Fails(chain)), Fails(chain), i, p, old(cursor), cursor)
    {
      hide Valid, Views, Fails, Owned, Released, SmallNode.View, FreedAs;
      SomeBlockOf(p);
      var small: SmallNode? := head;
      i := 0;
      ghost var blocks := Views(chain);
      while small != null
        invariant 0 <= i <= |chain| && small == if i < |chain| then chain[i] else null
        invariant forall j :: 0 <= j < i ==> !(chain[j].at <= p <= chain[j].end)
        invariant Valid() && p in live && Owned(p) && live == old(live)
        invariant Views(chain) == blocks && cursor == old(cursor)
        invariant Fails(chain) == old(Fails(chain)) && chain == old(chain)
        invariant exists j :: 0 <= j < |chain| && chain[j].at <= p <= chain[j].end
        decreases |chain| - i
      {
        if small.at <= p <= small.end {
          NodesApart(i);
          FailsAt(chain);
          ghost var fails := Fails(chain);
          Release(small, p, i);
          FailsAt(chain);
          assert forall j :: 0 <= j < |fails| && j != i ==> Fails(chain)[j] == fails[j];
          Freed(blocks, Views(chain), fails, Fails(chain), i, p, old(cursor), cursor);
          return;
        }
        NextOf(i);
        small := small.next;
        i := i + 1;
      }
    }

    lemma BlockAt(i: nat)
      requires i < |chain|
      ensures Views(chain)[i].at == chain[i].at && Views(chain)[i].end == chain[i].end
    {
    }

    lemma NodesApart(i: nat)
      requires Valid() && i < |chain|
      ensures forall j :: 0 <= j < |chain| && j != i ==> chain[j] != chain[i]
      ensures chain[i].at == Views(chain)[i].at && chain[i].end == Views(chain)[i].end
      ensures chain[i].quote == Views(chain)[i].quote
    {
    }

    method Release(small: SmallNode, p: nat, ghost i: nat)
      requires Valid() && Owned(p) && p in live && p !in big && i < |chain| && chain[i] == small &&
        small.at <= p <= small.end
      modifies `current, `cursor, `live, small`quote, small`last, small`failed
      ensures Valid() && live == old(live) - {p}
      ensures Views(chain) == old(Views(chain))[i := Released(old(Views(chain))[i])]
      ensures 0 < old(Views(chain))[i].quote
      ensures if old(small.quote) == 1
              then small.last == small.at + 32 && small.quote == 0 && small.failed == 0 && cursor == 0
              else
                && small.last == old(small.last) && small.quote == old(small.quote) - 1
                && small.failed == old(small.failed) && cursor == old(cursor)
    {
      hide Consistent, Views, Entries, BigApart, Records, Clear, LargeList;
      ghost var blocks := Views(chain);
      ReleaseConsistent(blocks, live, i, p);
      Referred(blocks, live, i, p);
      RecordsShrink(Entries(larges), live, big, p);
      DropCount(small, i);
      live := live - {p};
    }

    // One reference less; at zero the block is rewound and searching starts from the head again.
    method DropCount(small: SmallNode, ghost i: nat)
      requires Linked() && i < |chain| && chain[i] == small
      modifies `current, `cursor, small`quote, small`last, small`failed
      ensures Linked() && Views(chain) == old(Views(chain))[i := Released(old(small.View()))]
      ensures 0 < old(small.quote) ==> small.quote == old(small.quote) - 1
      ensures small.last == if small.quote == 0 then small.at + 32 else old(small.last)
      ensures if small.quote == 0 then cursor == 0 && small.failed == 0
              else cursor == old(cursor) && small.failed == old(small.failed)
    {
      hide Views, LargeList;
      ghost var blocks := Views(chain);
      small.quote := if small.quote == 0 then 0xFFFF_FFFF else small.quote - 1;
      if small.quote == 0 {
        if small == head {
          head.last := head.at + SMALL_NODE;
        } else {
          small.last := small.at + SMALL_NODE;
        }
        small.failed := 0;
        current := head;
        cursor := 0;
      }
      assert Views(chain) == blocks[i := Released(blocks[i])];
    }

    lemma NotBoth(p: nat)
      requires Valid() && Owned(p)
      ensures p != 0 && (p in live ==> p !in big)
    {
      hide Records, Linked;
      InOrOut(Views(chain), live, p);
      hide Consistent;
    }

    lemma EntryLive(i: nat)
      requires Valid() && i < |larges| && larges[i].address != 0
      ensures larges[i].address in big
    {
      assert Entries(larges)[i].address in big;
    }

    lemma AllEntries(p: nat)
      requires Valid() && forall j :: 0 <= j < |larges| ==> larges[j].address != p
      ensures p !in big
    {
      assert p in big ==> Recorded(Entries(larges), p);
    }

    lemma SomeBlockOf(p: nat)
      requires Valid() && p in live
      ensures exists j :: 0 <= j < |chain| && chain[j].at <= p <= chain[j].end
      ensures 0 < |chain| && chain[0] == head
    {
    }

    lemma NextOf(i: nat)
      requires Valid() && i < |chain|
      ensures chain[i].next == if i + 1 < |chain| then chain[i + 1] else null
    {
    }

    // Forget every allocation: all blocks are kept and rewound, all large blocks given back.
    method ResetPool()
      requires Valid()
      modifies this, chain
      ensures Valid() && chain == old(chain) && larges == [] && live == map[] && big == map[]
      ensures current == head && forall n <- chain :: n.last == n.at + 32 && n.quote == 0 && n.failed == 0
    {
      hide Consistent, Views, Entries, BigApart, Records, Clear, SmallList, Separate;
      ghost var blocks := Views(chain);
      ConsistentSeparate(blocks, live);
      assert SmallList(chain);
      ForgetAll();
      RewindAll();
      ResetConsistent(blocks, Views(chain));
      NothingLeft(Entries(larges), chain);
    }

    method ForgetAll()
      requires 0 < |chain| && head == chain[0] && SmallList(chain)
      modifies `largeList, `larges, `current, `cursor, `live, `big
      ensures largeList == null && larges == [] && current == head && cursor == 0 && live == map[] && big == map[]
      ensures SmallList(chain) && Views(chain) == old(Views(chain))
    {
      largeList := null;
      larges := [];
      current := head;
      cursor := 0;
      live, big := map[], map[];
    }

    method RewindAll()
      requires 0 < |chain| && chain[0] == head && SmallList(chain)
      modifies chain`last, chain`failed, chain`quote
      ensures SmallList(chain)
      ensures forall n <- chain :: n.last == n.at + SMALL_NODE && n.quote == 0 && n.failed == 0
      ensures forall i :: 0 <= i < |chain| ==>
        Views(chain)[i] == old(Views(chain))[i].(last := old(Views(chain))[i].Start(), quote := 0)
    {
      var small: SmallNode? := head;
      ghost var i := 0;
      while small != null
        invariant 0 <= i <= |chain| && small == if i < |chain| then chain[i] else null
        invariant forall j :: 0 <= j < i ==>
          chain[j].last == chain[j].at + SMALL_NODE && chain[j].quote == 0 && chain[j].failed == 0
        decreases |chain| - i
      {
        small.last := small.at + SMALL_NODE;
        small.failed := 0;
        small.quote := 0;
        small := small.next;
        i := i + 1;
      }
    }
  }

  // ---- what the calls do together ----

  // Two allocations for which the block where searching starts has room lie behind each
  // other in it, as close as alignment allows, whatever pages the system could supply.
  method TwoMallocs(pool: MemoryPool, s: nat, t: nat, page: nat, page': nat) returns (r: nat, q: nat)
    requires pool.Valid() && 0 < s <= 4064 && 0 < t <= 4064
    requires (page != 0 ==> pool.Unused(page, PAGE_SIZE)) && (page' != 0 ==> pool.Unused(page', PAGE_SIZE))
    requires Align(Align(pool.current.last) + s) + t <= pool.current.end
    modifies pool, pool.chain, pool.larges
    ensures pool.Valid() && pool.chain == old(pool.chain)
    ensures r % 16 == 0 && old(pool.current.last) <= r < old(pool.current.last) + 16
    ensures q % 16 == 0 && r + s <= q < r + s + 16
  {
    hide MemoryPool.Valid, MemoryPool.Unused;
    r := FirstOf(pool, s, page, page');
    q := FirstOf(pool, t, page', 0);
  }

  // One allocation for which the block where searching starts has room.
  method FirstOf(pool: MemoryPool, s: nat, page: nat, page': nat) returns (r: nat)
    requires pool.Valid() && 0 < s <= 4064
    requires (page != 0 ==> pool.Unused(page, PAGE_SIZE)) && (page' != 0 ==> pool.Unused(page', PAGE_SIZE))
    requires Align(pool.current.last) + s <= pool.current.end
    modifies pool, pool.chain, pool.larges
    ensures pool.Valid() && pool.chain == old(pool.chain) && pool.larges == old(pool.larges)
    ensures pool.current == old(pool.current)
    ensures page' != 0 ==> pool.Unused(page', PAGE_SIZE)
    ensures r == Align(old(pool.current.last)) && pool.current.last == r + s
  {
    hide MemoryPool.Valid, Views, Fails, PlacedAt, Allocated, Align, Clear, ServedAs, FirstRoom;
    pool.CurrentView();
    ghost var blocks, at := Views(pool.chain), pool.cursor;
    ServedAt(blocks, at, s, page, at);
    r := pool.Malloc(s, 0, page);
    pool.CurrentView();
  }

  // An allocation served by a block that had none, given back, leaves room for one of its size
  // without a page; in a pool of one block it comes out at the same address.
  method Recycle(pool: MemoryPool, size: nat, page: nat, ghost i: nat) returns (r: nat, q: nat)
    requires pool.Valid() && 0 < size <= 4064 && (page != 0 ==> pool.Unused(page, PAGE_SIZE))
    requires pool.cursor <= i < |pool.chain| && NoRoom(Views(pool.chain), pool.cursor, i, size)
    requires Align(pool.chain[i].last) + size <= pool.chain[i].end && pool.chain[i].quote == 0
    modifies pool, pool.chain, pool.larges
    ensures pool.Valid() && pool.chain == old(pool.chain) && q != 0
    ensures |pool.chain| == 1 ==> q == r
  {
    hide MemoryPool.Valid, MemoryPool.Unused, Views, Fails, PlacedAt, Allocated, Align, Searched, NoRoom, ServedAs,
         FreedAs, NewRecord, MemoryPool.Owned;
    ghost var blocks := Views(pool.chain);
    pool.BlockView(i);
    r := TakeFrom(pool, size, page, i);
    ghost var used, fails, at := Views(pool.chain), Fails(pool.chain), pool.cursor;
    pool.Ranges();
    ghost var k := pool.FreeMemory(r);
    pool.Ranges();
    Recycled(blocks, used, Views(pool.chain), fails, Fails(pool.chain), i, k, size, r, at, pool.cursor);
    RoomServes(Views(pool.chain), size, i);
    q := pool.Malloc(size, 0, 0);
  }

  // Node i is the first with room.
  method TakeFrom(pool: MemoryPool, size: nat, page: nat, ghost i: nat) returns (r: nat)
    requires pool.Valid() && 0 < size <= 4064 && (page != 0 ==> pool.Unused(page, PAGE_SIZE))
    requires pool.cursor <= i < |pool.chain| && NoRoom(Views(pool.chain), pool.cursor, i, size)
    requires Align(pool.chain[i].last) + size <= pool.chain[i].end
    modifies pool, pool.chain, pool.larges
    ensures pool.Valid() && pool.chain == old(pool.chain) && pool.larges == old(pool.larges)
    ensures pool.Owned(r) && r !in pool.big && r == Align(old(pool.chain[i].last))
    ensures var b := old(pool.chain[i].View());
            Views(pool.chain) == old(Views(pool.chain))[i := Block(b.at, b.end, r + size, b.quote + 1)]
  {
    hide MemoryPool.Valid, MemoryPool.Unused, Views, Fails, PlacedAt, Allocated, Align, Searched, ServedAs,
         NewRecord, MemoryPool.Owned;
    pool.RecordsLive();
    pool.BlockView(i);
    ServedAt(Views(pool.chain), pool.cursor, size, page, i);
    RoomAbove(Views(pool.chain), i);
    r := pool.Malloc(size, 0, page);
    pool.SmallOwned(r, old(pool.live));
  }

  lemma RoomAbove(blocks: seq<Block>, i: nat)
    requires Separate(blocks) && i < |blocks|
    ensures 0 < Align(blocks[i].last)
  {
  }

  // The block is again as it was before the allocation, and searching starts from the first.
  lemma Recycled(blocks: seq<Block>, used: seq<Block>, after: seq<Block>, fails: seq<nat>, fails': seq<nat>,
                 i: nat, k: nat, size: nat, r: nat, at: nat, at': nat)
    requires Separate(blocks) && i < |blocks| && blocks[i].quote == 0 && 0 < size
    requires r == Align(blocks[i].last) && r + size <= blocks[i].end
    requires used == blocks[i := Block(blocks[i].at, blocks[i].end, r + size, 1)]
    requires FreedAs(used, after, fails, fails', k, r, at, at')
    requires forall j :: 0 <= j < |after| ==> after[j].at == used[j].at && after[j].end == used[j].end
    ensures k == i && after == blocks && at' == 0
  {
    hide Align;
    if k != i { PairApart(blocks, i, k); }
  }

  lemma RoomServes(blocks: seq<Block>, size: nat, i: nat)
    requires Separate(blocks) && i < |blocks| && Align(blocks[i].last) + size <= blocks[i].end
    ensures PlacedAt(blocks, 0, size, 0) != 0
    ensures |blocks| == 1 ==> PlacedAt(blocks, 0, size, 0) == Align(blocks[0].last)
  {
    hide PlacedAt, Allocated, FirstRoom;
    var j := FirstFitOf(blocks, 0, size);
    assert j < |blocks|;
    ServedAt(blocks, 0, size, 0, j);
  }

  lemma ConsistentSeparate(blocks: seq<Block>, live: map<nat, nat>)
    requires Consistent(blocks, live)
    ensures Separate(blocks)
  {
  }

  // An allocation starts strictly inside the range of a block.
  lemma InOrOut(blocks: seq<Block>, live: map<nat, nat>, p: nat)
    requires Consistent(blocks, live)
    ensures p in live ==> exists i :: 0 <= i < |blocks| && 0 < blocks[i].at < p < blocks[i].end
  {
    if p in live {
      assert Placed(blocks, p, live[p]);
      var i :| 0 <= i < |blocks| && blocks[i].Holds(p, live[p]);
      assert 0 < blocks[i].at < p < blocks[i].end;
    }
  }

  lemma NothingLeft(recs: seq<Record>, nodes: seq<SmallNode>)
    ensures recs == [] ==> Records(recs, map[], map[])
    ensures BigApart(nodes, map[])
  {
  }

  lemma BigLess(nodes: seq<SmallNode>, big: map<nat, nat>, a: nat)
    requires BigApart(nodes, big)
    ensures BigApart(nodes, big - {a})
  {
  }

  lemma FrontList(before: seq<LargeNode>, node: LargeNode)
    requires LargeList(before) && node !in before && node.next == if before == [] then null else before[0]
    ensures LargeList([node] + before)
  {
  }

  lemma ViewsMore(nodes: seq<SmallNode>, node: SmallNode)
    ensures Views(nodes + [node]) == Views(nodes) + [node.View()]
  {
  }

  lemma InnerLinks(nodes: seq<SmallNode>)
    requires SmallList(nodes)
    ensures forall i, j :: 0 <= i < j < |nodes| ==> nodes[i] != nodes[j]
    ensures forall i {:trigger nodes[i].next} :: 0 <= i < |nodes| - 1 ==> nodes[i].next == nodes[i + 1]
  {
  }

  lemma Extended(before: seq<SmallNode>, node: SmallNode)
    requires before != [] && node !in before
    requires forall i, j :: 0 <= i < j < |before| ==> before[i] != before[j]
    requires forall i {:trigger before[i].next} :: 0 <= i < |before| - 1 ==> before[i].next == before[i + 1]
    requires before[|before| - 1].next == node && node.next == null
    ensures SmallList(before + [node])
  {
  }

  lemma BigUnused(nodes: seq<SmallNode>, big: map<nat, nat>, page: nat)
    requires forall a <- big :: Clear(page, page + PAGE_SIZE, a, a + big[a])
    ensures forall a <- big :: Clear(a, a + big[a], page, page + PAGE_SIZE)
  {
  }

  lemma BigMore(nodes: seq<SmallNode>, big: map<nat, nat>, node: SmallNode)
    requires BigApart(nodes, big) && forall a <- big :: Clear(a, a + big[a], node.at, node.end)
    ensures BigApart(nodes + [node], big)
  {
  }

  lemma BigFresh(nodes: seq<SmallNode>, big: map<nat, nat>, extra: nat, size: nat)
    requires BigApart(nodes, big) && 0 < size && 0 < extra
    requires forall i :: 0 <= i < |nodes| ==> Clear(extra, extra + size, nodes[i].at, nodes[i].end)
    requires forall a <- big :: Clear(extra, extra + size, a, a + big[a])
    ensures extra !in big && 0 !in big && BigApart(nodes, big[extra := size])
  {
  }

  lemma FirstFit(page: nat, size: nat)
    requires page % ALIGNMENT == 0 && size <= PAGE_SIZE - SMALL_NODE
    ensures Align(page + SMALL_NODE) + size <= page + PAGE_SIZE
  {
  }

  // A page clear of everything the pool owns can join the blocks.
  lemma UnusedPage(blocks: seq<Block>, live: map<nat, nat>, page: nat)
    requires Consistent(blocks, live) && 0 < page && page % ALIGNMENT == 0
    requires forall i :: 0 <= i < |blocks| ==> Clear(page, page + PAGE_SIZE, blocks[i].at, blocks[i].end)
    ensures Consistent(blocks + [Block(page, page + PAGE_SIZE, page + SMALL_NODE, 0)], live)
  {
    AddBlock(blocks, live, page);
  }

  lemma RoomAt(blocks: seq<Block>, live: map<nat, nat>, i: nat)
    requires Consistent(blocks, live) && i < |blocks|
    ensures blocks[i].last <= Align(blocks[i].last) <= blocks[i].end && blocks[i].end <= blocks[i].at + PAGE_SIZE &&
      0 < blocks[i].last
  {
  }

  lemma RecordsGrow(recs: seq<Record>, live: map<nat, nat>, big: map<nat, nat>, a: nat, size: nat)
    requires Records(recs, live, big) && a !in live
    ensures Records(recs, live[a := size], big)
  {
  }

  // A large block that is entered in an empty record, or in a new one.
  lemma RecordsReuse(recs: seq<Record>, live: map<nat, nat>, big: map<nat, nat>, i: nat, address: nat, size: nat)
    requires Records(recs, live, big) && i < |recs| && recs[i].address == 0 && address !in big && 0 !in big
    ensures Records(recs[i := Record(recs[i].at, address, size % WORD)], live, big[address := size])
  {
    var after := recs[i := Record(recs[i].at, address, size % WORD)];
    forall a | a in big[address := size]
      ensures Recorded(after, a)
    {
      if a == address {
        assert after[i].address == a;
      } else {
        var j :| 0 <= j < |recs| && recs[j].address == a;
        assert after[j].address == a;
      }
    }
  }

  lemma RecordsNew(recs: seq<Record>, live: map<nat, nat>, big: map<nat, nat>, at: nat, address: nat, size: nat)
    requires Records(recs, live, big) && at in live && live[at] == LARGE_NODE && address !in big
    requires forall i :: 0 <= i < |recs| ==> recs[i].at != at
    ensures Records([Record(at, address, size % WORD)] + recs, live, big[address := size])
  {
    var after := [Record(at, address, size % WORD)] + recs;
    forall a | a in big[address := size]
      ensures Recorded(after, a)
    {
      if a == address {
        assert after[0].address == a;
      } else {
        var j :| 0 <= j < |recs| && recs[j].address == a;
        assert after[j + 1].address == a;
      }
    }
  }

  lemma RecordsFreed(recs: seq<Record>, live: map<nat, nat>, big: map<nat, nat>, i: nat)
    requires Records(recs, live, big) && i < |recs| && recs[i].address != 0
    ensures Records(recs[i := Record(recs[i].at, 0, 0)], live, big - {recs[i].address})
  {
    var after := recs[i := Record(recs[i].at, 0, 0)];
    forall a | a in big - {recs[i].address}
      ensures Recorded(after, a)
    {
      var j :| 0 <= j < |recs| && recs[j].address == a;
      assert after[j].address == a;
    }
  }

  // Freeing a small allocation that is not a record leaves the records alone.
  lemma RecordsShrink(recs: seq<Record>, live: map<nat, nat>, big: map<nat, nat>, p: nat)
    requires Records(recs, live, big) && forall i :: 0 <= i < |recs| ==> recs[i].at != p
    ensures Records(recs, live - {p}, big)
  {
  }

}
