// The page blocks of the memory pool as values: what is allocated in them and why
// bumping, adding a block and rewinding keep the allocations apart.
module PoolBlocks {
  const PAGE_SIZE: nat := 4096
  const ALIGNMENT: nat := 16
  const POOL_BYTES: nat := 24
  const SMALL_NODE: nat := 32
  const LARGE_NODE: nat := 24

  // mp_align on machine words.
  function MpAlign(n: bv64, alignment: bv64): bv64 { (n + alignment - 1) & !(alignment - 1) }

  // The result is a multiple of 16 and, unless the sum wraps, one of n .. n + 15: the least such multiple.
  lemma MpAlignMultiple(n: bv64)
    ensures MpAlign(n, 16) & 15 == 0
  {
  }

  lemma MpAlignAbove(n: bv64)
    requires n <= 0xFFFF_FFFF_FFFF_FFF0
    ensures n <= MpAlign(n, 16) && MpAlign(n, 16) - n <= 15
  {
  }

  // The same on addresses as numbers.
  function Align(n: nat): (r: nat)
    ensures r % ALIGNMENT == 0 && n <= r < n + ALIGNMENT
  {
    (n + ALIGNMENT - 1) / ALIGNMENT * ALIGNMENT
  }

  lemma AlignLeast(n: nat, m: nat)
    requires n <= m && m % ALIGNMENT == 0
    ensures Align(n) <= m
  {
  }

  lemma OnlyMultiple(n: nat, r: nat)
    requires r % ALIGNMENT == 0 && n <= r < n + ALIGNMENT
    ensures r == Align(n)
  {
  }

  // ---- words and numbers are aligned alike ----

  function Half(x: bv64): bv64 { x >> 1 }

  predicate Odd(x: bv64) { x & 1 != 0 }

  function Next(x: bv64): bv64 { x + 1 }

  predicate Greatest(x: bv64) { x == 0xFFFF_FFFF_FFFF_FFFF }

  // The number a word stands for, bit by bit.
  function Val(x: bv64): nat
    decreases x
  {
    HalfLess(x);
    if x == 0 then 0 else 2 * Val(Half(x)) + if Odd(x) then 1 else 0
  }

  lemma HalfLess(x: bv64)
    ensures if x == 0 then Half(x) == 0 && !Odd(x) else Half(x) < x
  {
  }

  lemma Halves(x: bv64)
    ensures Val(x) == 2 * Val(Half(x)) + if Odd(x) then 1 else 0
  {
    hide Half, Odd;
    HalfLess(x);
  }

  lemma Doubled(w: bv64, b: bv64)
    requires w <= 0x7FFF_FFFF_FFFF_FFFF && b <= 1
    ensures (2 * w + b) >> 1 == w && (2 * w + b) & 1 == b
  {
  }

  lemma LowBit(x: bv64)
    ensures x == 2 * (x >> 1) + (x & 1) && x >> 1 <= 0x7FFF_FFFF_FFFF_FFFF && x & 1 <= 1
    ensures x != 0xFFFF_FFFF_FFFF_FFFF && x & 1 == 1 ==> x >> 1 != 0x7FFF_FFFF_FFFF_FFFF
  {
  }

  // Adding one sets a low bit that is clear, or clears it and carries.
  lemma NextBits(x: bv64)
    requires !Greatest(x)
    ensures Odd(Next(x)) != Odd(x)
    ensures Half(Next(x)) == if Odd(x) then Next(Half(x)) else Half(x)
    ensures Odd(x) ==> !Greatest(Half(x))
  {
    LowBit(x);
    if x & 1 == 0 {
      Doubled(x >> 1, 1);
    } else {
      Doubled((x >> 1) + 1, 0);
    }
  }

  lemma {:induction false} ValNext(x: bv64)
    requires !Greatest(x)
    ensures Val(Next(x)) == Val(x) + 1
    decreases x
  {
    hide Half, Odd, Next, Greatest, Val;
    NextBits(x);
    HalfLess(x);
    Halves(x);
    Halves(Next(x));
    if Odd(x) {
      ValNext(Half(x));
    }
  }

  function Sixteenth(x: bv64): bv64 { Half(Half(Half(Half(x)))) }

  predicate Aligned(x: bv64) { x & 15 == 0 }

  lemma AlignedBits(x: bv64)
    ensures Aligned(x) <==> !Odd(x) && !Odd(Half(x)) && !Odd(Half(Half(x))) && !Odd(Half(Half(Half(x))))
  {
  }

  lemma Sixteenths(x: bv64)
    ensures 16 * Val(Sixteenth(x)) <= Val(x) < 16 * Val(Sixteenth(x)) + 16
    ensures Aligned(x) <==> Val(x) == 16 * Val(Sixteenth(x))
  {
    hide Half, Odd, Aligned, Val;
    AlignedBits(x);
    Halves(x);
    Halves(Half(x));
    Halves(Half(Half(x)));
    Halves(Half(Half(Half(x))));
  }

  lemma SixteenthIs(x: bv64)
    ensures Sixteenth(x) == x >> 4 && x == 16 * (x >> 4) + (x & 15) && x >> 4 <= 0x0FFF_FFFF_FFFF_FFFF && x & 15 <= 15
    ensures x <= 0xFFFF_FFFF_FFFF_FFF0 && x & 15 != 0 ==> x >> 4 != 0x0FFF_FFFF_FFFF_FFFF
  {
  }

  lemma LowBitsCleared(w: bv64, k: bv64)
    requires w <= 0x0FFF_FFFF_FFFF_FFFF && k <= 15
    ensures (16 * w + k) & !15 == 16 * w && Aligned(16 * w) && (16 * w) >> 4 == w
  {
  }

  lemma MpAlignBits(n: bv64)
    requires n <= 0xFFFF_FFFF_FFFF_FFF0
    ensures Aligned(MpAlign(n, 16))
    ensures Sixteenth(MpAlign(n, 16)) == if Aligned(n) then Sixteenth(n) else Next(Sixteenth(n))
    ensures !Greatest(Sixteenth(n))
  {
    SixteenthIs(n);
    SixteenthIs(MpAlign(n, 16));
    if n & 15 == 0 {
      LowBitsCleared(n >> 4, 15);
    } else {
      LowBitsCleared((n >> 4) + 1, (n & 15) - 1);
    }
  }

  // Unless the sum wraps, aligning the word is aligning the number it stands for.
  lemma MpAlignIsAlign(n: bv64)
    requires n <= 0xFFFF_FFFF_FFFF_FFF0
    ensures Val(MpAlign(n, 16)) == Align(Val(n))
  {
    hide Next, Greatest, Val, Aligned, MpAlign, Sixteenth;
    MpAlignBits(n);
    Sixteenths(n);
    Sixteenths(MpAlign(n, 16));
    ValNext(Sixteenth(n));
  }

  // ---- blocks ----

  // at is the address of the block's SmallNode; the payload follows it.
  // last is where its used part ends; without allocations it is used from its start.
  datatype Block = Block(at: nat, end: nat, last: nat, quote: nat) {
    function Start(): nat { at + SMALL_NODE }

    ghost predicate Ok() {
      && 0 < at && Start() <= last <= end && end % ALIGNMENT == 0 && end <= at + PAGE_SIZE
      && (quote == 0 ==> last == Start())
    }

    ghost predicate Holds(a: nat, size: nat) { Start() <= a && a + size <= last }
  }

  ghost predicate Apart(b: Block, c: Block) { b.end <= c.at || c.end <= b.at }

  ghost predicate Separate(blocks: seq<Block>) {
    && (forall i :: 0 <= i < |blocks| ==> blocks[i].Ok())
    && (forall i, j :: 0 <= i < j < |blocks| ==> Apart(blocks[i], blocks[j]))
  }

  lemma PairApart(blocks: seq<Block>, i: nat, j: nat)
    requires Separate(blocks) && i < |blocks| && j < |blocks|
    ensures i != j ==> Apart(blocks[i], blocks[j])
  {
  }

  // Every allocation is aligned, not empty, and inside the used payload of some block;
  // no two overlap.
  ghost predicate Sound(blocks: seq<Block>, live: map<nat, nat>) {
    && (forall a <- live :: 0 < live[a] && a % ALIGNMENT == 0 && Placed(blocks, a, live[a]))
    && (forall a, b | a in live && b in live && a < b :: a + live[a] <= b)
  }

  ghost predicate Placed(blocks: seq<Block>, a: nat, size: nat) {
    exists i :: 0 <= i < |blocks| && blocks[i].Holds(a, size)
  }

  // The allocations of a block.
  ghost function Inside(b: Block, live: map<nat, nat>): set<nat> {
    set a | a in live && b.Start() <= a < b.end
  }

  ghost predicate Counted(blocks: seq<Block>, live: map<nat, nat>) {
    forall i :: 0 <= i < |blocks| ==> blocks[i].quote == |Inside(blocks[i], live)|
  }

  ghost predicate Consistent(blocks: seq<Block>, live: map<nat, nat>) {
    Separate(blocks) && Sound(blocks, live) && Counted(blocks, live)
  }

  // ---- bump allocation ----

  // The remaining room is never negative, so comparing it as an unsigned number is safe.
  lemma RoomLeft(b: Block)
    requires b.Ok()
    ensures b.last <= Align(b.last) <= b.end
  {
  }

  ghost function Bumped(b: Block, size: nat): Block { b.(last := Align(b.last) + size, quote := b.quote + 1) }

  // The first block from position at that has room, or the number of blocks if none has.
  function FirstRoom(blocks: seq<Block>, at: nat, size: nat): (k: nat)
    requires at <= |blocks|
    ensures at <= k <= |blocks|
    decreases |blocks| - at
  {
    if at == |blocks| || Align(blocks[at].last) + size <= blocks[at].end then at else FirstRoom(blocks, at + 1, size)
  }

  function NewPage(page: nat): Block { Block(page, page + PAGE_SIZE, page + SMALL_NODE, 0) }

  // Where a small allocation is placed, and the blocks after it; a page at 0 is none.
  function PlacedAt(blocks: seq<Block>, at: nat, size: nat, page: nat): nat
    requires at <= |blocks|
  {
    var k := FirstRoom(blocks, at, size);
    if k < |blocks| then Align(blocks[k].last) else if page == 0 then 0 else Align(page + SMALL_NODE)
  }

  ghost function Allocated(blocks: seq<Block>, at: nat, size: nat, page: nat): seq<Block>
    requires at <= |blocks|
  {
    var k := FirstRoom(blocks, at, size);
    if k < |blocks| then blocks[k := Bumped(blocks[k], size)]
    else if page == 0 then blocks
    else blocks + [Bumped(NewPage(page), size)]
  }

  lemma FirstRoomStep(blocks: seq<Block>, at: nat, size: nat)
    requires at <= |blocks|
    ensures at == |blocks| ==> FirstRoom(blocks, at, size) == at
    ensures at < |blocks| && Align(blocks[at].last) + size <= blocks[at].end ==> FirstRoom(blocks, at, size) == at
    ensures at < |blocks| && Align(blocks[at].last) + size > blocks[at].end ==>
              FirstRoom(blocks, at, size) == FirstRoom(blocks, at + 1, size)
  {
  }

  lemma AllocatedIs(blocks: seq<Block>, at: nat, size: nat, page: nat)
    requires at <= |blocks|
    ensures var k := FirstRoom(blocks, at, size);
            && PlacedAt(blocks, at, size, page) ==
               (if k < |blocks| then Align(blocks[k].last) else if page == 0 then 0 else Align(page + SMALL_NODE))
            && Allocated(blocks, at, size, page) ==
               if k < |blocks| then blocks[k := Bumped(blocks[k], size)]
               else if page == 0 then blocks
               else blocks + [Bumped(NewPage(page), size)]
  {
  }

  // First fit: the first block from position at with room for the aligned allocation takes it,
  // directly behind its used part.
  lemma {:induction false} ServedAt(blocks: seq<Block>, at: nat, size: nat, page: nat, i: nat)
    requires at <= i < |blocks| && Align(blocks[i].last) + size <= blocks[i].end
    requires forall j :: at <= j < i ==> Align(blocks[j].last) + size > blocks[j].end
    ensures FirstRoom(blocks, at, size) == i && PlacedAt(blocks, at, size, page) == Align(blocks[i].last)
    ensures var b := blocks[i];
            Allocated(blocks, at, size, page) ==
            blocks[i := Block(b.at, b.end, Align(b.last) + size, b.quote + 1)]
    decreases i - at
  {
    hide Align;
    if at < i { ServedAt(blocks, at + 1, size, page, i); }
  }

  // Without one a new page is used, if there is one.
  lemma {:induction false} ServedNew(blocks: seq<Block>, at: nat, size: nat, page: nat)
    requires at <= |blocks| && forall j :: at <= j < |blocks| ==> Align(blocks[j].last) + size > blocks[j].end
    ensures FirstRoom(blocks, at, size) == |blocks|
    ensures PlacedAt(blocks, at, size, page) == if page == 0 then 0 else Align(page + 32)
    ensures Allocated(blocks, at, size, page) ==
            if page == 0 then blocks else blocks + [Block(page, page + 4096, Align(page + 32) + size, 1)]
    decreases |blocks| - at
  {
    hide Align;
    if at < |blocks| { ServedNew(blocks, at + 1, size, page); }
  }

  // What a small allocation at r does to the blocks: it is behind the used part of the first
  // block from position at with room for it, aligned, or in a new page, and nothing else is
  // used up.
  ghost predicate ServedAs(before: seq<Block>, after: seq<Block>, at: nat, size: nat, page: nat, r: nat) {
    && |before| <= |after|
    && (forall i :: at <= i < |before| && NoRoom(before, at, i, size) &&
                    Align(before[i].last) + size <= before[i].end ==>
          && |after| == |before| && r == Align(before[i].last) && after[i].last == r + size
          && after[i].quote == before[i].quote + 1
          && forall j :: 0 <= j < |before| && j != i ==> after[j] == before[j])
    && (NoRoom(before, at, |before|, size) ==>
          && after[..|before|] == before && r == (if page == 0 then 0 else Align(page + 32))
          && if page == 0 then after == before
             else |after| == |before| + 1 && after[|before|] == Block(page, page + 4096, r + size, 1))
  }

  // None of the blocks from at up to k has room.
  ghost predicate NoRoom(blocks: seq<Block>, at: nat, k: nat, size: nat)
    requires k <= |blocks|
  {
    forall j :: at <= j < k ==> Align(blocks[j].last) + size > blocks[j].end
  }

  lemma {:induction false} FirstFitOf(blocks: seq<Block>, at: nat, size: nat) returns (i: nat)
    ensures if i < |blocks| then at <= i && Align(blocks[i].last) + size <= blocks[i].end && NoRoom(blocks, at, i, size)
            else i == |blocks| && NoRoom(blocks, at, i, size)
  {
    hide Align;
    i := at;
    while i < |blocks| && Align(blocks[i].last) + size > blocks[i].end
      invariant at <= i && NoRoom(blocks, at, if i < |blocks| then i else |blocks|, size)
    {
      i := i + 1;
    }
    if i > |blocks| { i := |blocks|; }
  }

  lemma Served(blocks: seq<Block>, at: nat, size: nat, page: nat)
    requires at <= |blocks|
    ensures ServedAs(blocks, Allocated(blocks, at, size, page), at, size, page, PlacedAt(blocks, at, size, page))
  {
    hide Align, PlacedAt, Allocated, FirstRoom;
    var i := FirstFitOf(blocks, at, size);
    if i < |blocks| {
      ServedAt(blocks, at, size, page, i);
      forall k | at <= k < |blocks| && Align(blocks[k].last) + size <= blocks[k].end && NoRoom(blocks, at, k, size)
        ensures k == i
      {
      }
    } else {
      ServedNew(blocks, at, size, page);
    }
  }

  // A block holds at most 255 allocations, so a 32-bit count never wraps.
  lemma CountFits(b: Block, live: map<nat, nat>)
    requires b.Ok() && forall a <- live :: a % ALIGNMENT == 0
    ensures |Inside(b, live)| <= 255
  {
    Spread(Inside(b, live), b.end, 255);
  }

  // Multiples of 16 below an end, and no further below than so many steps, are no more than that.
  lemma {:induction false} Spread(s: set<nat>, end: nat, k: nat)
    requires end % ALIGNMENT == 0 && forall a <- s :: a % ALIGNMENT == 0 && a < end <= a + ALIGNMENT * k
    ensures |s| <= k
    decreases k
  {
    if s != {} {
      var top: nat := end - ALIGNMENT;
      assert forall a <- s - {top} :: a < top;
      Spread(s - {top}, top, k - 1);
    }
  }

  // ---- failure counts ----

  const WORD: int := 0x1_0000_0000

  // Searching moves on past the last of the blocks from at to k that failed five times before.
  function SkipTo(fails: seq<nat>, at: nat, k: nat): (to: nat)
    requires at <= k < |fails|
    ensures at <= to <= k
    decreases k
  {
    if k == at then at else if fails[k - 1] >= 5 then k else SkipTo(fails, at, k - 1)
  }

  lemma SkipFrom(fails: seq<nat>, at: nat)
    requires at < |fails|
    ensures SkipTo(fails, at, at) == at
  {
  }

  lemma SkipStep(fails: seq<nat>, at: nat, k: nat)
    requires at <= k && k + 1 < |fails|
    ensures SkipTo(fails, at, k + 1) == if fails[k] >= 5 then k + 1 else SkipTo(fails, at, k)
  {
  }

  // Every block from at up to k has failed once more.
  function Raised(fails: seq<nat>, at: nat, k: nat): (r: seq<nat>)
    ensures |r| == |fails|
  {
    seq(|fails|, i requires 0 <= i < |fails| => if at <= i < k then (fails[i] + 1) % WORD else fails[i])
  }

  lemma RaisedStep(fails: seq<nat>, at: nat, k: nat)
    requires at <= k < |fails|
    ensures Raised(fails, at, k)[k] == fails[k]
    ensures Raised(fails, at, k)[k := (fails[k] + 1) % WORD] == Raised(fails, at, k + 1)
    ensures Raised(fails, at, at) == fails
  {
  }

  // What a new page does to the failure counts and to the position where searching starts.
  function PageAdded(fails: seq<nat>, at: nat): (seq<nat>, nat)
    requires at < |fails|
  {
    (Raised(fails, at, |fails| - 1) + [0], SkipTo(fails, at, |fails| - 1))
  }

  // What a small allocation does to them: nothing if a block had room or no page could be had.
  function Searched(blocks: seq<Block>, fails: seq<nat>, at: nat, size: nat, page: nat): (seq<nat>, nat)
    requires at < |fails| == |blocks|
  {
    if FirstRoom(blocks, at, size) < |blocks| || page == 0 then (fails, at) else PageAdded(fails, at)
  }

  // A new page: every block from at on but the last has failed once more, as 32 bits count,
  // and the search moves on past the last of those that had failed five times.
  lemma {:induction false} PageAddedIs(fails: seq<nat>, at: nat)
    requires at < |fails|
    ensures var (fails', to) := PageAdded(fails, at);
            && |fails'| == |fails| + 1 && fails'[|fails|] == 0 && at <= to < |fails|
            && (forall i :: 0 <= i < |fails| ==>
                  fails'[i] == if at <= i < |fails| - 1 then (fails[i] + 1) % 0x1_0000_0000 else fails[i])
            && (forall i :: to <= i < |fails| - 1 ==> fails[i] < 5) && (to == at || fails[to - 1] >= 5)
  {
    SkipToIs(fails, at, |fails| - 1);
  }

  lemma {:induction false} SkipToIs(fails: seq<nat>, at: nat, k: nat)
    requires at <= k < |fails|
    ensures var to := SkipTo(fails, at, k);
            (forall i :: to <= i < k ==> fails[i] < 5) && (to == at || fails[to - 1] >= 5)
    decreases k
  {
    if at < k && fails[k - 1] < 5 { SkipToIs(fails, at, k - 1); }
  }

  lemma BumpApart(blocks: seq<Block>, live: map<nat, nat>, i: nat, size: nat, a: nat)
    requires Separate(blocks) && Sound(blocks, live) && i < |blocks| && a in live
    requires 0 < size && Align(blocks[i].last) + size <= blocks[i].end
    ensures a + live[a] <= Align(blocks[i].last) || Align(blocks[i].last) + size <= a
  {
  }

  lemma BumpSound(blocks: seq<Block>, live: map<nat, nat>, i: nat, size: nat)
    requires Separate(blocks) && Sound(blocks, live) && i < |blocks|
    requires 0 < size && Align(blocks[i].last) + size <= blocks[i].end
    ensures Align(blocks[i].last) !in live
    ensures Sound(blocks[i := Bumped(blocks[i], size)], live[Align(blocks[i].last) := size])
  {
    var addr, blocks' := Align(blocks[i].last), blocks[i := Bumped(blocks[i], size)];
    var live' := live[addr := size];
    forall a | a in live
      ensures a + live[a] <= addr || addr + size <= a
    {
      BumpApart(blocks, live, i, size, a);
    }
    forall a | a in live
      ensures Placed(blocks', a, live[a])
    {
      var j :| 0 <= j < |blocks| && blocks[j].Holds(a, live[a]);
      assert blocks'[j].Holds(a, live[a]);
    }
    assert blocks'[i].Holds(addr, size);
    assert Placed(blocks', addr, size);
  }

  lemma StillSeparate(blocks: seq<Block>, i: nat, b: Block)
    requires Separate(blocks) && i < |blocks| && b.Ok() && b.at == blocks[i].at && b.end == blocks[i].end
    ensures Separate(blocks[i := b])
  {
  }

  lemma BumpConsistent(blocks: seq<Block>, live: map<nat, nat>, i: nat, size: nat)
    requires Consistent(blocks, live) && i < |blocks|
    requires 0 < size && Align(blocks[i].last) + size <= blocks[i].end
    ensures Align(blocks[i].last) !in live
    ensures Consistent(blocks[i := Bumped(blocks[i], size)], live[Align(blocks[i].last) := size])
  {
    BumpSound(blocks, live, i, size);
    RoomLeft(blocks[i]);
    StillSeparate(blocks, i, Bumped(blocks[i], size));
    hide Sound, Separate, Apart, Align, Inside;
    var after := blocks[i := Bumped(blocks[i], size)];
    forall j | 0 <= j < |after|
      ensures after[j].quote == |Inside(after[j], live[Align(blocks[i].last) := size])|
    {
      BumpCount(blocks, live, i, size, j);
    }
  }

  lemma InsideWith(b: Block, c: Block, live: map<nat, nat>, p: nat, size: nat)
    requires c.at == b.at && c.end == b.end && b.Start() <= p < b.end
    ensures Inside(c, live[p := size]) == Inside(b, live) + {p}
  {
  }

  lemma BumpCount(blocks: seq<Block>, live: map<nat, nat>, i: nat, size: nat, j: nat)
    requires Separate(blocks) && Counted(blocks, live) && i < |blocks| && j < |blocks|
    requires 0 < size && Align(blocks[i].last) + size <= blocks[i].end && Align(blocks[i].last) !in live
    ensures var c := if j == i then Bumped(blocks[i], size) else blocks[j];
            c.quote == |Inside(c, live[Align(blocks[i].last) := size])|
  {
    var addr := Align(blocks[i].last);
    var live' := live[addr := size];
    if j == i {
      assert blocks[i].Ok() && blocks[i].Start() <= addr < blocks[i].end;
      InsideWith(blocks[i], Bumped(blocks[i], size), live, addr, size);
    } else {
      PairApart(blocks, i, j);
      assert Inside(blocks[j], live') == Inside(blocks[j], live);
    }
  }

  // ---- a new block ----

  // A page that the system says is free.
  ghost predicate FreePage(blocks: seq<Block>, at: nat) {
    0 < at && at % ALIGNMENT == 0 && forall i :: 0 <= i < |blocks| ==>
      blocks[i].end <= at || at + PAGE_SIZE <= blocks[i].at
  }

  lemma AddBlock(blocks: seq<Block>, live: map<nat, nat>, at: nat)
    requires Consistent(blocks, live) && FreePage(blocks, at)
    ensures Consistent(blocks + [Block(at, at + PAGE_SIZE, at + SMALL_NODE, 0)], live)
  {
    var b := Block(at, at + PAGE_SIZE, at + SMALL_NODE, 0);
    var blocks' := blocks + [b];
    forall a | a in live
      ensures Placed(blocks', a, live[a]) && a !in Inside(b, live)
    {
      var j :| 0 <= j < |blocks| && blocks[j].Holds(a, live[a]);
      assert blocks'[j].Holds(a, live[a]);
    }
    assert Inside(b, live) == {};
    forall j | 0 <= j < |blocks'|
      ensures blocks'[j].quote == |Inside(blocks'[j], live)| && blocks'[j].Ok()
    {
      if j < |blocks| { assert blocks'[j] == blocks[j]; }
    }
  }

  // ---- giving back ----

  ghost function Released(b: Block): Block {
    if b.quote == 1 then b.(last := b.Start(), quote := 0)
    else b.(quote := if b.quote == 0 then 0xFFFF_FFFF else b.quote - 1)
  }

  // The last allocation given back rewinds the block to its start.
  lemma ReleasedIs(b: Block)
    requires 0 < b.quote
    ensures Released(b) ==
            if b.quote == 1 then Block(b.at, b.end, b.at + 32, 0) else Block(b.at, b.end, b.last, b.quote - 1)
  {
  }

  // What giving back the allocation at p does: the block around it has one reference less; if
  // that was the last it is used from its start again, has not failed, and searching starts
  // from the first block.
  ghost predicate FreedAs(before: seq<Block>, after: seq<Block>, fails: seq<nat>, fails': seq<nat>, i: nat, p: nat,
                          cursor: nat, cursor': nat) {
    && i < |before| == |after| == |fails| == |fails'| && before[i].at <= p <= before[i].end
    && 0 < before[i].quote && after[i].quote == before[i].quote - 1
    && after[i].last == (if before[i].quote == 1 then before[i].at + 32 else before[i].last)
    && fails'[i] == (if before[i].quote == 1 then 0 else fails[i])
    && cursor' == (if before[i].quote == 1 then 0 else cursor)
    && forall j :: 0 <= j < |before| && j != i ==> after[j] == before[j] && fails'[j] == fails[j]
  }

  lemma Freed(before: seq<Block>, after: seq<Block>, fails: seq<nat>, fails': seq<nat>, i: nat, p: nat,
              cursor: nat, cursor': nat)
    requires i < |before| == |fails| == |fails'| && before[i].at <= p <= before[i].end && 0 < before[i].quote
    requires after == before[i := Released(before[i])]
    requires fails'[i] == (if before[i].quote == 1 then 0 else fails[i])
    requires cursor' == (if before[i].quote == 1 then 0 else cursor)
    requires forall j :: 0 <= j < |fails| && j != i ==> fails'[j] == fails[j]
    ensures FreedAs(before, after, fails, fails', i, p, cursor, cursor')
  {
    ReleasedIs(before[i]);
  }

  // The block of an allocation is the only one whose address range contains it.
  lemma OwnBlock(blocks: seq<Block>, live: map<nat, nat>, i: nat, a: nat)
    requires Separate(blocks) && Sound(blocks, live) && i < |blocks| && a in live
    requires blocks[i].at <= a <= blocks[i].end
    ensures blocks[i].Start() <= a < blocks[i].end && 0 < |Inside(blocks[i], live)|
  {
    var j :| 0 <= j < |blocks| && blocks[j].Holds(a, live[a]);
    PairApart(blocks, i, j);
    assert a in Inside(blocks[i], live);
  }

  lemma Referred(blocks: seq<Block>, live: map<nat, nat>, i: nat, p: nat)
    requires Consistent(blocks, live) && i < |blocks| && p in live && blocks[i].at <= p <= blocks[i].end
    ensures 0 < blocks[i].quote
  {
    OwnBlock(blocks, live, i, p);
  }

  // When the count drops to zero nothing else is live in the block, so rewinding is safe.
  lemma LastOne(b: Block, live: map<nat, nat>, p: nat, a: nat)
    requires |Inside(b, live)| == 1 && p in Inside(b, live) && a in live && a != p
    ensures !(b.Start() <= a < b.end)
  {
    assert Inside(b, live) == {p} + (Inside(b, live) - {p});
    assert |Inside(b, live) - {p}| == 0;
    assert a !in Inside(b, live) - {p};
  }

  lemma ReleaseConsistent(blocks: seq<Block>, live: map<nat, nat>, i: nat, p: nat)
    requires Consistent(blocks, live) && i < |blocks| && p in live && blocks[i].at <= p <= blocks[i].end
    ensures Consistent(blocks[i := Released(blocks[i])], live - {p})
  {
    OwnBlock(blocks, live, i, p);
    StillSeparate(blocks, i, Released(blocks[i]));
    ReleaseSound(blocks, live, i, p);
    hide Sound, Separate, Apart, Inside, Released;
    var after := blocks[i := Released(blocks[i])];
    forall j | 0 <= j < |after|
      ensures after[j].quote == |Inside(after[j], live - {p})|
    {
      ReleaseCount(blocks, live, i, p, j);
    }
  }

  lemma ReleaseSound(blocks: seq<Block>, live: map<nat, nat>, i: nat, p: nat)
    requires Consistent(blocks, live) && i < |blocks| && p in live && blocks[i].Start() <= p < blocks[i].end
    ensures Sound(blocks[i := Released(blocks[i])], live - {p})
  {
    forall a | a in live - {p}
      ensures Placed(blocks[i := Released(blocks[i])], a, live[a])
    {
      ReleasePlaced(blocks, live, i, p, a);
    }
  }

  lemma ReleasePlaced(blocks: seq<Block>, live: map<nat, nat>, i: nat, p: nat, a: nat)
    requires Consistent(blocks, live) && i < |blocks| && p in live && a in live && a != p
    requires blocks[i].Start() <= p < blocks[i].end
    ensures Placed(blocks[i := Released(blocks[i])], a, live[a])
  {
    var blocks' := blocks[i := Released(blocks[i])];
    var j :| 0 <= j < |blocks| && blocks[j].Holds(a, live[a]);
    if j == i && blocks[i].quote == 1 { LastOne(blocks[i], live, p, a); }
    assert blocks'[j].Holds(a, live[a]);
  }

  lemma InsideWithout(b: Block, c: Block, live: map<nat, nat>, p: nat)
    requires c.at == b.at && c.end == b.end
    ensures Inside(c, live - {p}) == Inside(b, live) - {p}
  {
  }

  lemma ReleaseCount(blocks: seq<Block>, live: map<nat, nat>, i: nat, p: nat, j: nat)
    requires Separate(blocks) && Counted(blocks, live) && i < |blocks| && j < |blocks| && p in live
    requires blocks[i].Start() <= p < blocks[i].end
    ensures var c := if j == i then Released(blocks[i]) else blocks[j]; c.quote == |Inside(c, live - {p})|
  {
    if j == i {
      assert p in Inside(blocks[i], live);
      InsideWithout(blocks[i], Released(blocks[i]), live, p);
    } else {
      PairApart(blocks, i, j);
      assert Inside(blocks[j], live - {p}) == Inside(blocks[j], live);
    }
  }

  // Everything rewound, nothing live.
  lemma ResetConsistent(blocks: seq<Block>, after: seq<Block>)
    requires Separate(blocks) && |after| == |blocks|
    requires forall i :: 0 <= i < |blocks| ==> after[i] == blocks[i].(last := blocks[i].Start(), quote := 0)
    ensures Consistent(after, map[])
  {
  }
}
