// cover(c) as a function of the pool, and why uncover(c) takes it back exactly.
module Covering {
  import opened Rings
  import opened DancingLinks
  import opened Matrix

  // The first k nodes to the right of n, hidden in turn.
  ghost function HideRow(lay: Layout, p: Pool, n: nat, k: nat): (q: Pool)
    requires Static(lay, p) && lay.Data(n) && k <= 3
    ensures |q| == |p| && Closed(q)
  {
    if k == 0 then p else HideNode(HideRow(lay, p, n, k - 1), lay.Nth(n, k))
  }

  // The column is out of the header list, and so are the rows of its nodes below k.
  ghost function CoverUpTo(lay: Layout, p: Pool, A: set<nat>, c: nat, k: nat): (q: Pool)
    requires Static(lay, p) && c < |p|
    ensures |q| == |p| && Closed(q)
  {
    if k <= lay.First() then HideColumn(p, c)
    else
      var q := CoverUpTo(lay, p, A, c, k - 1);
      if k - 1 < lay.End() && lay.col[k - 1] == c && lay.Alive(A, k - 1) && Static(lay, q)
      then HideRow(lay, q, k - 1, 3) else q
  }

  ghost function Cover(lay: Layout, p: Pool, A: set<nat>, c: nat): (q: Pool)
    requires Static(lay, p) && c < |p|
    ensures |q| == |p| && Closed(q)
  {
    CoverUpTo(lay, p, A, c, lay.End())
  }

  // ---- arithmetic of a row ----

  // Stepping i and then j nodes to the right is stepping i + j around the row.
  lemma NthNth(lay: Layout, n: nat, i: nat, j: nat)
    requires lay.Whole() && lay.Data(n) && i <= 3 && j <= 3
    ensures lay.Data(lay.Nth(n, i)) && lay.Nth(lay.Nth(n, i), j) == lay.Nth(n, if i + j < 4 then i + j else i + j - 4)
  {
    lay.NthInRow(n, i);
  }

  lemma NthDistinct(lay: Layout, n: nat)
    requires lay.Whole() && lay.Data(n)
    ensures n != lay.Nth(n, 1) && n != lay.Nth(n, 2) && n != lay.Nth(n, 3)
    ensures lay.Nth(n, 1) != lay.Nth(n, 2) && lay.Nth(n, 1) != lay.Nth(n, 3) && lay.Nth(n, 2) != lay.Nth(n, 3)
  {
  }

  lemma NthBack(lay: Layout, n: nat, i: nat)
    requires lay.Whole() && lay.Data(n) && 1 <= i <= 3
    ensures lay.Data(lay.Nth(n, i)) && lay.Nth(lay.Nth(n, i), 4 - i) == n
  {
  }

  // A row lives or dies as a whole.
  lemma AliveRow(lay: Layout, A: set<nat>, n: nat, i: nat)
    requires lay.Ok() && lay.Data(n) && lay.Alive(A, n) && 1 <= i <= 3
    ensures lay.Data(lay.Nth(n, i)) && lay.Alive(A, lay.Nth(n, i))
  {
    NthNth(lay, n, i, 1);
    NthNth(lay, n, i, 2);
    NthNth(lay, n, i, 3);
  }

  // ---- hiding the header ----

  lemma HeaderLinked(p: Pool, A: set<nat>, c: nat)
    requires Closed(p) && HeaderRing(p, A) && c in A
    ensures LinkedH(p, c)
    ensures p[c].left == 0 || p[c].left in A
    ensures p[c].right == 0 || p[c].right in A
  {
  }

  lemma HideColumnFrame(p: Pool, c: nat)
    requires LinkedH(p, c)
    ensures forall n :: 0 <= n < |p| ==> var m := HideColumn(p, c)[n];
              m.up == p[n].up && m.down == p[n].down && m.size == p[n].size && m.col == p[n].col && m.name == p[n].name
    ensures forall n :: 0 <= n < |p| && n != p[c].left && n != p[c].right ==> HideColumn(p, c)[n] == p[n]
  {
  }

  lemma HideColumnInRing(p: Pool, A: set<nat>, c: nat)
    requires Closed(p) && HeaderRing(p, A) && c in A
    ensures HeaderRing(HideColumn(p, c), A - {c})
  {
    HeaderLinked(p, A, c);
    var q, B := HideColumn(p, c), A - {c};
    NextWithout(A, c, 0, p[0].right, p[c].right, 0);
    PrevWithout(A, c, |p|, p[0].left, p[c].left, 0);
    forall n | n in B
      ensures IsNext(B, n + 1, q[n].right, 0) && IsPrev(B, n, q[n].left, 0)
    {
      NextWithout(A, c, n + 1, p[n].right, p[c].right, 0);
      PrevWithout(A, c, n, p[n].left, p[c].left, 0);
      if p[n].right == c { PrevOfNext(A, n, c, p[c].left, 0, |p|); }
      if p[n].left == c { NextOfPrev(A, n, c, p[c].right, 0); }
    }
  }

  lemma HideColumnStatic(lay: Layout, p: Pool, A: set<nat>, c: nat)
    requires Static(lay, p) && lay.Headers(A) && HeaderRing(p, A) && c in A
    ensures Static(lay, HideColumn(p, c))
  {
    HeaderLinked(p, A, c);
    HideColumnFrame(p, c);
  }

  lemma ColumnsFrame(lay: Layout, p: Pool, q: Pool, A: set<nat>, L: set<nat>)
    requires Columns(lay, p, A, L) && |q| == |p|
    requires forall n :: 0 <= n < |p| ==> q[n].up == p[n].up && q[n].down == p[n].down && q[n].size == p[n].size
    ensures Columns(lay, q, A, L)
  {
  }

  lemma HeaderFrame(p: Pool, q: Pool, A: set<nat>)
    requires HeaderRing(p, A) && |q| == |p|
    requires forall n :: 0 <= n < |p| ==> q[n].left == p[n].left && q[n].right == p[n].right
    ensures HeaderRing(q, A)
  {
  }

  // ---- hiding a row ----

  ghost function Without(lay: Layout, L: set<nat>, n: nat, k: nat): set<nat>
    requires lay.Ok() && lay.Data(n) && k <= 3
  {
    if k == 0 then L else Without(lay, L, n, k - 1) - {lay.Nth(n, k)}
  }

  // Nodes of the same column (and the header) keep their vertical links; all nodes keep the horizontal ones.
  ghost predicate Beside(lay: Layout, p: Pool, q: Pool, c: nat)
  {
    && |q| == |p| && lay.End() <= |p|
    && (forall n :: 0 <= n < |p| ==>
          q[n].left == p[n].left && q[n].right == p[n].right && q[n].col == p[n].col && q[n].name == p[n].name)
    && (forall n :: 0 <= n < lay.End() && lay.col[n] == c ==> q[n] == p[n])
  }

  // The other nodes of n's row are linked in live columns.
  ghost predicate RowIn(lay: Layout, A: set<nat>, L: set<nat>, n: nat)
    requires lay.Ok() && lay.Data(n)
  {
    forall i: nat :: 1 <= i <= 3 ==> lay.Nth(n, i) in L && lay.col[lay.Nth(n, i)] in A
  }

  lemma RowStillIn(lay: Layout, A: set<nat>, L: set<nat>, n: nat, k: nat)
    requires lay.Ok() && lay.Data(n) && RowIn(lay, A, L, n) && k < 3
    ensures lay.Nth(n, k + 1) in Without(lay, L, n, k)
    ensures lay.Data(lay.Nth(n, k + 1)) && lay.col[lay.Nth(n, k + 1)] in A && lay.col[lay.Nth(n, k + 1)] != lay.col[n]
  {
    NthDistinct(lay, n);
    assert Without(lay, L, n, 0) == L;
    assert k >= 1 ==> Without(lay, L, n, 1) == L - {lay.Nth(n, 1)};
    assert k >= 2 ==> Without(lay, L, n, 2) == L - {lay.Nth(n, 1)} - {lay.Nth(n, 2)};
  }

  lemma HideOne(lay: Layout, p: Pool, A: set<nat>, L: set<nat>, j: nat, c: nat)
    requires Static(lay, p) && lay.Headers(A) && Columns(lay, p, A, L)
    requires lay.Data(j) && j in L && lay.col[j] in A && lay.col[j] != c
    ensures LinkedV(p, j) && Static(lay, HideNode(p, j)) && Columns(lay, HideNode(p, j), A, L - {j})
    ensures Beside(lay, p, HideNode(p, j), c)
  {
    HideNodeKeepsColumns(lay, p, A, L, j);
    HideNodeStatic(lay, p, j);
    HideNodeFrame(p, j);
    ListedNode(lay, p, L, j);
    assert lay.col[p[j].col] == p[j].col;
  }

  lemma BesideTrans(lay: Layout, p: Pool, q: Pool, r: Pool, c: nat)
    requires Beside(lay, p, q, c) && Beside(lay, q, r, c)
    ensures Beside(lay, p, r, c)
  {
  }

  lemma HideNext(lay: Layout, p: Pool, q: Pool, A: set<nat>, L: set<nat>, n: nat, k: nat)
    requires Static(lay, p) && lay.Data(n) && k < 3 && q == HideRow(lay, p, n, k)
    requires Static(lay, q) && lay.Headers(A) && Columns(lay, q, A, Without(lay, L, n, k))
    requires RowIn(lay, A, L, n)
    ensures LinkedV(q, lay.Nth(n, k + 1)) && HideRow(lay, p, n, k + 1) == HideNode(q, lay.Nth(n, k + 1))
    ensures Static(lay, HideRow(lay, p, n, k + 1))
    ensures Columns(lay, HideRow(lay, p, n, k + 1), A, Without(lay, L, n, k + 1))
    ensures Beside(lay, q, HideRow(lay, p, n, k + 1), lay.col[n])
  {
    var j, M := lay.Nth(n, k + 1), Without(lay, L, n, k);
    RowStillIn(lay, A, L, n, k);
    hide Static, Columns, HideNode, Beside, LinkedV, RowIn, Layout.Nth;
    assert HideRow(lay, p, n, k + 1) == HideNode(q, j);
    assert Without(lay, L, n, k + 1) == M - {j};
    HideOne(lay, q, A, M, j, lay.col[n]);
  }

  lemma {:induction false} HideRowKeeps(lay: Layout, p: Pool, A: set<nat>, L: set<nat>, n: nat, k: nat)
    requires Static(lay, p) && lay.Headers(A) && Columns(lay, p, A, L)
    requires lay.Data(n) && k <= 3
    requires RowIn(lay, A, L, n)
    ensures Static(lay, HideRow(lay, p, n, k))
    ensures Columns(lay, HideRow(lay, p, n, k), A, Without(lay, L, n, k))
    ensures Beside(lay, p, HideRow(lay, p, n, k), lay.col[n])
    ensures k >= 1 ==> LinkedV(HideRow(lay, p, n, k - 1), lay.Nth(n, k))
  {
    if k > 0 {
      HideRowKeeps(lay, p, A, L, n, k - 1);
      HideNext(lay, p, HideRow(lay, p, n, k - 1), A, L, n, k - 1);
      BesideTrans(lay, p, HideRow(lay, p, n, k - 1), HideRow(lay, p, n, k), lay.col[n]);
    }
  }

  // ---- covering a column ----

  // Some node of n's row other than n lies in column c below k.
  ghost predicate Hit(lay: Layout, n: nat, c: nat, k: nat)
    requires lay.Ok() && lay.Data(n)
  {
    exists i: nat :: 1 <= i <= 3 && lay.Nth(n, i) < k && lay.col[lay.Nth(n, i)] == c
  }

  // What is still linked when the rows of column c below k are hidden.
  ghost function Remaining(lay: Layout, A: set<nat>, c: nat, k: nat): set<nat>
    requires lay.Ok()
  {
    set n | n in lay.AliveNodes(A) && !Hit(lay, n, c, k)
  }

  // k is a live node of column c.
  ghost predicate Live(lay: Layout, A: set<nat>, c: nat, k: nat)
    requires lay.Ok()
  {
    lay.Data(k) && lay.col[k] == c && lay.Alive(A, k)
  }

  lemma RemainingSkip(lay: Layout, A: set<nat>, c: nat, k: nat)
    requires lay.Ok() && !Live(lay, A, c, k)
    ensures Remaining(lay, A, c, k + 1) == Remaining(lay, A, c, k)
  {
    forall n | n in lay.AliveNodes(A)
      ensures Hit(lay, n, c, k + 1) <==> Hit(lay, n, c, k)
    {
      HitSkip(lay, A, c, k, n);
    }
  }

  lemma HitSkip(lay: Layout, A: set<nat>, c: nat, k: nat, n: nat)
    requires lay.Ok() && !Live(lay, A, c, k) && lay.Data(n) && lay.Alive(A, n)
    ensures Hit(lay, n, c, k + 1) <==> Hit(lay, n, c, k)
  {
    if Hit(lay, n, c, k + 1) {
      var i: nat :| 1 <= i <= 3 && lay.Nth(n, i) < k + 1 && lay.col[lay.Nth(n, i)] == c;
      AliveRow(lay, A, n, i);
      assert lay.Nth(n, i) < k;
    }
    HitMore(lay, n, c, k);
  }

  lemma WithoutRow(lay: Layout, L: set<nat>, n: nat)
    requires lay.Ok() && lay.Data(n)
    ensures Without(lay, L, n, 3) == L - {lay.Nth(n, 1), lay.Nth(n, 2), lay.Nth(n, 3)}
  {
    assert Without(lay, L, n, 1) == L - {lay.Nth(n, 1)};
    assert Without(lay, L, n, 2) == L - {lay.Nth(n, 1)} - {lay.Nth(n, 2)};
  }

  lemma HitHere(lay: Layout, n: nat, c: nat, k: nat)
    requires lay.Ok() && lay.Data(n) && Hit(lay, n, c, k + 1) && !Hit(lay, n, c, k)
    ensures lay.Data(k) && n in {lay.Nth(k, 1), lay.Nth(k, 2), lay.Nth(k, 3)}
  {
    var i: nat :| 1 <= i <= 3 && lay.Nth(n, i) < k + 1 && lay.col[lay.Nth(n, i)] == c;
    assert lay.Nth(n, i) == k;
    NthBack(lay, n, i);
    assert i == 1 || i == 2 || i == 3;
  }

  lemma HitBack(lay: Layout, c: nat, k: nat, i: nat)
    requires lay.Ok() && lay.Data(k) && lay.col[k] == c && 1 <= i <= 3
    ensures lay.Data(lay.Nth(k, i)) && Hit(lay, lay.Nth(k, i), c, k + 1)
  {
    NthBack(lay, k, i);
    assert lay.Nth(lay.Nth(k, i), 4 - i) == k;
  }

  lemma HitMore(lay: Layout, n: nat, c: nat, k: nat)
    requires lay.Ok() && lay.Data(n)
    ensures Hit(lay, n, c, k) ==> Hit(lay, n, c, k + 1)
  {
  }

  lemma RemainingStep(lay: Layout, A: set<nat>, c: nat, k: nat)
    requires lay.Ok() && Live(lay, A, c, k)
    ensures Remaining(lay, A, c, k + 1) == Without(lay, Remaining(lay, A, c, k), k, 3)
  {
    WithoutRow(lay, Remaining(lay, A, c, k), k);
    HitBack(lay, c, k, 1);
    HitBack(lay, c, k, 2);
    HitBack(lay, c, k, 3);
    forall n | n in Remaining(lay, A, c, k) && n !in {lay.Nth(k, 1), lay.Nth(k, 2), lay.Nth(k, 3)}
      ensures !Hit(lay, n, c, k + 1)
    {
      if Hit(lay, n, c, k + 1) { HitHere(lay, n, c, k); }
    }
    forall n | n in Remaining(lay, A, c, k + 1)
      ensures n in Remaining(lay, A, c, k)
    {
      HitMore(lay, n, c, k);
    }
  }

  // A live node of column c still has its whole row linked when its turn comes.
  lemma RowRemains(lay: Layout, A: set<nat>, c: nat, k: nat)
    requires lay.Ok() && Live(lay, A, c, k)
    ensures RowIn(lay, A, Remaining(lay, A, c, k), k)
  {
    forall i: nat | 1 <= i <= 3
      ensures lay.Nth(k, i) in Remaining(lay, A, c, k) && lay.col[lay.Nth(k, i)] in A
    {
      AliveRow(lay, A, k, i);
      var m := lay.Nth(k, i);
      if Hit(lay, m, c, k) {
        var e: nat :| 1 <= e <= 3 && lay.Nth(m, e) < k && lay.col[lay.Nth(m, e)] == c;
        OneInColumn(lay, k, i, e);
        assert false;
      }
    }
  }

  // A row has one node in a column.
  lemma OneInColumn(lay: Layout, k: nat, i: nat, e: nat)
    requires lay.Ok() && lay.Data(k) && 1 <= i <= 3 && 1 <= e <= 3
    requires lay.Data(lay.Nth(k, i)) && lay.col[lay.Nth(lay.Nth(k, i), e)] == lay.col[k]
    ensures lay.Nth(lay.Nth(k, i), e) == k
  {
    NthNth(lay, k, i, e);
  }

  lemma NoneHit(lay: Layout, A: set<nat>, c: nat, k: nat)
    requires lay.Ok() && k <= lay.First()
    ensures Remaining(lay, A, c, k) == lay.AliveNodes(A)
  {
  }

  // The lists while column c is being covered and its nodes below k are done.
  ghost predicate Covered(lay: Layout, q: Pool, A: set<nat>, c: nat, k: nat) {
    && Static(lay, q)
    && HeaderRing(q, A - {c})
    && Columns(lay, q, A, Remaining(lay, A, c, k))
  }

  // At every moment of cover(c): the lists hold exactly the remaining nodes.
  lemma {:induction false} CoverUpToKeeps(lay: Layout, p: Pool, A: set<nat>, c: nat, k: nat)
    requires Represents(lay, p, A) && c in A && k <= lay.End()
    ensures Covered(lay, CoverUpTo(lay, p, A, c, k), A, c, k)
    decreases k
  {
    hide *;
    Usable(lay, p, A, c);
    if k <= lay.First() {
      CoverStart(lay, p, A, c, k);
    } else {
      CoverUpToKeeps(lay, p, A, c, k - 1);
      CoverStep(lay, p, A, c, k - 1);
    }
  }

  lemma Usable(lay: Layout, p: Pool, A: set<nat>, c: nat)
    requires Represents(lay, p, A) && c in A
    ensures lay.Ok() && Static(lay, p) && lay.Headers(A) && HeaderRing(p, A) && c < |p| && lay.End() <= |p|
    ensures lay.Headers(A) && lay.col[c] == c && c < lay.First() <= lay.End()
  {
  }

  lemma CoverStart(lay: Layout, p: Pool, A: set<nat>, c: nat, k: nat)
    requires Represents(lay, p, A) && c in A && k <= lay.First()
    ensures Covered(lay, CoverUpTo(lay, p, A, c, k), A, c, k)
  {
    HideColumnKeeps(lay, p, A, c);
    NoneHit(lay, A, c, k);
  }

  lemma HideColumnKeeps(lay: Layout, p: Pool, A: set<nat>, c: nat)
    requires Represents(lay, p, A) && c in A
    ensures LinkedH(p, c) && Static(lay, HideColumn(p, c))
    ensures HeaderRing(HideColumn(p, c), A - {c})
    ensures Columns(lay, HideColumn(p, c), A, lay.AliveNodes(A))
  {
    HeaderLinked(p, A, c);
    HideColumnInRing(p, A, c);
    HideColumnStatic(lay, p, A, c);
    HideColumnFrame(p, c);
    ColumnsFrame(lay, p, HideColumn(p, c), A, lay.AliveNodes(A));
  }

  lemma CoverStep(lay: Layout, p: Pool, A: set<nat>, c: nat, k: nat)
    requires Static(lay, p) && c < |p| && lay.Headers(A) && lay.First() <= k < lay.End()
    requires Covered(lay, CoverUpTo(lay, p, A, c, k), A, c, k)
    ensures Covered(lay, CoverUpTo(lay, p, A, c, k + 1), A, c, k + 1)
    ensures Beside(lay, CoverUpTo(lay, p, A, c, k), CoverUpTo(lay, p, A, c, k + 1), c)
    ensures CoverUpTo(lay, p, A, c, k + 1) ==
            if Live(lay, A, c, k) then HideRow(lay, CoverUpTo(lay, p, A, c, k), k, 3) else CoverUpTo(lay, p, A, c, k)
  {
    var q := CoverUpTo(lay, p, A, c, k);
    if Live(lay, A, c, k) {
      assert CoverUpTo(lay, p, A, c, k + 1) == HideRow(lay, q, k, 3);
      RowRemains(lay, A, c, k);
      RemainingStep(lay, A, c, k);
      HideRowKeeps(lay, q, A, Remaining(lay, A, c, k), k, 3);
      HeaderFrame(q, HideRow(lay, q, k, 3), A - {c});
    } else {
      assert CoverUpTo(lay, p, A, c, k + 1) == q;
      RemainingSkip(lay, A, c, k);
    }
  }

  lemma MembersAfter(lay: Layout, A: set<nat>, c: nat, b: nat)
    requires lay.Ok() && c in A && b in A && b != c
    ensures lay.Members(Remaining(lay, A, c, lay.End()), b) == lay.Members(lay.AliveNodes(A - {c}), b)
  {
  }

  // After cover(c) the pool represents the matrix without column c and its rows.
  lemma CoverRepresents(lay: Layout, p: Pool, A: set<nat>, c: nat)
    requires Represents(lay, p, A) && c in A
    ensures Represents(lay, Cover(lay, p, A, c), A - {c})
  {
    CoverUpToKeeps(lay, p, A, c, lay.End());
    AllHidden(lay, Cover(lay, p, A, c), A, c);
  }

  lemma AllHidden(lay: Layout, q: Pool, A: set<nat>, c: nat)
    requires lay.Headers(A) && c in A && Covered(lay, q, A, c, lay.End())
    ensures Represents(lay, q, A - {c})
  {
    forall b | b in A - {c}
      ensures var T := lay.Members(lay.AliveNodes(A - {c}), b); ColumnRing(q, T, b) && q[b].size == |T|
    {
      MembersAfter(lay, A, c, b);
      assert ColumnRing(q, lay.Members(Remaining(lay, A, c, lay.End()), b), b);
    }
  }

  // Column c itself is left as it was, so that it can be walked during and after.
  lemma {:induction false} CoverKeepsColumn(lay: Layout, p: Pool, A: set<nat>, c: nat, k: nat, n: nat)
    requires Represents(lay, p, A) && c in A && k <= lay.End()
    requires n < lay.End() && lay.col[n] == c
    ensures CoverUpTo(lay, p, A, c, k)[n] == p[n]
    decreases k
  {
    hide *;
    Usable(lay, p, A, c);
    if k <= lay.First() {
      CoverKeepsAtStart(lay, p, A, c, k, n);
    } else {
      CoverUpToKeeps(lay, p, A, c, k - 1);
      CoverStep(lay, p, A, c, k - 1);
      CoverKeepsColumn(lay, p, A, c, k - 1, n);
      BesideAt(lay, CoverUpTo(lay, p, A, c, k - 1), CoverUpTo(lay, p, A, c, k), c, n);
    }
  }

  lemma BesideAt(lay: Layout, p: Pool, q: Pool, c: nat, n: nat)
    requires Beside(lay, p, q, c) && n < lay.End() && lay.col[n] == c
    ensures n < |p| == |q| && q[n] == p[n]
  {
  }

  lemma CoverKeepsAtStart(lay: Layout, p: Pool, A: set<nat>, c: nat, k: nat, n: nat)
    requires Represents(lay, p, A) && c in A && k <= lay.First() && n < lay.End() && lay.col[n] == c
    ensures CoverUpTo(lay, p, A, c, k)[n] == p[n]
  {
  }

  // Between live nodes of the column nothing happens.
  lemma {:induction false} CoverSkip(lay: Layout, p: Pool, A: set<nat>, c: nat, k: nat, r: nat)
    requires Represents(lay, p, A) && c in A && k <= r <= lay.End()
    requires forall m | k <= m < r :: !Live(lay, A, c, m)
    ensures CoverUpTo(lay, p, A, c, r) == CoverUpTo(lay, p, A, c, k)
    decreases r
  {
    hide Represents, HideRow, HideColumn, Static, Layout.Ok, Closed;
    Usable(lay, p, A, c);
    if k < r {
      CoverSkip(lay, p, A, c, k, r - 1);
      assert !Live(lay, A, c, r - 1);
      if r <= lay.First() { CoverLow(lay, p, A, c, r); }
    }
  }

  lemma CoverLow(lay: Layout, p: Pool, A: set<nat>, c: nat, r: nat)
    requires Static(lay, p) && c < |p| && 0 < r <= lay.First()
    ensures CoverUpTo(lay, p, A, c, r) == CoverUpTo(lay, p, A, c, r - 1)
  {
  }

  lemma LiveMember(lay: Layout, A: set<nat>, c: nat, m: nat)
    requires lay.Ok()
    ensures Live(lay, A, c, m) <==> m in lay.Members(lay.AliveNodes(A), c)
  {
  }

  lemma SkipForward(lay: Layout, p: Pool, A: set<nat>, c: nat, k: nat, r: nat)
    requires Represents(lay, p, A) && c in A && k <= lay.End()
    requires IsNext(lay.Members(lay.AliveNodes(A), c), k, r, c)
    ensures r != c ==> k <= r < lay.End() && lay.First() <= r
    ensures r != c ==> Live(lay, A, c, r) && CoverUpTo(lay, p, A, c, r) == CoverUpTo(lay, p, A, c, k)
    ensures r == c ==> CoverUpTo(lay, p, A, c, lay.End()) == CoverUpTo(lay, p, A, c, k)
  {
    var stop := if r == c then lay.End() else r;
    assert c !in lay.Members(lay.AliveNodes(A), c);
    forall m | k <= m < stop
      ensures !Live(lay, A, c, m)
    {
      LiveMember(lay, A, c, m);
    }
    LiveMember(lay, A, c, r);
    CoverSkip(lay, p, A, c, k, stop);
  }

  lemma SkipBackward(lay: Layout, p: Pool, A: set<nat>, c: nat, k: nat, r: nat)
    requires Represents(lay, p, A) && c in A && lay.First() <= k <= lay.End()
    requires IsPrev(lay.Members(lay.AliveNodes(A), c), k, r, c)
    ensures r != c ==> lay.First() <= r < k
    ensures r != c ==> Live(lay, A, c, r) && CoverUpTo(lay, p, A, c, r + 1) == CoverUpTo(lay, p, A, c, k)
    ensures r == c ==> CoverUpTo(lay, p, A, c, lay.First()) == CoverUpTo(lay, p, A, c, k)
  {
    var stop := if r == c then lay.First() else r + 1;
    assert c !in lay.Members(lay.AliveNodes(A), c);
    forall m | stop <= m < k
      ensures !Live(lay, A, c, m)
    {
      LiveMember(lay, A, c, m);
    }
    LiveMember(lay, A, c, r);
    CoverSkip(lay, p, A, c, stop, k);
  }

  // Unhiding a row's nodes in the opposite order steps back through HideRow.
  lemma UnhideStepsBack(lay: Layout, p: Pool, A: set<nat>, c: nat, n: nat, k: nat)
    requires Represents(lay, p, A) && c in A && Live(lay, A, c, n) && 1 <= k <= 3
    requires Covered(lay, CoverUpTo(lay, p, A, c, n), A, c, n)
    ensures var q := CoverUpTo(lay, p, A, c, n);
            UnhideNode(HideRow(lay, q, n, k), lay.Nth(n, k)) == HideRow(lay, q, n, k - 1)
  {
    var q := CoverUpTo(lay, p, A, c, n);
    RowRemains(lay, A, c, n);
    HideRowKeeps(lay, q, A, Remaining(lay, A, c, n), n, k);
    UnhideNodeUndoes(HideRow(lay, q, n, k - 1), lay.Nth(n, k));
  }

  // ---- what the walks along a row and down a column rely on ----

  lemma RowLinks(lay: Layout, q: Pool, n: nat, i: nat)
    requires Static(lay, q) && lay.Data(n) && i <= 3
    ensures var m := lay.Nth(n, i);
            && lay.Data(m) && (i > 0 ==> m != n) && (i == 0 ==> m == n)
            && q[m].right == (if i < 3 then lay.Nth(n, i + 1) else n)
            && q[m].left == (if i > 0 then lay.Nth(n, i - 1) else lay.Nth(n, 3))
  {
    NthNth(lay, n, i, 1);
    NthNth(lay, n, i, 3);
    NthDistinct(lay, n);
  }

  // The list of column c as it stands before, during and after cover(c).
  lemma CoverWalk(lay: Layout, p: Pool, A: set<nat>, c: nat)
    requires Represents(lay, p, A) && c in A
    ensures var S := lay.Members(lay.AliveNodes(A), c);
            && c < |p| && IsNext(S, 0, p[c].down, c) && IsNext(S, lay.First(), p[c].down, c)
            && IsPrev(S, lay.End(), p[c].up, c)
    ensures CoverUpTo(lay, p, A, c, lay.First()) == HideColumn(p, c)
    ensures Cover(lay, p, A, c) == CoverUpTo(lay, p, A, c, lay.End())
  {
  }

  lemma KeepsLink(lay: Layout, p: Pool, A: set<nat>, c: nat, k: nat, n: nat)
    requires Represents(lay, p, A) && c in A && k <= lay.End()
    requires n == c || Live(lay, A, c, n)
    ensures n < |p| && CoverUpTo(lay, p, A, c, k)[n] == p[n]
    ensures n != c ==> var S := lay.Members(lay.AliveNodes(A), c);
              IsNext(S, n + 1, p[n].down, c) && IsPrev(S, n, p[n].up, c)
  {
    CoverKeepsColumn(lay, p, A, c, k, n);
    var S := lay.Members(lay.AliveNodes(A), c);
    assert ColumnRing(p, S, c);
    LiveMember(lay, A, c, n);
  }

  // Hiding the k-th node to the right of n can be undone.
  ghost predicate StepBack(lay: Layout, q: Pool, n: nat, k: nat) {
    && Static(lay, q) && lay.Data(n) && 1 <= k <= 3
    && Static(lay, HideRow(lay, q, n, k))
    && UnhideNode(HideRow(lay, q, n, k), lay.Nth(n, k)) == HideRow(lay, q, n, k - 1)
  }

  ghost predicate Reversible(lay: Layout, q: Pool, n: nat) {
    StepBack(lay, q, n, 1) && StepBack(lay, q, n, 2) && StepBack(lay, q, n, 3)
  }

  lemma RowReady(lay: Layout, p: Pool, A: set<nat>, c: nat, n: nat)
    requires Represents(lay, p, A) && c in A && Live(lay, A, c, n)
    ensures Reversible(lay, CoverUpTo(lay, p, A, c, n), n)
    ensures CoverUpTo(lay, p, A, c, n + 1) == HideRow(lay, CoverUpTo(lay, p, A, c, n), n, 3)
  {
    CoverUpToKeeps(lay, p, A, c, n);
    CoverStep(lay, p, A, c, n);
    var q := CoverUpTo(lay, p, A, c, n);
    RowRemains(lay, A, c, n);
    forall k: nat | 1 <= k <= 3
      ensures StepBack(lay, q, n, k)
    {
      HideRowKeeps(lay, q, A, Remaining(lay, A, c, n), n, k);
      UnhideStepsBack(lay, p, A, c, n, k);
    }
  }

  lemma StepBackAt(lay: Layout, q: Pool, n: nat, k: nat)
    requires Reversible(lay, q, n) && k <= 3
    ensures Static(lay, q) && lay.Data(n) && lay.Whole() && lay.End() <= |q| && Static(lay, HideRow(lay, q, n, k))
    ensures lay.Nth(n, 0) == n && (k < 3 ==> lay.Nth(n, k + 1) < |q|) && (1 <= k ==> StepBack(lay, q, n, k))
  {
    hide HideNode, UnhideNode;
    assert k == 0 || StepBack(lay, q, n, k);
  }

  // One step along a row that is being hidden (dir right) or put back (dir left).
  lemma RowWalk(lay: Layout, q: Pool, n: nat, k: nat, i: nat)
    requires Reversible(lay, q, n) && k <= 3 && i <= 3
    ensures Static(lay, q) && lay.Data(n) && lay.Whole()
    ensures var s, m := HideRow(lay, q, n, k), lay.Nth(n, i);
            && Closed(s) && m < |s| && (i > 0 <==> m != n)
            && s[m].right == (if i < 3 then lay.Nth(n, i + 1) else n)
            && s[m].left == (if i > 0 then lay.Nth(n, i - 1) else lay.Nth(n, 3))
    ensures 1 <= k ==> UnhideNode(HideRow(lay, q, n, k), lay.Nth(n, k)) == HideRow(lay, q, n, k - 1)
    ensures k < 3 ==> HideRow(lay, q, n, k + 1) == HideNode(HideRow(lay, q, n, k), lay.Nth(n, k + 1))
    ensures HideRow(lay, q, n, 0) == q && lay.Nth(n, 0) == n
  {
    hide HideNode, UnhideNode, Static, Layout.Nth;
    StepBackAt(lay, q, n, k);
    RowLinks(lay, HideRow(lay, q, n, k), n, i);
  }

  // ---- covering the other columns of a chosen row ----

  // The live columns once column col[n] and those of the first k nodes to its right are covered.
  ghost function Rest(lay: Layout, A: set<nat>, n: nat, k: nat): set<nat>
    requires lay.Ok() && lay.Data(n) && k <= 3
  {
    if k == 0 then A - {lay.col[n]} else Rest(lay, A, n, k - 1) - {lay.col[lay.Nth(n, k)]}
  }

  ghost function CoverOthers(lay: Layout, p: Pool, A: set<nat>, n: nat, k: nat): (q: Pool)
    requires Static(lay, p) && lay.Data(n) && k <= 3
    ensures |q| == |p|
  {
    if k == 0 then p
    else
      var q := CoverOthers(lay, p, A, n, k - 1);
      var c := lay.col[lay.Nth(n, k)];
      if Static(lay, q) && c < |q| then Cover(lay, q, Rest(lay, A, n, k - 1), c) else q
  }

  lemma RestWithin(lay: Layout, A: set<nat>, n: nat, k: nat)
    requires lay.Ok() && lay.Data(n) && lay.Alive(A, n) && k <= 3
    ensures k < 3 ==> lay.col[lay.Nth(n, k + 1)] in Rest(lay, A, n, k)
    ensures k == 3 ==>
      Rest(lay, A, n, k) == A - {lay.col[n], lay.col[lay.Nth(n, 1)], lay.col[lay.Nth(n, 2)], lay.col[lay.Nth(n, 3)]}
  {
    NthNth(lay, n, 1, 1);
    NthNth(lay, n, 1, 2);
    NthNth(lay, n, 2, 1);
    assert lay.col[lay.Nth(n, 1)] != lay.col[lay.Nth(n, 2)] by { assert lay.Nth(lay.Nth(n, 1), 1) == lay.Nth(n, 2); }
    assert lay.col[lay.Nth(n, 1)] != lay.col[lay.Nth(n, 3)] by { assert lay.Nth(lay.Nth(n, 1), 2) == lay.Nth(n, 3); }
    assert lay.col[lay.Nth(n, 2)] != lay.col[lay.Nth(n, 3)] by { assert lay.Nth(lay.Nth(n, 2), 1) == lay.Nth(n, 3); }
    assert Rest(lay, A, n, 0) == A - {lay.col[n]};
    if k > 0 { assert Rest(lay, A, n, 1) == Rest(lay, A, n, 0) - {lay.col[lay.Nth(n, 1)]}; }
    if k > 1 { assert Rest(lay, A, n, 2) == Rest(lay, A, n, 1) - {lay.col[lay.Nth(n, 2)]}; }
  }

  lemma {:induction false} OthersRepresent(lay: Layout, p: Pool, A: set<nat>, n: nat, k: nat)
    requires lay.Ok() && lay.Data(n) && lay.Alive(A, n) && k <= 3
    requires Represents(lay, p, A - {lay.col[n]})
    ensures Represents(lay, CoverOthers(lay, p, A, n, k), Rest(lay, A, n, k))
    ensures k > 0 ==>
      var q, c := CoverOthers(lay, p, A, n, k - 1), lay.col[lay.Nth(n, k)];
      && Represents(lay, q, Rest(lay, A, n, k - 1)) && c in Rest(lay, A, n, k - 1)
      && CoverOthers(lay, p, A, n, k) == Cover(lay, q, Rest(lay, A, n, k - 1), c)
  {
    if k > 0 {
      OthersRepresent(lay, p, A, n, k - 1);
      RestWithin(lay, A, n, k - 1);
      OthersNext(lay, p, A, n, k);
    }
  }

  lemma OthersNext(lay: Layout, p: Pool, A: set<nat>, n: nat, k: nat)
    requires Static(lay, p) && lay.Data(n) && 1 <= k <= 3
    requires Represents(lay, CoverOthers(lay, p, A, n, k - 1), Rest(lay, A, n, k - 1))
    requires lay.col[lay.Nth(n, k)] in Rest(lay, A, n, k - 1)
    ensures CoverOthers(lay, p, A, n, k) ==
            Cover(lay, CoverOthers(lay, p, A, n, k - 1), Rest(lay, A, n, k - 1), lay.col[lay.Nth(n, k)])
    ensures Represents(lay, CoverOthers(lay, p, A, n, k), Rest(lay, A, n, k))
  {
    hide Cover;
    CoverRepresents(lay, CoverOthers(lay, p, A, n, k - 1), Rest(lay, A, n, k - 1), lay.col[lay.Nth(n, k)]);
  }

  // One step of the walk that covers, or uncovers, the other columns of the row.
  lemma OthersWalk(lay: Layout, p: Pool, A: set<nat>, n: nat, k: nat)
    requires lay.Ok() && lay.Data(n) && lay.Alive(A, n) && k <= 3
    requires Represents(lay, p, A - {lay.col[n]})
    ensures Static(lay, p) && lay.Whole() && lay.Nth(n, 0) == n && lay.Nth(n, k) < |p| && lay.Nth(n, k) < |lay.col|
    ensures k > 0 <==> lay.Nth(n, k) != n
    ensures CoverOthers(lay, p, A, n, 0) == p
    ensures var q, m := CoverOthers(lay, p, A, n, k), lay.Nth(n, k);
            && Represents(lay, q, Rest(lay, A, n, k)) && |q| == |p|
            && q[m].col == lay.col[m]
            && q[m].right == (if k < 3 then lay.Nth(n, k + 1) else n)
            && q[m].left == (if k > 0 then lay.Nth(n, k - 1) else lay.Nth(n, 3))
            && q[n].right == lay.Nth(n, 1)
            && q[n].left == lay.Nth(n, 3)
    ensures k < 3 ==>
      var q, m := CoverOthers(lay, p, A, n, k), lay.Nth(n, k + 1);
      && m < |q| && m < |lay.col| && q[m].col == lay.col[m] &&
         q[m].right == (if k < 2 then lay.Nth(n, k + 2) else n) && q[m].left == lay.Nth(n, k)
      && lay.col[m] in Rest(lay, A, n, k)
      && CoverOthers(lay, p, A, n, k + 1) == Cover(lay, q, Rest(lay, A, n, k), lay.col[m])
  {
    hide CoverOthers, Rest;
    OthersRepresent(lay, p, A, n, k);
    RowLinks(lay, CoverOthers(lay, p, A, n, k), n, k);
    RowLinks(lay, CoverOthers(lay, p, A, n, k), n, 0);
    OthersStart(lay, p, A, n);
    if k < 3 {
      OthersRepresent(lay, p, A, n, k + 1);
      RowLinks(lay, CoverOthers(lay, p, A, n, k), n, k + 1);
    }
  }

  lemma OthersStart(lay: Layout, p: Pool, A: set<nat>, n: nat)
    requires Static(lay, p) && lay.Data(n)
    ensures CoverOthers(lay, p, A, n, 0) == p && Rest(lay, A, n, 0) == A - {lay.col[n]}
  {
  }
}
