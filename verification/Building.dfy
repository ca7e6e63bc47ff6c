// Building the links: headers and nodes are always appended at the end of their lists.
module Building {
  import opened Rings
  import opened DancingLinks
  import opened Matrix
  import Covering
  import opened StackedRows

  lemma NextWith(S: set<nat>, n: nat, k: nat, r: nat, h: nat)
    requires h !in S && h != n && k <= n && (forall x <- S :: x < n) && IsNext(S, k, r, h)
    ensures IsNext(S + {n}, k, if r == h then n else r, h)
  {
  }

  lemma PrevWith(S: set<nat>, n: nat, k: nat, r: nat, h: nat)
    requires h !in S && h != n && (forall x <- S :: x < n) && k <= n && IsPrev(S, k, r, h)
    ensures IsPrev(S + {n}, k, r, h)
  {
  }

  lemma PrevTop(S: set<nat>, n: nat, k: nat, h: nat)
    requires (forall x <- S :: x < n) && n < k
    ensures IsPrev(S + {n}, k, n, h) && IsNext(S + {n}, n + 1, h, h)
  {
  }

  // A fresh node n named x, linked to itself.
  function Fresh(p: Pool, n: nat, c: nat, x: nat): (q: Pool)
    requires n < |p|
    ensures |q| == |p|
  {
    p[n := Node(n, n, n, n, c, x, 0)]
  }

  // put_left: insert n at the left of node o.
  ghost function PutLeft(p: Pool, o: nat, n: nat): (q: Pool)
    requires Closed(p) && o < |p| && n < |p|
    ensures |q| == |p| && Closed(q)
  {
    var a := SetLeft(p, n, p[o].left);
    var b := SetRight(a, n, o);
    var c := SetRight(b, b[o].left, n);
    SetLeft(c, o, n)
  }

  // put_up: insert n above header h and count it.
  ghost function PutUp(p: Pool, h: nat, n: nat): (q: Pool)
    requires Closed(p) && h < |p| && n < |p|
    ensures |q| == |p| && Closed(q)
  {
    var a := SetUp(p, n, p[h].up);
    var b := SetDown(a, n, h);
    var c := SetDown(b, b[h].up, n);
    var d := SetUp(c, h, n);
    var e := AddSize(d, h, 1);
    e[n := e[n].(col := h)]
  }

  // ---- appending a header ----

  ghost function WithHeader(lay: Layout, x: nat): Layout {
    Layout(lay.columns + 1, lay.col + [lay.columns + 1], lay.name + [x])
  }

  ghost function AddHeader(p: Pool, n: nat, x: nat): (q: Pool)
    requires Closed(p) && n < |p|
    ensures |q| == |p| && Closed(q)
  {
    PutLeft(Fresh(p, n, n, x), 0, n)
  }

  lemma AddHeaderFrame(p: Pool, n: nat, x: nat)
    requires Closed(p) && 0 < n < |p| && p[0].left != n
    ensures forall m :: 0 < m < |p| && m != n ==> var u, v := AddHeader(p, n, x)[m], p[m];
              u.up == v.up && u.down == v.down && u.col == v.col && u.name == v.name && u.size == v.size
    ensures var u, v := AddHeader(p, n, x)[0], p[0];
      u.up == v.up && u.down == v.down && u.col == v.col && u.name == v.name
    ensures var u := AddHeader(p, n, x)[n]; u.up == n && u.down == n && u.col == n && u.name == x && u.size == 0
    ensures var u := AddHeader(p, n, x)[n]; u.left == p[0].left && u.right == 0
    ensures var u := AddHeader(p, n, x)[0]; u.left == n && u.right == if p[0].left == 0 then n else p[0].right
    ensures forall m :: 0 < m < |p| && m != n ==>
      AddHeader(p, n, x)[m].left == p[m].left && AddHeader(p, n, x)[m].right == if m == p[0].left then n else p[m].right
  {
  }

  lemma AddHeaderNext(p: Pool, A: set<nat>, n: nat, x: nat, c: nat)
    requires Closed(p) && HeaderRing(p, A) && 0 < n < |p| && (forall b <- A :: b < n) && (c == 0 || c in A) &&
      p[0].left != n
    ensures IsNext(A + {n}, if c == 0 then 0 else c + 1, AddHeader(p, n, x)[c].right, 0)
    ensures IsPrev(A + {n}, if c == 0 then |p| else c, AddHeader(p, n, x)[c].left, 0)
  {
    AddHeaderFrame(p, n, x);
    hide AddHeader;
    NextWith(A, n, if c == 0 then 0 else c + 1, p[c].right, 0);
    PrevTop(A, n, |p|, 0);
    if c != 0 {
      PrevWith(A, n, c, p[c].left, 0);
      if p[c].right == 0 { assert p[0].left == c; }
    }
  }

  lemma AddHeaderNew(p: Pool, A: set<nat>, n: nat, x: nat)
    requires Closed(p) && HeaderRing(p, A) && 0 < n < |p| && (forall b <- A :: b < n)
    ensures p[0].left != n
    ensures IsNext(A + {n}, n + 1, AddHeader(p, n, x)[n].right, 0)
    ensures IsPrev(A + {n}, n, AddHeader(p, n, x)[n].left, 0)
  {
  }

  lemma AddHeaderAt(p: Pool, A: set<nat>, n: nat, x: nat, c: nat)
    requires Closed(p) && HeaderRing(p, A) && 0 < n < |p| && (forall b <- A :: b < n) && c in A + {n}
    ensures IsNext(A + {n}, c + 1, AddHeader(p, n, x)[c].right, 0) && IsPrev(A + {n}, c, AddHeader(p, n, x)[c].left, 0)
  {
    hide AddHeader, IsNext, IsPrev;
    AddHeaderNew(p, A, n, x);
    if c != n {
      assert c in A && c != 0;
      AddHeaderNext(p, A, n, x, c);
    }
  }

  lemma AddHeaderRing(p: Pool, A: set<nat>, n: nat, x: nat)
    requires Closed(p) && HeaderRing(p, A) && 0 < n < |p| && forall c <- A :: c < n
    ensures HeaderRing(AddHeader(p, n, x), A + {n}) && p[0].left != n
  {
    hide AddHeader, IsNext, IsPrev;
    AddHeaderNew(p, A, n, x);
    AddHeaderNext(p, A, n, x, 0);
    forall c | c in A + {n}
      ensures IsNext(A + {n}, c + 1, AddHeader(p, n, x)[c].right, 0) &&
        IsPrev(A + {n}, c, AddHeader(p, n, x)[c].left, 0)
    {
      AddHeaderAt(p, A, n, x, c);
    }
  }

  // ---- appending a node to a column ----

  ghost function WithNode(lay: Layout, h: nat, x: nat): Layout {
    Layout(lay.columns, lay.col + [h], lay.name + [x])
  }

  ghost function AddNode(p: Pool, n: nat, h: nat, x: nat): (q: Pool)
    requires Closed(p) && n < |p| && h < |p|
    ensures |q| == |p| && Closed(q)
  {
    PutUp(Fresh(p, n, h, x), h, n)
  }

  lemma AddNodeFrame(p: Pool, n: nat, h: nat, x: nat)
    requires Closed(p) && h < n < |p| && p[h].up != n
    ensures forall m :: 0 <= m < |p| && m != n ==> var u, v := AddNode(p, n, h, x)[m], p[m];
              u.left == v.left && u.right == v.right && u.col == v.col && u.name == v.name
    ensures forall m :: 0 <= m < |p| && m != n && m != h && m != p[h].up ==> AddNode(p, n, h, x)[m] == p[m]
    ensures var u := AddNode(p, n, h, x)[n];
      u.left == n && u.right == n && u.col == h && u.name == x && u.up == p[h].up && u.down == h
    ensures var u := AddNode(p, n, h, x)[h];
      u.up == n && u.down == (if p[h].up == h then n else p[h].down) && u.size == p[h].size + 1
    ensures var u, v := AddNode(p, n, h, x)[p[h].up], p[p[h].up]; u.down == n && (p[h].up != h ==> u.up == v.up)
  {
  }

  lemma AddNodeDown(p: Pool, S: set<nat>, h: nat, n: nat, x: nat, m: nat)
    requires Closed(p) && ColumnRing(p, S, h) && h < n < |p| && forall m <- S :: m < n
    requires m == h || m in S
    ensures IsNext(S + {n}, if m == h then 0 else m + 1, AddNode(p, n, h, x)[m].down, h)
    ensures IsPrev(S + {n}, if m == h then |p| else m, AddNode(p, n, h, x)[m].up, h)
  {
    TopMember(p, S, h);
    AddNodeFrame(p, n, h, x);
    NextWith(S, n, if m == h then 0 else m + 1, p[m].down, h);
    PrevTop(S, n, |p|, h);
    if m != h {
      PrevWith(S, n, m, p[m].up, h);
      if p[m].down == h { assert p[h].up == m; }
    }
  }

  lemma AddNodeNew(p: Pool, S: set<nat>, h: nat, n: nat, x: nat)
    requires Closed(p) && ColumnRing(p, S, h) && h < n < |p| && forall m <- S :: m < n
    ensures IsNext(S + {n}, n + 1, AddNode(p, n, h, x)[n].down, h)
    ensures IsPrev(S + {n}, n, AddNode(p, n, h, x)[n].up, h)
  {
  }

  lemma AddNodeRing(p: Pool, S: set<nat>, h: nat, n: nat, x: nat)
    requires Closed(p) && ColumnRing(p, S, h) && h < n < |p| && forall m <- S :: m < n
    ensures ColumnRing(AddNode(p, n, h, x), S + {n}, h)
    ensures AddNode(p, n, h, x)[h].size == p[h].size + 1
  {
    var q, T := AddNode(p, n, h, x), S + {n};
    TopMember(p, S, h);
    AddNodeFrame(p, n, h, x);
    AddNodeNew(p, S, h, n, x);
    AddNodeDown(p, S, h, n, x, h);
    AddNodeMembers(p, S, h, n, x);
    hide *;
    RingOf(q, T, h);
  }

  lemma AddNodeMembers(p: Pool, S: set<nat>, h: nat, n: nat, x: nat)
    requires Closed(p) && ColumnRing(p, S, h) && h < n < |p| && forall m <- S :: m < n
    ensures forall m <- S ::
      IsNext(S + {n}, m + 1, AddNode(p, n, h, x)[m].down, h) && IsPrev(S + {n}, m, AddNode(p, n, h, x)[m].up, h)
  {
    hide AddNode, IsNext, IsPrev;
    forall m | m in S
      ensures IsNext(S + {n}, m + 1, AddNode(p, n, h, x)[m].down, h) && IsPrev(S + {n}, m, AddNode(p, n, h, x)[m].up, h)
    {
      AddNodeDown(p, S, h, n, x, m);
    }
  }

  lemma RingOf(p: Pool, S: set<nat>, c: nat)
    requires c < |p| && c !in S && (forall n <- S :: n < |p|)
    requires IsNext(S, 0, p[c].down, c) && IsPrev(S, |p|, p[c].up, c)
    requires forall n <- S :: IsNext(S, n + 1, p[n].down, c) && IsPrev(S, n, p[n].up, c)
    ensures ColumnRing(p, S, c)
  {
  }

  // ---- linking four nodes into a row ----

  ghost function LinkRow(p: Pool, n: nat): (q: Pool)
    requires Closed(p) && n + 3 < |p|
    ensures |q| == |p| && Closed(q)
  {
    PutLeft(PutLeft(PutLeft(p, n, n + 1), n, n + 2), n, n + 3)
  }

  lemma PutLeftFields(p: Pool, o: nat, n: nat)
    requires Closed(p) && o < |p| && n < |p|
    ensures forall m :: 0 <= m < |p| ==>
      var u, v := PutLeft(p, o, n)[m], p[m];
      u.up == v.up && u.down == v.down && u.col == v.col && u.name == v.name && u.size == v.size
  {
  }

  lemma LinkRowFields(p: Pool, n: nat)
    requires Closed(p) && n + 3 < |p|
    ensures forall m :: 0 <= m < |p| ==>
      var u, v := LinkRow(p, n)[m], p[m];
      u.up == v.up && u.down == v.down && u.col == v.col && u.name == v.name && u.size == v.size
  {
    hide PutLeft;
    var a := PutLeft(p, n, n + 1);
    var b := PutLeft(a, n, n + 2);
    PutLeftFields(p, n, n + 1);
    PutLeftFields(a, n, n + 2);
    PutLeftFields(b, n, n + 3);
  }

  lemma LinkRowIs(p: Pool, n: nat)
    requires Closed(p) && n + 3 < |p|
    requires forall m :: n <= m < n + 4 ==> p[m].left == m && p[m].right == m
    ensures var q := LinkRow(p, n);
            && q[n].right == n + 1 && q[n + 1].right == n + 2 && q[n + 2].right == n + 3 && q[n + 3].right == n
            && q[n].left == n + 3 && q[n + 1].left == n && q[n + 2].left == n + 1 && q[n + 3].left == n + 2
    ensures forall m :: 0 <= m < |p| && !(n <= m < n + 4) ==> LinkRow(p, n)[m] == p[m]
  {
    var a := PutLeft(p, n, n + 1);
    assert a == p[n := p[n].(left := n + 1, right := n + 1)][n + 1 := p[n + 1].(left := n, right := n)];
    var b := PutLeft(a, n, n + 2);
    assert b == a[n := a[n].(left := n + 2)][n + 1 := a[n + 1].(right := n + 2)]
                        [n + 2 := a[n + 2].(left := n + 1, right := n)];
    var c := PutLeft(b, n, n + 3);
    assert c == b[n := b[n].(left := n + 3)][n + 2 := b[n + 2].(right := n + 3)]
                        [n + 3 := b[n + 3].(left := n + 2, right := n)];
  }

  // ---- the pool keeps representing the matrix built so far ----

  ghost predicate NoRows(lay: Layout) { lay.End() == lay.First() }

  lemma EmptyRing(p: Pool, c: nat)
    requires c < |p| && p[c].up == c && p[c].down == c
    ensures ColumnRing(p, {}, c)
  {
  }

  lemma NoMembers(lay: Layout, A: set<nat>, c: nat)
    requires lay.Ok() && NoRows(lay)
    ensures lay.Members(lay.AliveNodes(A), c) == {}
  {
  }

  lemma WithHeaderOk(lay: Layout, x: nat)
    requires lay.Ok() && NoRows(lay)
    ensures WithHeader(lay, x).Ok() && NoRows(WithHeader(lay, x))
    ensures AllColumns(WithHeader(lay, x)) == AllColumns(lay) + {lay.First()}
  {
  }

  lemma AddHeaderStatic(lay: Layout, p: Pool, x: nat)
    requires Static(lay, p) && NoRows(lay) && HeaderRing(p, AllColumns(lay)) && lay.First() < |p|
    ensures Static(WithHeader(lay, x), AddHeader(p, lay.First(), x))
  {
    var n, q, lay' := lay.First(), AddHeader(p, lay.First(), x), WithHeader(lay, x);
    WithHeaderOk(lay, x);
    AddHeaderRing(p, AllColumns(lay), n, x);
    AddHeaderFrame(p, n, x);
    hide AddHeader;
    forall m | 0 <= m < lay'.End()
      ensures q[m].col == lay'.col[m] && q[m].name == lay'.name[m]
    {
      if m < n { assert p[m].col == lay.col[m]; }
    }
  }

  lemma AppendHeader(lay: Layout, p: Pool, x: nat)
    requires Represents(lay, p, AllColumns(lay)) && NoRows(lay) && lay.First() < |p|
    ensures NoRows(WithHeader(lay, x))
    ensures Represents(WithHeader(lay, x), AddHeader(p, lay.First(), x), AllColumns(WithHeader(lay, x)))
  {
    var n, q, lay' := lay.First(), AddHeader(p, lay.First(), x), WithHeader(lay, x);
    var A, B := AllColumns(lay), AllColumns(lay');
    WithHeaderOk(lay, x);
    AddHeaderStatic(lay, p, x);
    AddHeaderRing(p, A, n, x);
    AddHeaderFrame(p, n, x);
    hide AddHeader, HeaderRing, Static;
    forall c | c in B
      ensures ColumnRing(q, lay'.Members(lay'.AliveNodes(B), c), c) &&
        q[c].size == |lay'.Members(lay'.AliveNodes(B), c)|
    {
      NoMembers(lay', B, c);
      if c != n {
        NoMembers(lay, A, c);
        assert ColumnRing(p, lay.Members(lay.AliveNodes(A), c), c) && p[c].size == |lay.Members(lay.AliveNodes(A), c)|;
      }
      EmptyRing(q, c);
    }
  }

  ghost function DataNodes(lay: Layout): (L: set<nat>)
    ensures forall n: nat :: n in L <==> lay.Data(n)
  {
    set n: nat | lay.First() <= n < lay.End() && lay.Data(n)
  }

  lemma MembersWith(lay: Layout, h: nat, x: nat, c: nat)
    requires lay.First() <= lay.End()
    ensures var S, T := lay.Members(DataNodes(lay), c), WithNode(lay, h, x).Members(DataNodes(WithNode(lay, h, x)), c);
            T == if c == h then S + {lay.End()} else S
  {
  }

  // The top of a column lies in the column.
  lemma TopMember(p: Pool, S: set<nat>, c: nat)
    requires ColumnRing(p, S, c)
    ensures p[c].up == c || p[c].up in S
  {
  }

  lemma AppendNode(lay: Layout, p: Pool, A: set<nat>, h: nat, x: nat)
    requires Closed(p) && lay.First() <= lay.End() < |p| && lay.Headers(A) && h in A
    requires Columns(lay, p, A, DataNodes(lay))
    ensures Columns(WithNode(lay, h, x), AddNode(p, lay.End(), h, x), A, DataNodes(WithNode(lay, h, x)))
    ensures p[h].up != lay.End()
  {
    var n, lay' := lay.End(), WithNode(lay, h, x);
    var q := AddNode(p, n, h, x);
    assert ColumnRing(p, lay.Members(DataNodes(lay), h), h);
    TopMember(p, lay.Members(DataNodes(lay), h), h);
    AddNodeFrame(p, n, h, x);
    forall c | c in A
      ensures ColumnRing(q, lay'.Members(DataNodes(lay'), c), c) && q[c].size == |lay'.Members(DataNodes(lay'), c)|
    {
      AppendNodeColumn(lay, p, h, x, c);
    }
  }

  lemma AppendNodeColumn(lay: Layout, p: Pool, h: nat, x: nat, c: nat)
    requires Closed(p) && lay.First() <= lay.End() < |p| && 1 <= h <= lay.columns && 1 <= c <= lay.columns
    requires ColumnRing(p, lay.Members(DataNodes(lay), h), h)
    requires ColumnRing(p, lay.Members(DataNodes(lay), c), c) && p[c].size == |lay.Members(DataNodes(lay), c)|
    ensures var q, T := AddNode(p, lay.End(), h, x), WithNode(lay, h, x).Members(DataNodes(WithNode(lay, h, x)), c);
            ColumnRing(q, T, c) && q[c].size == |T|
  {
    var n := lay.End();
    var S, q := lay.Members(DataNodes(lay), c), AddNode(p, n, h, x);
    MembersWith(lay, h, x, c);
    if c == h {
      AddNodeRing(p, S, h, n, x);
    } else {
      TopMember(p, lay.Members(DataNodes(lay), h), h);
      AddNodeFrame(p, n, h, x);
      assert forall m <- S :: m != n && m != h && m != p[h].up;
      RingFrame(p, q, S, c);
    }
  }

  // ---- appending a whole row ----

  ghost function WithRow(lay: Layout, hs: seq<nat>, xs: seq<nat>): (r: Layout) {
    Layout(lay.columns, lay.col + hs, lay.name + xs)
  }

  ghost predicate NewRow(lay: Layout, hs: seq<nat>, xs: seq<nat>) {
    && |hs| == 4 && |xs| == 4
    && (forall i :: 0 <= i < 4 ==> 1 <= hs[i] <= lay.columns)
    && hs[0] != hs[1] && hs[0] != hs[2] && hs[0] != hs[3] && hs[1] != hs[2] && hs[1] != hs[3] && hs[2] != hs[3]
  }

  // The k nodes of a new row, not yet linked sideways.
  ghost function AddNodes(p: Pool, n: nat, hs: seq<nat>, xs: seq<nat>, k: nat): (q: Pool)
    requires Closed(p) && k <= 4 && |hs| == 4 && |xs| == 4 && n + 4 <= |p|
    requires forall i :: 0 <= i < 4 ==> hs[i] < |p|
    ensures |q| == |p| && Closed(q)
  {
    if k == 0 then p else AddNode(AddNodes(p, n, hs, xs, k - 1), n + k - 1, hs[k - 1], xs[k - 1])
  }

  ghost function PartRow(lay: Layout, hs: seq<nat>, xs: seq<nat>, k: nat): Layout
    requires k <= 4 && |hs| == 4 && |xs| == 4
  {
    Layout(lay.columns, lay.col + hs[..k], lay.name + xs[..k])
  }

  // Old nodes keep their sideways links and names; the new ones are linked to themselves.
  ghost predicate Sideways(p: Pool, q: Pool, n: nat, hs: seq<nat>, xs: seq<nat>, k: nat)
  {
    && |q| == |p| && k <= 4 && |hs| == 4 && |xs| == 4 && n + 4 <= |p|
    && (forall m :: 0 <= m < |p| && !(n <= m < n + 4) ==>
          q[m].left == p[m].left && q[m].right == p[m].right && q[m].col == p[m].col && q[m].name == p[m].name)
    && (forall m :: n <= m < n + k ==>
          q[m].left == m && q[m].right == m && q[m].col == hs[m - n] && q[m].name == xs[m - n])
  }

  lemma {:induction false} AddNodesKeeps(lay: Layout, p: Pool, hs: seq<nat>, xs: seq<nat>, k: nat)
    requires lay.Ok() && Closed(p) && NewRow(lay, hs, xs) && k <= 4 && lay.End() + 4 <= |p|
    requires Columns(lay, p, AllColumns(lay), DataNodes(lay))
    ensures Columns(PartRow(lay, hs, xs, k), AddNodes(p, lay.End(), hs, xs, k), AllColumns(lay),
      DataNodes(PartRow(lay, hs, xs, k)))
    ensures Sideways(p, AddNodes(p, lay.End(), hs, xs, k), lay.End(), hs, xs, k)
  {
    if k == 0 {
      assert PartRow(lay, hs, xs, 0) == lay;
    } else {
      AddNodesKeeps(lay, p, hs, xs, k - 1);
      AddNodesStep(lay, p, hs, xs, k - 1);
    }
  }

  lemma AddNodesStep(lay: Layout, p: Pool, hs: seq<nat>, xs: seq<nat>, k: nat)
    requires lay.First() <= lay.End() && Closed(p) && NewRow(lay, hs, xs) && k < 4 && lay.End() + 4 <= |p|
    requires Columns(PartRow(lay, hs, xs, k), AddNodes(p, lay.End(), hs, xs, k), AllColumns(lay),
      DataNodes(PartRow(lay, hs, xs, k)))
    requires Sideways(p, AddNodes(p, lay.End(), hs, xs, k), lay.End(), hs, xs, k)
    ensures Columns(PartRow(lay, hs, xs, k + 1), AddNodes(p, lay.End(), hs, xs, k + 1), AllColumns(lay),
      DataNodes(PartRow(lay, hs, xs, k + 1)))
    ensures Sideways(p, AddNodes(p, lay.End(), hs, xs, k + 1), lay.End(), hs, xs, k + 1)
  {
    hide Columns, AddNode, DataNodes;
    var lay1, q := PartRow(lay, hs, xs, k), AddNodes(p, lay.End(), hs, xs, k);
    assert hs[..k + 1] == hs[..k] + [hs[k]] && xs[..k + 1] == xs[..k] + [xs[k]];
    assert PartRow(lay, hs, xs, k + 1) == WithNode(lay1, hs[k], xs[k]);
    assert AddNodes(p, lay.End(), hs, xs, k + 1) == AddNode(q, lay.End() + k, hs[k], xs[k]);
    assert hs[k] in AllColumns(lay) && lay1.End() == lay.End() + k;
    hide AddNodes, PartRow, Sideways;
    AppendNode(lay1, q, AllColumns(lay), hs[k], xs[k]);
    AddNodeFrame(q, lay.End() + k, hs[k], xs[k]);
    SidewaysStep(p, q, AddNode(q, lay.End() + k, hs[k], xs[k]), lay.End(), hs, xs, k);
  }

  lemma SidewaysStep(p: Pool, q: Pool, r: Pool, n: nat, hs: seq<nat>, xs: seq<nat>, k: nat)
    requires Sideways(p, q, n, hs, xs, k) && k < 4 && |r| == |q|
    requires forall m :: 0 <= m < |q| && m != n + k ==>
      r[m].left == q[m].left && r[m].right == q[m].right && r[m].col == q[m].col && r[m].name == q[m].name
    requires var u := r[n + k]; u.left == n + k && u.right == n + k && u.col == hs[k] && u.name == xs[k]
    ensures Sideways(p, r, n, hs, xs, k + 1)
  {
  }

  // The i-th node of the new row takes place i.
  lemma NewPlace(lay: Layout, lay': Layout, i: nat)
    requires lay.Whole() && lay'.columns == lay.columns && |lay'.col| == |lay.col| + 4 && i < 4
    ensures lay'.Whole() && lay'.Data(lay.End() + i) && lay'.Place(lay.End() + i) == i
  {
  }

  lemma NewNth(lay: Layout, lay': Layout, m: nat, i: nat)
    requires lay.Whole() && lay'.columns == lay.columns && |lay'.col| == |lay.col| + 4 && lay'.Whole() &&
      lay'.Data(m) && i < 4
    ensures m < lay.End() ==> lay.Data(m) && lay'.Nth(m, i) == lay.Nth(m, i)
    ensures m >= lay.End() ==> lay'.Nth(m, i) == if m + i < lay.End() + 4 then m + i else m + i - 4
  {
  }

  lemma WithRowOk(lay: Layout, hs: seq<nat>, xs: seq<nat>)
    requires lay.Ok() && NewRow(lay, hs, xs)
    ensures WithRow(lay, hs, xs).Ok()
  {
    var lay', n := WithRow(lay, hs, xs), lay.End();
    NewPlace(lay, lay', 0);
    assert lay'.col[n] == hs[0] && lay'.col[n + 1] == hs[1] && lay'.col[n + 2] == hs[2] && lay'.col[n + 3] == hs[3];
    assert forall m :: 0 <= m < n ==> lay'.col[m] == lay.col[m];
    forall m: nat, i: nat | lay'.Data(m) && 1 <= i <= 3
      ensures lay'.col[lay'.Nth(m, i)] != lay'.col[m]
    {
      NewNth(lay, lay', m, i);
      if m < n {
        assert lay.col[lay.Nth(m, i)] != lay.col[m];
      } else {
        assert m == n || m == n + 1 || m == n + 2 || m == n + 3;
      }
    }
  }

  lemma AllAlive(lay: Layout)
    requires lay.Ok()
    ensures lay.AliveNodes(AllColumns(lay)) == DataNodes(lay)
  {
  }

  lemma AddRowStatic(lay: Layout, p: Pool, hs: seq<nat>, xs: seq<nat>)
    requires Static(lay, p) && NewRow(lay, hs, xs) && lay.End() + 4 <= |p|
    requires Sideways(p, AddNodes(p, lay.End(), hs, xs, 4), lay.End(), hs, xs, 4)
    ensures Static(WithRow(lay, hs, xs), LinkRow(AddNodes(p, lay.End(), hs, xs, 4), lay.End()))
  {
    AddRowLinks(lay, p, AddNodes(p, lay.End(), hs, xs, 4), hs, xs);
  }

  lemma AddRowNames(lay: Layout, p: Pool, a: Pool, hs: seq<nat>, xs: seq<nat>)
    requires Static(lay, p) && NewRow(lay, hs, xs) && lay.End() + 4 <= |p|
    requires Sideways(p, a, lay.End(), hs, xs, 4) && Closed(a)
    ensures var lay', q := WithRow(lay, hs, xs), LinkRow(a, lay.End());
            forall m {:trigger q[m]} :: 0 <= m < lay'.End() ==> q[m].col == lay'.col[m] && q[m].name == lay'.name[m]
  {
    LinkRowFields(a, lay.End());
    hide LinkRow;
    var lay', q := WithRow(lay, hs, xs), LinkRow(a, lay.End());
    forall m | 0 <= m < lay'.End()
      ensures q[m].col == lay'.col[m] && q[m].name == lay'.name[m]
    {
      assert m < lay.End() ==> p[m].col == lay.col[m] && p[m].name == lay.name[m];
    }
  }

  lemma AddRowLinks(lay: Layout, p: Pool, a: Pool, hs: seq<nat>, xs: seq<nat>)
    requires Static(lay, p) && NewRow(lay, hs, xs) && lay.End() + 4 <= |p|
    requires Sideways(p, a, lay.End(), hs, xs, 4) && Closed(a)
    ensures Static(WithRow(lay, hs, xs), LinkRow(a, lay.End()))
  {
    AddRowNames(lay, p, a, hs, xs);
    WithRowOk(lay, hs, xs);
    LinkRowIs(a, lay.End());
    hide LinkRow, Layout.Ok, NewRow;
    var lay', n := WithRow(lay, hs, xs), lay.End();
    var q := LinkRow(a, n);
    forall m: nat | lay'.Data(m)
      ensures q[m].right == lay'.Nth(m, 1) && q[m].left == lay'.Nth(m, 3)
    {
      NewNth(lay, lay', m, 1);
      NewNth(lay, lay', m, 3);
      if m >= n { assert m == n || m == n + 1 || m == n + 2 || m == n + 3; }
    }
  }

  lemma AppendRow(lay: Layout, p: Pool, hs: seq<nat>, xs: seq<nat>)
    requires Represents(lay, p, AllColumns(lay)) && NewRow(lay, hs, xs) && lay.End() + 4 <= |p|
    ensures var lay' := WithRow(lay, hs, xs);
            Represents(lay', LinkRow(AddNodes(p, lay.End(), hs, xs, 4), lay.End()), AllColumns(lay'))
  {
    hide LinkRow, AddNodes, Columns, Layout.AliveNodes, DataNodes;
    var lay', n := WithRow(lay, hs, xs), lay.End();
    var a := AddNodes(p, n, hs, xs, 4);
    AllAlive(lay);
    assert Columns(lay, p, AllColumns(lay), DataNodes(lay));
    AddNodesKeeps(lay, p, hs, xs, 4);
    assert PartRow(lay, hs, xs, 4) == lay' by { assert hs[..4] == hs && xs[..4] == xs; }
    AddRowStatic(lay, p, hs, xs);
    AllAlive(lay');
    LinkRowVertical(lay', a, n);
    AppendRowHeader(p, a, n, hs, xs, AllColumns(lay));
  }

  lemma LinkRowVertical(lay: Layout, a: Pool, n: nat)
    requires Closed(a) && n + 4 <= |a| && Columns(lay, a, AllColumns(lay), DataNodes(lay))
    requires forall m :: n <= m < n + 4 ==> a[m].left == m && a[m].right == m
    ensures Columns(lay, LinkRow(a, n), AllColumns(lay), DataNodes(lay))
  {
    LinkRowIs(a, n);
    Covering.ColumnsFrame(lay, a, LinkRow(a, n), AllColumns(lay), DataNodes(lay));
  }

  lemma AppendRowHeader(p: Pool, a: Pool, n: nat, hs: seq<nat>, xs: seq<nat>, A: set<nat>)
    requires HeaderRing(p, A) && Closed(a) && Sideways(p, a, n, hs, xs, 4) && 0 < n && forall c <- A :: c < n
    ensures HeaderRing(LinkRow(a, n), A)
  {
    LinkRowIs(a, n);
  }
}
