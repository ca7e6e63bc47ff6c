// The 0/1 matrix behind the links: which node lies in which row and column, which
// rows are still alive, and what it means for the pool to represent that much of it.
module Matrix {
  import opened Rings
  import opened DancingLinks

  // Nodes 1..columns are column headers; the matrix nodes follow in groups of four,
  // one group a row.  col and name give each node's header and name.
  datatype Layout = Layout(columns: nat, col: seq<nat>, name: seq<nat>) {
    function First(): nat { columns + 1 }

    function End(): nat { |col| }

    predicate Data(n: nat) { First() <= n < End() }

    function Row(n: nat): nat
      requires Data(n)
    {
      (n - First()) / 4
    }

    function Place(n: nat): (i: nat)
      requires Data(n)
      ensures i < 4
    {
      (n - First()) % 4
    }

    predicate Whole() { First() <= End() && (End() - First()) % 4 == 0 }

    // The node i steps to the right of n within its row.
    function Nth(n: nat, i: nat): (m: nat)
      requires Data(n) && Whole() && i <= 3
      ensures First() <= m < End()
    {
      if Place(n) + i < 4 then n + i else n + i - 4
    }

    lemma NthInRow(n: nat, i: nat)
      requires Data(n) && Whole() && i <= 3
      ensures Data(Nth(n, i)) && Row(Nth(n, i)) == Row(n)
      ensures Place(Nth(n, i)) == if Place(n) + i < 4 then Place(n) + i else Place(n) + i - 4
    {
    }

    // Header numbers are in range and the four nodes of a row lie in different columns.
    ghost predicate Ok() {
      && |name| == |col| && Whole()
      && (forall n :: 0 <= n < First() ==> col[n] == n)
      && (forall n :: First() <= n < End() ==> 1 <= col[n] <= columns)
      && (forall n: nat, i: nat {:trigger Nth(n, i)} :: Data(n) && 1 <= i <= 3 ==> col[Nth(n, i)] != col[n])
    }

    ghost predicate Headers(A: set<nat>) { forall c <- A :: 1 <= c <= columns }

    // The row of n uses live columns only.
    ghost predicate Alive(A: set<nat>, n: nat)
      requires Ok() && Data(n)
    {
      col[n] in A && col[Nth(n, 1)] in A && col[Nth(n, 2)] in A && col[Nth(n, 3)] in A
    }

    ghost function AliveNodes(A: set<nat>): set<nat>
      requires Ok()
    {
      set n: nat | First() <= n < End() && Alive(A, n)
    }

    // How many live rows touch column c.
    ghost function LiveRows(A: set<nat>, c: nat): nat
      requires Ok()
    {
      |Members(AliveNodes(A), c)|
    }

    // The nodes of L in column c.
    ghost function Members(L: set<nat>, c: nat): set<nat> {
      set n | n in L && n < |col| && col[n] == c
    }
  }

  // The columns A form the header list.
  ghost predicate HeaderRing(p: Pool, A: set<nat>) {
    && 0 < |p| && 0 !in A && (forall c <- A :: c < |p|)
    && IsNext(A, 0, p[0].right, 0)
    && IsPrev(A, |p|, p[0].left, 0)
    && forall c <- A {:trigger p[c]} :: IsNext(A, c + 1, p[c].right, 0) && IsPrev(A, c, p[c].left, 0)
  }

  // The nodes S form the list of column c.
  ghost predicate ColumnRing(p: Pool, S: set<nat>, c: nat) {
    && c < |p| && c !in S && (forall n <- S :: n < |p|)
    && IsNext(S, 0, p[c].down, c)
    && IsPrev(S, |p|, p[c].up, c)
    && forall n <- S {:trigger p[n]} :: IsNext(S, n + 1, p[n].down, c) && IsPrev(S, n, p[n].up, c)
  }

  // Each of the columns A lists exactly its nodes in L, and counts them.
  ghost predicate Columns(lay: Layout, p: Pool, A: set<nat>, L: set<nat>) {
    forall c <- A {:trigger lay.Members(L, c)} :: ColumnRing(p, lay.Members(L, c), c) &&
      p[c].size == |lay.Members(L, c)|
  }

  // The part of the pool that covering never touches.
  ghost predicate Static(lay: Layout, p: Pool) {
    && lay.Ok() && Closed(p) && lay.End() <= |p|
    && (forall n {:trigger p[n]} :: 0 <= n < lay.End() ==> p[n].col == lay.col[n] && p[n].name == lay.name[n])
    && forall n: nat {:trigger lay.Data(n)} :: lay.Data(n) ==> p[n].right == lay.Nth(n, 1) && p[n].left == lay.Nth(n, 3)
  }

  // The pool represents the matrix restricted to the columns A and the rows inside them.
  ghost predicate Represents(lay: Layout, p: Pool, A: set<nat>) {
    && Static(lay, p) && lay.Headers(A)
    && HeaderRing(p, A)
    && Columns(lay, p, A, lay.AliveNodes(A))
  }

  // Walking right from header n (or the root) leads to the next live column; size counts live rows.
  lemma HeaderWalk(lay: Layout, p: Pool, A: set<nat>, n: nat)
    requires Represents(lay, p, A) && (n == 0 || n in A)
    ensures n < |p| && IsNext(A, if n == 0 then 0 else n + 1, p[n].right, 0)
    ensures n == 0 ==> IsPrev(A, |p|, p[0].left, 0)
    ensures lay.Ok() && 0 !in A && forall b <- A :: b < |p|
    ensures n in A ==> p[n].size == lay.LiveRows(A, n)
  {
  }

  // ---- one node ----

  lemma RingLinked(p: Pool, S: set<nat>, c: nat, j: nat)
    requires Closed(p) && ColumnRing(p, S, c) && j in S && p[j].col != j
    ensures LinkedV(p, j)
    ensures p[j].up == c || p[j].up in S
    ensures p[j].down == c || p[j].down in S
  {
  }

  // What hiding j writes: the two neighbours and the header, all in j's column.
  lemma HideNodeFrame(p: Pool, j: nat)
    requires LinkedV(p, j)
    ensures forall n :: 0 <= n < |p| ==> var m := HideNode(p, j)[n];
              m.left == p[n].left && m.right == p[n].right && m.col == p[n].col && m.name == p[n].name
    ensures forall n :: 0 <= n < |p| && n != p[j].up && n != p[j].down && n != p[j].col ==> HideNode(p, j)[n] == p[n]
    ensures var u := HideNode(p, j)[p[j].up]; u.down == p[j].down && (p[j].up != p[j].down ==> u.up == p[p[j].up].up)
    ensures var u := HideNode(p, j)[p[j].down];
      u.up == p[j].up && (p[j].up != p[j].down ==> u.down == p[p[j].down].down)
    ensures p[j].col != p[j].up && p[j].col != p[j].down ==>
      HideNode(p, j)[p[j].col].up == p[p[j].col].up && HideNode(p, j)[p[j].col].down == p[p[j].col].down
    ensures HideNode(p, j)[p[j].col].size == p[p[j].col].size - 1
  {
  }

  lemma HideNodeDown(p: Pool, S: set<nat>, c: nat, j: nat, n: nat)
    requires Closed(p) && ColumnRing(p, S, c) && j in S && p[j].col != j && p[j].col == c
    requires n == c || n in S - {j}
    ensures IsNext(S - {j}, if n == c then 0 else n + 1, HideNode(p, j)[n].down, c)
  {
    RingLinked(p, S, c, j);
    NextWithout(S, j, if n == c then 0 else n + 1, p[n].down, p[j].down, c);
    if p[n].down == j && n != c { PrevOfNext(S, n, j, p[j].up, c, |p|); }
  }

  lemma HideNodeUp(p: Pool, S: set<nat>, c: nat, j: nat, n: nat)
    requires Closed(p) && ColumnRing(p, S, c) && j in S && p[j].col != j && p[j].col == c
    requires n == c || n in S - {j}
    ensures IsPrev(S - {j}, if n == c then |p| else n, HideNode(p, j)[n].up, c)
  {
    RingLinked(p, S, c, j);
    PrevWithout(S, j, if n == c then |p| else n, p[n].up, p[j].up, c);
    if p[n].up == j && n != c { NextOfPrev(S, n, j, p[j].down, c); }
  }

  lemma HideNodeInRing(p: Pool, S: set<nat>, c: nat, j: nat)
    requires Closed(p) && ColumnRing(p, S, c) && j in S && p[j].col != j && p[j].col == c
    ensures ColumnRing(HideNode(p, j), S - {j}, c)
    ensures HideNode(p, j)[c].size == p[c].size - 1
  {
    RingLinked(p, S, c, j);
    HideNodeFrame(p, j);
    hide HideNode, IsNext, IsPrev;
    HideNodeDown(p, S, c, j, c);
    HideNodeUp(p, S, c, j, c);
    forall n | n in S - {j}
      ensures IsNext(S - {j}, n + 1, HideNode(p, j)[n].down, c) && IsPrev(S - {j}, n, HideNode(p, j)[n].up, c)
    {
      HideNodeDown(p, S, c, j, n);
      HideNodeUp(p, S, c, j, n);
    }
  }

  lemma HideNodeStatic(lay: Layout, p: Pool, j: nat)
    requires Static(lay, p) && LinkedV(p, j)
    ensures Closed(HideNode(p, j)) && Static(lay, HideNode(p, j))
  {
    UnhideNodeUndoes(p, j);
    HideNodeFrame(p, j);
  }

  lemma RingFrame(p: Pool, q: Pool, S: set<nat>, c: nat)
    requires ColumnRing(p, S, c) && |q| == |p| && q[c] == p[c]
    requires forall n <- S :: q[n] == p[n]
    ensures ColumnRing(q, S, c)
  {
  }

  // The neighbours of a listed node lie in its column.
  lemma ListedNode(lay: Layout, p: Pool, L: set<nat>, j: nat)
    requires Static(lay, p) && lay.Data(j) && j in L
    requires ColumnRing(p, lay.Members(L, lay.col[j]), lay.col[j])
    ensures LinkedV(p, j) && p[j].col == lay.col[j]
    ensures p[j].up < lay.End() && lay.col[p[j].up] == lay.col[j]
    ensures p[j].down < lay.End() && lay.col[p[j].down] == lay.col[j]
  {
  }

  lemma HideNodeOwnColumn(lay: Layout, p: Pool, L: set<nat>, j: nat)
    requires Closed(p) && j < |p| && j < lay.End() && j in L && p[j].col == lay.col[j] != j
    requires ColumnRing(p, lay.Members(L, lay.col[j]), lay.col[j])
    requires p[lay.col[j]].size == |lay.Members(L, lay.col[j])|
    ensures ColumnRing(HideNode(p, j), lay.Members(L - {j}, lay.col[j]), lay.col[j])
    ensures HideNode(p, j)[lay.col[j]].size == |lay.Members(L - {j}, lay.col[j])|
  {
    var S := lay.Members(L, lay.col[j]);
    HideNodeInRing(p, S, lay.col[j], j);
    assert lay.Members(L - {j}, lay.col[j]) == S - {j};
  }

  lemma HideNodeOtherColumn(lay: Layout, p: Pool, L: set<nat>, j: nat, c: nat)
    requires LinkedV(p, j) && lay.End() <= |p| && j < lay.End() && p[j].col < lay.End()
    requires p[j].up < lay.End() && p[j].down < lay.End()
    requires lay.col[p[j].up] == lay.col[j] == lay.col[p[j].down] == lay.col[p[j].col]
    requires c < lay.End() && lay.col[c] == c != lay.col[j] && ColumnRing(p, lay.Members(L, c), c)
    ensures ColumnRing(HideNode(p, j), lay.Members(L - {j}, c), c)
    ensures HideNode(p, j)[c] == p[c] && lay.Members(L - {j}, c) == lay.Members(L, c)
  {
    HideNodeFrame(p, j);
    assert lay.Members(L - {j}, c) == lay.Members(L, c);
    RingFrame(p, HideNode(p, j), lay.Members(L, c), c);
  }

  // Hiding a node takes it out of its own column and leaves the others alone.
  lemma HideNodeKeepsColumns(lay: Layout, p: Pool, A: set<nat>, L: set<nat>, j: nat)
    requires Static(lay, p) && lay.Headers(A) && Columns(lay, p, A, L)
    requires lay.Data(j) && j in L && lay.col[j] in A
    ensures LinkedV(p, j) && Closed(HideNode(p, j))
    ensures Columns(lay, HideNode(p, j), A, L - {j})
  {
    ListedNode(lay, p, L, j);
    UnhideNodeUndoes(p, j);
    HideNodeOwnColumn(lay, p, L, j);
    forall c | c in A && c != lay.col[j]
      ensures ColumnRing(HideNode(p, j), lay.Members(L - {j}, c), c)
      ensures HideNode(p, j)[c] == p[c] && lay.Members(L - {j}, c) == lay.Members(L, c)
    {
      HideNodeOtherColumn(lay, p, L, j, c);
    }
  }
}
