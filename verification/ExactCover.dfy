// Exact covers of a set of columns by whole rows, and how choosing one row reduces the problem.
module ExactCovers {
  // Row r of a 0/1 matrix is the set M[r] of its columns.
  type Rows = seq<set<nat>>

  // The rows S lie inside A, touch every column of A, and never touch one twice.
  ghost predicate ExactCover(M: Rows, A: set<nat>, S: set<nat>) {
    && (forall r <- S :: r < |M| && M[r] <= A)
    && (forall c <- A :: Touched(M, S, c))
    && (forall r, r' | r in S && r' in S && r != r' :: M[r] !! M[r'])
  }

  ghost predicate Touched(M: Rows, S: set<nat>, c: nat) {
    exists r :: r in S && r < |M| && c in M[r]
  }

  // Taking row r out of an exact cover leaves one of the columns r does not use.
  lemma Peel(M: Rows, A: set<nat>, S: set<nat>, r: nat)
    requires ExactCover(M, A, S) && r in S
    ensures ExactCover(M, A - M[r], S - {r})
  {
  }

  // Conversely, row r completes an exact cover of the columns it does not use.
  lemma Join(M: Rows, A: set<nat>, S: set<nat>, r: nat)
    requires r < |M| && M[r] <= A && M[r] != {} && ExactCover(M, A - M[r], S)
    ensures r !in S && ExactCover(M, A, S + {r})
  {
    var e :| e in M[r];
    assert e !in A - M[r];
    forall c | c in A
      ensures Touched(M, S + {r}, c)
    {
      if c in M[r] {
        assert r in S + {r};
      } else {
        assert Touched(M, S, c);
        var t :| t in S && t < |M| && c in M[t];
        assert t in S + {r};
      }
    }
  }

  // If no row through column c leads to an exact cover, there is none.
  lemma Exhausted(M: Rows, A: set<nat>, c: nat, S: set<nat>)
    requires c in A
    requires forall r: nat, T: set<nat> :: r < |M| && M[r] <= A && c in M[r] ==> !ExactCover(M, A - M[r], T)
    ensures !ExactCover(M, A, S)
  {
    if ExactCover(M, A, S) {
      assert Touched(M, S, c);
      var r :| r in S && r < |M| && c in M[r];
      Peel(M, A, S, r);
    }
  }
}

// The matrix of a layout as rows of columns, and the partial covers on the solver's stack.
module StackedRows {
  import opened DancingLinks
  import opened Matrix
  import opened Covering
  import opened ExactCovers

  function RowCount(lay: Layout): nat
    requires lay.Whole()
  {
    (lay.End() - lay.First()) / 4
  }

  // The four columns of row r.
  ghost function Cols(lay: Layout, r: nat): set<nat>
    requires lay.Ok() && r < RowCount(lay)
  {
    var b := lay.First() + 4 * r;
    {lay.col[b], lay.col[b + 1], lay.col[b + 2], lay.col[b + 3]}
  }

  ghost function MatrixOf(lay: Layout): (M: Rows)
    requires lay.Ok()
    ensures |M| == RowCount(lay) && forall r :: 0 <= r < |M| ==> M[r] == Cols(lay, r)
  {
    seq(RowCount(lay), r requires 0 <= r < RowCount(lay) => Cols(lay, r))
  }

  ghost function AllColumns(lay: Layout): set<nat> {
    Upto(lay.columns)
  }

  ghost function Upto(n: nat): (S: set<nat>)
    ensures forall c: nat :: c in S <==> 1 <= c <= n
  {
    if n == 0 then {} else Upto(n - 1) + {n}
  }

  lemma RowNodes(lay: Layout, n: nat)
    requires lay.Ok() && lay.Data(n)
    ensures lay.Row(n) < RowCount(lay)
    ensures MatrixOf(lay)[lay.Row(n)] ==
            {lay.col[n], lay.col[lay.Nth(n, 1)], lay.col[lay.Nth(n, 2)], lay.col[lay.Nth(n, 3)]}
  {
  }

  lemma AliveIsInside(lay: Layout, A: set<nat>, n: nat)
    requires lay.Ok() && lay.Data(n)
    ensures lay.Row(n) < RowCount(lay)
    ensures lay.Alive(A, n) <==> MatrixOf(lay)[lay.Row(n)] <= A
  {
  }

  // A column of a row has a node in that row.
  lemma NodeInColumn(lay: Layout, r: nat, c: nat) returns (n: nat)
    requires lay.Ok() && r < RowCount(lay) && c in MatrixOf(lay)[r]
    ensures lay.Data(n) && lay.Row(n) == r && lay.col[n] == c
  {
    var b := lay.First() + 4 * r;
    if lay.col[b] == c { n := b; }
    else if lay.col[b + 1] == c { n := b + 1; }
    else if lay.col[b + 2] == c { n := b + 2; }
    else { n := b + 3; }
  }

  // The columns left by the rows on the stack.
  ghost function Live(lay: Layout, stack: seq<nat>): set<nat>
    requires lay.Ok()
  {
    if stack == [] then AllColumns(lay)
    else
      var n := stack[|stack| - 1];
      var A := Live(lay, stack[..|stack| - 1]);
      if lay.Data(n) then (RowNodes(lay, n); A - MatrixOf(lay)[lay.Row(n)]) else A
  }

  // Every stacked row fitted into the columns its predecessors left.
  ghost predicate Fits(lay: Layout, stack: seq<nat>)
    requires lay.Ok()
  {
    stack == [] ||
    var n := stack[|stack| - 1];
    && lay.Data(n)
    && Fits(lay, stack[..|stack| - 1])
    && lay.Alive(Live(lay, stack[..|stack| - 1]), n)
  }

  ghost function StackRows(lay: Layout, stack: seq<nat>): set<nat>
    requires lay.Ok()
  {
    set i | 0 <= i < |stack| && lay.Data(stack[i]) :: lay.Row(stack[i])
  }

  lemma {:induction false} LiveHeaders(lay: Layout, stack: seq<nat>)
    requires lay.Ok()
    ensures lay.Headers(Live(lay, stack))
  {
    if stack != [] { LiveHeaders(lay, stack[..|stack| - 1]); }
  }

  lemma StackRowsPush(lay: Layout, t: seq<nat>, n: nat)
    requires lay.Ok() && lay.Data(n)
    ensures StackRows(lay, t + [n]) == StackRows(lay, t) + {lay.Row(n)}
  {
    var stack := t + [n];
    forall r | r in StackRows(lay, t)
      ensures r in StackRows(lay, stack)
    {
      var i :| 0 <= i < |t| && lay.Data(t[i]) && lay.Row(t[i]) == r;
      assert stack[i] == t[i];
    }
    assert stack[|t|] == n;
    forall r | r in StackRows(lay, stack) && r != lay.Row(n)
      ensures r in StackRows(lay, t)
    {
      var i :| 0 <= i < |stack| && lay.Data(stack[i]) && lay.Row(stack[i]) == r;
      assert i < |t| && stack[i] == t[i];
    }
  }

  // The stacked rows are an exact cover of the columns that are no longer live:
  // pairwise disjoint, and together everything that was taken away.
  lemma {:induction false} StackCovers(lay: Layout, stack: seq<nat>)
    requires lay.Ok() && Fits(lay, stack)
    ensures Live(lay, stack) <= AllColumns(lay)
    ensures ExactCover(MatrixOf(lay), AllColumns(lay) - Live(lay, stack), StackRows(lay, stack))
  {
    if stack == [] {
      assert StackRows(lay, stack) == {};
    } else {
      var t, n := stack[..|stack| - 1], stack[|stack| - 1];
      StackCovers(lay, t);
      StackCoversPush(lay, t, n);
      assert stack == t + [n];
    }
  }

  lemma StackCoversPush(lay: Layout, t: seq<nat>, n: nat)
    requires lay.Ok() && lay.Data(n) && lay.Alive(Live(lay, t), n) && Live(lay, t) <= AllColumns(lay)
    requires ExactCover(MatrixOf(lay), AllColumns(lay) - Live(lay, t), StackRows(lay, t))
    ensures Live(lay, t + [n]) <= AllColumns(lay)
    ensures ExactCover(MatrixOf(lay), AllColumns(lay) - Live(lay, t + [n]), StackRows(lay, t + [n]))
  {
    var M, r := MatrixOf(lay), lay.Row(n);
    RowNodes(lay, n);
    AliveIsInside(lay, Live(lay, t), n);
    assert (t + [n])[..|t|] == t;
    assert lay.col[n] in M[r];
    var B := AllColumns(lay) - Live(lay, t + [n]);
    assert B - M[r] == AllColumns(lay) - Live(lay, t);
    Join(M, B, StackRows(lay, t), r);
    StackRowsPush(lay, t, n);
  }

  lemma PushLive(lay: Layout, stack: seq<nat>, n: nat)
    requires lay.Ok() && lay.Data(n) && Fits(lay, stack) && lay.Alive(Live(lay, stack), n)
    ensures Fits(lay, stack + [n])
    ensures lay.Row(n) < |MatrixOf(lay)|
    ensures Live(lay, stack + [n]) == Live(lay, stack) - MatrixOf(lay)[lay.Row(n)]
  {
  }

  // No exact cover of A contains the row of node n.
  ghost predicate Fruitless(lay: Layout, A: set<nat>, n: nat)
    requires lay.Ok()
  {
    && lay.Data(n) && lay.Row(n) < |MatrixOf(lay)|
    && forall T: set<nat> :: !ExactCover(MatrixOf(lay), A - MatrixOf(lay)[lay.Row(n)], T)
  }

  // The rows through column c whose node there is below k lead nowhere.
  ghost predicate Tried(lay: Layout, A: set<nat>, c: nat, k: nat)
    requires lay.Ok()
  {
    forall n: nat :: n < k && Covering.Live(lay, A, c, n) ==> Fruitless(lay, A, n)
  }

  lemma TriedAll(lay: Layout, A: set<nat>, c: nat, S: set<nat>)
    requires lay.Ok() && c in A && Tried(lay, A, c, lay.End())
    ensures !ExactCover(MatrixOf(lay), A, S)
  {
    var M := MatrixOf(lay);
    forall r: nat, T: set<nat> | r < |M| && M[r] <= A && c in M[r]
      ensures !ExactCover(M, A - M[r], T)
    {
      var n := NodeInColumn(lay, r, c);
      AliveIsInside(lay, A, n);
      assert Covering.Live(lay, A, c, n);
      assert Fruitless(lay, A, n);
    }
    Exhausted(M, A, c, S);
  }
}
