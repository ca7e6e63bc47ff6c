// Sudoku as an exact-cover problem: one column for every empty cell and for every
// value a row, column or box still lacks; one row for every value an empty cell may take.
module SudokuEncoding {
  import opened DancingLinks
  import opened Matrix
  import Covering
  import opened ExactCovers
  import opened StackedRows
  import opened SudokuRules

  datatype Cand = Cand(cell: nat, value: nat)

  // The name of the constraint "unit u of kind k holds value v"; cells are named by their number.
  function Name(k: nat, u: nat, v: nat): nat {
    100 * (k + 1) + 10 * u + v
  }

  lemma NameInjective(k: nat, u: nat, v: nat, k': nat, u': nat, v': nat)
    requires u < 9 && v < 10 && u' < 9 && v' < 10
    requires Name(k, u, v) == Name(k', u', v')
    ensures k == k' && u == u' && v == v'
  {
  }

  // Value v is given somewhere in unit u of kind k.
  ghost predicate Seen(b: seq<int>, k: nat, u: nat, v: int)
    requires |b| == CELLS && k < 3
  {
    exists i: nat :: i < CELLS && Unit(k, i) == u && b[i] == v
  }

  ghost predicate Open(b: seq<int>, k: nat, u: nat, v: nat)
    requires |b| == CELLS
  {
    k < 3 && u < 9 && 1 <= v <= 9 && !Seen(b, k, u, v)
  }

  ghost predicate Candidate(b: seq<int>, e: Cand)
    requires |b| == CELLS
  {
    && e.cell < CELLS && b[e.cell] == 0 && 1 <= e.value <= 9
    && forall k: nat :: k < 3 ==> !Seen(b, k, Unit(k, e.cell), e.value)
  }

  // The four names of a candidate's row, in the order its nodes are made.
  function CandName(e: Cand, t: nat): nat
    requires e.cell < CELLS && t < 4
  {
    if t == 0 then e.cell else Name(t - 1, Unit(t - 1, e.cell), e.value)
  }

  // heads[x] is the header named x, or 0: exactly the constraints left open by b have one.
  ghost predicate HeadersFor(lay: Layout, b: seq<int>, heads: seq<int>)
    requires |b| == CELLS
  {
    && |heads| == 400 && lay.columns < |lay.name|
    && (forall i: nat :: i < CELLS ==> (heads[i] != 0 <==> b[i] == 0))
    && (forall k: nat, u: nat, v: nat :: k < 3 && u < 9 && 1 <= v <= 9 ==>
          (heads[Name(k, u, v)] != 0 <==> Open(b, k, u, v)))
    && (forall x: nat :: x < 400 && heads[x] != 0 ==> 1 <= heads[x] <= lay.columns && lay.name[heads[x]] == x)
    && (forall c: nat :: 1 <= c <= lay.columns ==>
          lay.name[c] < 400 && heads[lay.name[c]] == c && Wanted(b, lay.name[c]))
  }

  ghost predicate Wanted(b: seq<int>, x: nat)
    requires |b| == CELLS
  {
    || (x < CELLS && b[x] == 0)
    || exists k: nat, u: nat, v: nat :: Open(b, k, u, v) && x == Name(k, u, v)
  }

  // Row r of the matrix is candidate cands[r]; every candidate has exactly one row.
  ghost predicate RowsFor(lay: Layout, b: seq<int>, heads: seq<int>, cands: seq<Cand>)
    requires |b| == CELLS
  {
    && lay.Ok() && |heads| == 400 && RowCount(lay) == |cands|
    && (forall r :: 0 <= r < |cands| ==> Candidate(b, cands[r]))
    && (forall r, r' :: 0 <= r < r' < |cands| ==> cands[r] != cands[r'])
    && (forall e :: Candidate(b, e) ==> e in cands)
    && forall r: nat, t: nat :: r < |cands| && t < 4 ==> NodeFor(lay, heads, cands[r], NodeAt(lay, r, t), t)
  }

  function NodeAt(lay: Layout, r: nat, t: nat): nat { lay.First() + 4 * r + t }

  ghost predicate NodeFor(lay: Layout, heads: seq<int>, e: Cand, n: nat, t: nat)
    requires |heads| == 400 && t < 4
  {
    && e.cell < CELLS && e.value < 10 && n < |lay.col| && n < |lay.name|
    && lay.name[n] == CandName(e, t) && lay.name[n] < 400 && lay.col[n] == heads[lay.name[n]]
  }

  ghost predicate Encodes(lay: Layout, b: seq<int>, heads: seq<int>, cands: seq<Cand>) {
    IsBoard(b) && HeadersFor(lay, b, heads) && RowsFor(lay, b, heads, cands)
  }

  lemma InRow(lay: Layout, b: seq<int>, heads: seq<int>, cands: seq<Cand>, r: nat, t: nat)
    requires Encodes(lay, b, heads, cands) && r < |cands| && t < 4
    ensures heads[CandName(cands[r], t)] in MatrixOf(lay)[r]
  {
    assert NodeFor(lay, heads, cands[r], NodeAt(lay, r, t), t);
    assert t == 0 || t == 1 || t == 2 || t == 3;
    assert MatrixOf(lay)[r] == Cols(lay, r);
  }

  // A header in row r bears one of the row's four names.
  lemma NameOfColumn(lay: Layout, b: seq<int>, heads: seq<int>, cands: seq<Cand>, r: nat, c: nat) returns (t: nat)
    requires Encodes(lay, b, heads, cands) && r < |cands| && c in MatrixOf(lay)[r]
    ensures t < 4 && 1 <= c <= lay.columns && lay.name[c] == CandName(cands[r], t)
  {
    var n := NodeInColumn(lay, r, c);
    t := lay.Place(n);
    assert n == NodeAt(lay, r, t);
    assert NodeFor(lay, heads, cands[r], NodeAt(lay, r, t), t);
  }

  // ---- completeness: a completion is an exact cover ----

  ghost function RowsOf(cands: seq<Cand>, g: seq<int>): (S: set<nat>)
    requires |g| == CELLS
    ensures forall r: nat :: r in S <==> r < |cands| && cands[r].cell < CELLS && cands[r].value == g[cands[r].cell]
  {
    set r | 0 <= r < |cands| && cands[r].cell < CELLS && cands[r].value == g[cands[r].cell]
  }

  lemma UnseenInCompletion(b: seq<int>, g: seq<int>, i: nat)
    requires IsBoard(b) && Completes(b, g) && i < CELLS && b[i] == 0
    ensures Candidate(b, Cand(i, g[i]))
  {
  }

  lemma CellChosen(lay: Layout, b: seq<int>, heads: seq<int>, cands: seq<Cand>, g: seq<int>, i: nat) returns (r: nat)
    requires Encodes(lay, b, heads, cands) && Completes(b, g) && i < CELLS && b[i] == 0
    ensures r in RowsOf(cands, g) && r < |cands| && cands[r] == Cand(i, g[i])
  {
    UnseenInCompletion(b, g, i);
    r :| r < |cands| && cands[r] == Cand(i, g[i]);
  }

  lemma GivenIsSeen(b: seq<int>, k: nat, i: nat, v: int)
    requires |b| == CELLS && k < 3 && i < CELLS
    ensures b[i] == v ==> Seen(b, k, Unit(k, i), v)
  {
  }

  lemma ColumnTouched(lay: Layout, b: seq<int>, heads: seq<int>, cands: seq<Cand>, g: seq<int>, c: nat)
    requires Encodes(lay, b, heads, cands) && Completes(b, g) && c in AllColumns(lay)
    ensures Touched(MatrixOf(lay), RowsOf(cands, g), c)
  {
    var x := lay.name[c];
    assert Wanted(b, x) && heads[x] == c;
    if x < CELLS && b[x] == 0 {
      var r := CellChosen(lay, b, heads, cands, g, x);
      InRow(lay, b, heads, cands, r, 0);
    } else {
      var k: nat, u: nat, v: nat :| Open(b, k, u, v) && x == Name(k, u, v);
      assert Shows(g, k, u, v);
      var i: nat :| i < CELLS && Unit(k, i) == u && g[i] == v;
      GivenIsSeen(b, k, i, g[i]);
      var r := CellChosen(lay, b, heads, cands, g, i);
      InRow(lay, b, heads, cands, r, k + 1);
    }
  }

  lemma SameName(e: Cand, t: nat, e': Cand, t': nat, g: seq<int>)
    requires e.cell < CELLS && e'.cell < CELLS && t < 4 && t' < 4 && 1 <= e.value <= 9 && 1 <= e'.value <= 9
    requires CandName(e, t) == CandName(e', t')
    requires Solved(g) && g[e.cell] == e.value && g[e'.cell] == e'.value
    ensures e == e'
  {
    if t > 0 && t' > 0 {
      NameInjective(t - 1, Unit(t - 1, e.cell), e.value, t' - 1, Unit(t' - 1, e'.cell), e'.value);
    }
  }

  lemma RowsApart(lay: Layout, b: seq<int>, heads: seq<int>, cands: seq<Cand>, g: seq<int>, r: nat, r': nat)
    requires Encodes(lay, b, heads, cands) && Completes(b, g)
    requires r in RowsOf(cands, g) && r' in RowsOf(cands, g) && r != r'
    ensures MatrixOf(lay)[r] !! MatrixOf(lay)[r']
  {
    forall c | c in MatrixOf(lay)[r] && c in MatrixOf(lay)[r']
      ensures false
    {
      var t := NameOfColumn(lay, b, heads, cands, r, c);
      var t' := NameOfColumn(lay, b, heads, cands, r', c);
      SameName(cands[r], t, cands[r'], t', g);
    }
  }

  lemma CompletionCovers(lay: Layout, b: seq<int>, heads: seq<int>, cands: seq<Cand>, g: seq<int>)
    requires Encodes(lay, b, heads, cands) && Completes(b, g)
    ensures ExactCover(MatrixOf(lay), AllColumns(lay), RowsOf(cands, g))
  {
    var M, A, S := MatrixOf(lay), AllColumns(lay), RowsOf(cands, g);
    forall r | r in S
      ensures r < |M| && M[r] <= A
    {
      forall c | c in M[r]
        ensures c in A
      {
        var t := NameOfColumn(lay, b, heads, cands, r, c);
      }
    }
    forall c | c in A
      ensures Touched(M, S, c)
    {
      ColumnTouched(lay, b, heads, cands, g, c);
    }
    forall r, r' | r in S && r' in S && r != r'
      ensures M[r] !! M[r']
    {
      RowsApart(lay, b, heads, cands, g, r, r');
    }
  }

  // ---- soundness: an exact cover is a completion ----

  // g shows each chosen candidate and otherwise agrees with b.
  ghost predicate FilledIn(b: seq<int>, cands: seq<Cand>, S: set<nat>, g: seq<int>)
    requires |b| == CELLS
  {
    && |g| == CELLS
    && (forall r <- S :: r < |cands| && cands[r].cell < CELLS && g[cands[r].cell] == cands[r].value)
    && (forall i :: 0 <= i < CELLS && b[i] != 0 ==> g[i] == b[i])
  }

  lemma ConstraintMet(lay: Layout, b: seq<int>, heads: seq<int>, cands: seq<Cand>, S: set<nat>, x: nat)
    returns (r: nat, t: nat)
    requires Encodes(lay, b, heads, cands) && x < 400 && heads[x] != 0
    requires ExactCover(MatrixOf(lay), AllColumns(lay), S)
    ensures r in S && r < |cands| && t < 4 && Candidate(b, cands[r]) && CandName(cands[r], t) == x
  {
    var c := heads[x];
    assert Touched(MatrixOf(lay), S, c);
    r :| r in S && r < |MatrixOf(lay)| && c in MatrixOf(lay)[r];
    t := NameOfColumn(lay, b, heads, cands, r, c);
  }

  lemma CellFilled(lay: Layout, b: seq<int>, heads: seq<int>, cands: seq<Cand>, S: set<nat>, g: seq<int>, i: nat)
    requires Encodes(lay, b, heads, cands) && i < CELLS
    requires ExactCover(MatrixOf(lay), AllColumns(lay), S) && FilledIn(b, cands, S, g)
    ensures 1 <= g[i] <= 9
  {
    if b[i] == 0 {
      var r, t := ConstraintMet(lay, b, heads, cands, S, i);
      assert t == 0;
    }
  }

  lemma ValueShown(lay: Layout, b: seq<int>, heads: seq<int>, cands: seq<Cand>, S: set<nat>, g: seq<int>, k: nat,
      u: nat, v: nat)
    requires Encodes(lay, b, heads, cands) && k < 3 && u < 9 && 1 <= v <= 9
    requires ExactCover(MatrixOf(lay), AllColumns(lay), S) && FilledIn(b, cands, S, g)
    ensures Shows(g, k, u, v)
  {
    if Seen(b, k, u, v) {
      var i: nat :| i < CELLS && Unit(k, i) == u && b[i] == v;
      assert g[i] == v;
    } else {
      assert Open(b, k, u, v);
      var r, t := ConstraintMet(lay, b, heads, cands, S, Name(k, u, v));
      NameInjective(t - 1, Unit(t - 1, cands[r].cell), cands[r].value, k, u, v);
      assert g[cands[r].cell] == v;
    }
  }

  // Clashing givens need no test of their own: a unit that repeats a given has more
  // values left to show than cells left to show them, so no exact cover exists.
  lemma CoverCompletes(lay: Layout, b: seq<int>, heads: seq<int>, cands: seq<Cand>, S: set<nat>, g: seq<int>)
    requires Encodes(lay, b, heads, cands)
    requires ExactCover(MatrixOf(lay), AllColumns(lay), S) && FilledIn(b, cands, S, g)
    ensures Completes(b, g)
  {
    forall i | 0 <= i < CELLS
      ensures 1 <= g[i] <= 9
    {
      CellFilled(lay, b, heads, cands, S, g, i);
    }
    forall k: nat, u: nat, v | k < 3 && u < 9 && 1 <= v <= 9
      ensures Shows(g, k, u, v)
    {
      ValueShown(lay, b, heads, cands, S, g, k, u, v);
    }
    DistinctIffComplete(g);
  }

  // ---- writing the stack back into the board ----

  function Fill(lay: Layout, cands: seq<Cand>, b: seq<int>, stack: seq<nat>): (g: seq<int>)
    requires |b| == CELLS
    ensures |g| == CELLS
  {
    if stack == [] then b
    else
      var n := stack[|stack| - 1];
      var g := Fill(lay, cands, b, stack[..|stack| - 1]);
      if lay.Data(n) && lay.Row(n) < |cands| && cands[lay.Row(n)].cell < CELLS
      then g[cands[lay.Row(n)].cell := cands[lay.Row(n)].value] else g
  }

  lemma FilledInPush(b: seq<int>, cands: seq<Cand>, S: set<nat>, g: seq<int>, r: nat)
    requires |b| == CELLS && FilledIn(b, cands, S, g)
    requires r < |cands| && cands[r].cell < CELLS && b[cands[r].cell] == 0
    requires forall s <- S :: cands[s].cell != cands[r].cell
    ensures FilledIn(b, cands, S + {r}, g[cands[r].cell := cands[r].value])
  {
  }

  // No later row writes a cell that an earlier one wrote.
  lemma {:induction false} FillShows(lay: Layout, b: seq<int>, heads: seq<int>, cands: seq<Cand>, stack: seq<nat>)
    requires Encodes(lay, b, heads, cands) && Fits(lay, stack)
    ensures FilledIn(b, cands, StackRows(lay, stack), Fill(lay, cands, b, stack))
  {
    if stack == [] {
      assert StackRows(lay, stack) == {};
    } else {
      var t, n := stack[..|stack| - 1], stack[|stack| - 1];
      FillShows(lay, b, heads, cands, t);
      assert stack == t + [n];
      StackRowsPush(lay, t, n);
      RowNodes(lay, n);
      var r := lay.Row(n);
      forall s | s in StackRows(lay, t)
        ensures cands[s].cell != cands[r].cell
      {
        NewCell(lay, b, heads, cands, t, n, s);
      }
      assert Candidate(b, cands[r]);
      FilledInPush(b, cands, StackRows(lay, t), Fill(lay, cands, b, t), r);
    }
  }

  lemma NewCell(lay: Layout, b: seq<int>, heads: seq<int>, cands: seq<Cand>, t: seq<nat>, n: nat, s: nat)
    requires Encodes(lay, b, heads, cands) && Fits(lay, t) && lay.Data(n) && lay.Alive(Live(lay, t), n)
    requires s in StackRows(lay, t) && s < |cands|
    requires lay.Row(n) < |cands|
    ensures cands[s].cell != cands[lay.Row(n)].cell
  {
    StackCovers(lay, t);
    AliveIsInside(lay, Live(lay, t), n);
    var M := MatrixOf(lay);
    InRow(lay, b, heads, cands, s, 0);
    InRow(lay, b, heads, cands, lay.Row(n), 0);
    assert M[s] <= AllColumns(lay) - Live(lay, t);
  }

  lemma CandNameEnds(b: seq<int>, e: Cand, t: nat)
    requires |b| == CELLS && Candidate(b, e) && t < 4
    ensures if t == 0 then CandName(e, t) == e.cell < 100 else CandName(e, t) >= 100 && CandName(e, t) % 10 == e.value
  {
    hide Unit;
    assert t > 0 ==> Name(t - 1, Unit(t - 1, e.cell), e.value) == 10 * (10 * t + Unit(t - 1, e.cell)) + e.value;
  }

  // The names met on the way around a row: the cell once, otherwise constraints ending in the value.
  lemma RowNames(lay: Layout, b: seq<int>, heads: seq<int>, cands: seq<Cand>, n: nat, i: nat)
    requires Encodes(lay, b, heads, cands) && lay.Data(n) && i <= 3
    ensures lay.Row(n) < |cands|
    ensures var x, e := lay.name[lay.Nth(n, i)], cands[lay.Row(n)];
            && Candidate(b, e)
            && (if lay.Place(n) + i == 0 || lay.Place(n) + i == 4 then x < 100 && x == e.cell
                else x >= 100 && x % 10 == e.value)
  {
    RowNodes(lay, n);
    lay.NthInRow(n, i);
    hide MatrixOf, Cols, CandName, Unit;
    var m := lay.Nth(n, i);
    CandNameEnds(b, cands[lay.Row(n)], lay.Place(m));
    assert m == NodeAt(lay, lay.Row(n), lay.Place(m));
    assert NodeFor(lay, heads, cands[lay.Row(n)], NodeAt(lay, lay.Row(n), lay.Place(m)), lay.Place(m));
  }

  // One step of that walk in the pool.
  lemma RowRead(lay: Layout, p: Pool, b: seq<int>, heads: seq<int>, cands: seq<Cand>, n: nat, i: nat)
    returns (e: Cand, at: nat)
    requires Static(lay, p) && Encodes(lay, b, heads, cands) && lay.Data(n) && i <= 3
    ensures lay.Row(n) < |cands| && e == cands[lay.Row(n)] && at == lay.Place(n) <= 3 && lay.Whole()
    ensures lay.Nth(n, 0) == n && lay.Nth(n, i) < |p|
    ensures var m := p[lay.Nth(n, i)];
            && m.right == lay.Nth(n, if i < 3 then i + 1 else 0)
            && (if at + i == 0 || at + i == 4 then m.name < 100 && m.name == e.cell
                else m.name >= 100 && m.name % 10 == e.value)
  {
    RowNames(lay, b, heads, cands, n, i);
    Covering.RowLinks(lay, p, n, i);
    e, at := cands[lay.Row(n)], lay.Place(n);
  }

  lemma {:induction false} StackedData(lay: Layout, stack: seq<nat>, i: nat)
    requires lay.Ok() && Fits(lay, stack) && i < |stack|
    ensures lay.Data(stack[i])
  {
    if i < |stack| - 1 { StackedData(lay, stack[..|stack| - 1], i); }
  }

  lemma StackedCell(lay: Layout, b: seq<int>, heads: seq<int>, cands: seq<Cand>, stack: seq<nat>, i: nat)
    requires Encodes(lay, b, heads, cands) && i < |stack| && lay.Data(stack[i])
    ensures lay.Row(stack[i]) < |cands| && cands[lay.Row(stack[i])].cell < CELLS
  {
  }
}
