// Setting the problem up: which headers and rows exist after each step of the constructor's loops.
module SudokuSetup {
  import opened DancingLinks
  import opened Matrix
  import opened StackedRows
  import opened SudokuRules
  import opened SudokuEncoding
  import opened Building

  // The position of constraint (k, u, v) in the order in which headers are appended.
  function Order(k: nat, u: nat, v: nat): int { 27 * u + 3 * (v - 1) + k }

  lemma OrderInjective(k: nat, u: nat, v: nat, k': nat, u': nat, v': nat)
    requires k < 3 && 1 <= v <= 9 && k' < 3 && 1 <= v' <= 9 && Order(k, u, v) == Order(k', u', v')
    ensures k == k' && u == u' && v == v'
  {
  }

  // The headers made for the cells below i and the constraints before position w.
  ghost predicate HeadersUpTo(lay: Layout, b: seq<int>, heads: seq<int>, i: nat, w: int)
    requires |b| == CELLS
  {
    && |heads| == 400 && lay.columns < |lay.name|
    && (forall j: nat :: j < CELLS ==> (heads[j] != 0 <==> j < i && b[j] == 0))
    && (forall k: nat, u: nat, v: nat :: k < 3 && u < 9 && 1 <= v <= 9 ==>
          (heads[Name(k, u, v)] != 0 <==> Open(b, k, u, v) && Order(k, u, v) < w))
    && (forall x: nat :: x < 400 && heads[x] != 0 ==> 1 <= heads[x] <= lay.columns && lay.name[heads[x]] == x)
    && (forall c: nat :: 1 <= c <= lay.columns ==>
          lay.name[c] < 400 && heads[lay.name[c]] == c && Wanted(b, lay.name[c]))
  }

  lemma NoHeadersYet(lay: Layout, b: seq<int>, heads: seq<int>)
    requires |b| == CELLS && |heads| == 400 && lay.columns == 0 && |lay.name| == 1
    requires forall x :: 0 <= x < 400 ==> heads[x] == 0
    ensures HeadersUpTo(lay, b, heads, 0, 0)
  {
  }

  lemma HeaderStep(lay: Layout, b: seq<int>, heads: seq<int>, i: nat, w: int, x: nat, i': nat, w': int)
    requires |b| == CELLS && HeadersUpTo(lay, b, heads, i, w) && |lay.name| == lay.columns + 1
    requires x < 400 && heads[x] == 0 && Wanted(b, x)
    requires forall j: nat :: j < CELLS && b[j] == 0 ==> (j < i' <==> j < i || j == x)
    requires forall k: nat, u: nat, v: nat :: Open(b, k, u, v) ==>
      (Order(k, u, v) < w' <==> Order(k, u, v) < w || Name(k, u, v) == x)
    ensures HeadersUpTo(WithHeader(lay, x), b, heads[x := lay.First()], i', w')
  {
    var lay', heads' := WithHeader(lay, x), heads[x := lay.First()];
    forall j: nat | j < CELLS
      ensures heads'[j] != 0 <==> j < i' && b[j] == 0
    {
      if j == x { WantedCell(b, x); }
    }
    forall k: nat, u: nat, v: nat | k < 3 && u < 9 && 1 <= v <= 9
      ensures heads'[Name(k, u, v)] != 0 <==> Open(b, k, u, v) && Order(k, u, v) < w'
    {
      if Name(k, u, v) == x { WantedValue(b, k, u, v); }
    }
    forall y: nat | y < 400 && heads'[y] != 0
      ensures 1 <= heads'[y] <= lay'.columns && lay'.name[heads'[y]] == y
    {
      if y != x { assert lay'.name[heads[y]] == lay.name[heads[y]]; }
    }
    forall c: nat | 1 <= c <= lay'.columns
      ensures lay'.name[c] < 400 && heads'[lay'.name[c]] == c && Wanted(b, lay'.name[c])
    {
      if c <= lay.columns { assert lay'.name[c] == lay.name[c]; }
    }
  }

  lemma WantedCell(b: seq<int>, x: nat)
    requires |b| == CELLS && Wanted(b, x) && x < CELLS
    ensures b[x] == 0
  {
  }

  lemma WantedValue(b: seq<int>, k: nat, u: nat, v: nat)
    requires |b| == CELLS && k < 3 && u < 9 && 1 <= v <= 9 && Wanted(b, Name(k, u, v))
    ensures Open(b, k, u, v)
  {
  }

  lemma CellStep(lay: Layout, b: seq<int>, heads: seq<int>, i: nat)
    requires |b| == CELLS && HeadersUpTo(lay, b, heads, i, 0) && |lay.name| == lay.columns + 1 && i < CELLS
    ensures b[i] == 0 ==> heads[i] == 0 && HeadersUpTo(WithHeader(lay, i), b, heads[i := lay.First()], i + 1, 0)
    ensures b[i] != 0 ==> HeadersUpTo(lay, b, heads, i + 1, 0)
  {
  }

  lemma ValueStep(lay: Layout, b: seq<int>, heads: seq<int>, k: nat, u: nat, v: nat)
    requires |b| == CELLS && |lay.name| == lay.columns + 1 && k < 3 && u < 9 && 1 <= v <= 9
    requires HeadersUpTo(lay, b, heads, CELLS, Order(k, u, v))
    ensures Open(b, k, u, v) ==>
      heads[Name(k, u, v)] == 0
      && HeadersUpTo(WithHeader(lay, Name(k, u, v)), b, heads[Name(k, u, v) := lay.First()], CELLS, Order(k, u, v) + 1)
    ensures !Open(b, k, u, v) ==> HeadersUpTo(lay, b, heads, CELLS, Order(k, u, v) + 1)
  {
    var w := Order(k, u, v);
    forall k': nat, u': nat, v': nat | Open(b, k', u', v')
      ensures Order(k', u', v') < w + 1 <==> Order(k', u', v') < w || (k', u', v') == (k, u, v)
      ensures Name(k', u', v') == Name(k, u, v) <==> (k', u', v') == (k, u, v)
    {
      if Order(k', u', v') == w { OrderInjective(k', u', v', k, u, v); }
      if Name(k', u', v') == Name(k, u, v) { NameInjective(k', u', v', k, u, v); }
    }
    if Open(b, k, u, v) {
      assert Wanted(b, Name(k, u, v));
      HeaderStep(lay, b, heads, CELLS, w, Name(k, u, v), CELLS, w + 1);
    }
  }

  lemma AllHeaders(lay: Layout, b: seq<int>, heads: seq<int>)
    requires |b| == CELLS && HeadersUpTo(lay, b, heads, CELLS, 243)
    ensures HeadersFor(lay, b, heads)
  {
  }

  // ---- rows ----

  function Rank(e: Cand): int { 9 * e.cell + e.value - 1 }

  // The rows made for the candidates before rank w.
  ghost predicate RowsUpTo(lay: Layout, b: seq<int>, heads: seq<int>, cands: seq<Cand>, w: int)
    requires |b| == CELLS
  {
    && lay.Ok() && |heads| == 400 && RowCount(lay) == |cands|
    && (forall r :: 0 <= r < |cands| ==> Candidate(b, cands[r]) && Rank(cands[r]) < w)
    && (forall r, r' :: 0 <= r < r' < |cands| ==> cands[r] != cands[r'])
    && (forall e :: Candidate(b, e) && Rank(e) < w ==> e in cands)
    && forall r: nat, t: nat :: r < |cands| && t < 4 ==> NodeFor(lay, heads, cands[r], NodeAt(lay, r, t), t)
  }

  lemma NoRowsYet(lay: Layout, b: seq<int>, heads: seq<int>)
    requires |b| == CELLS && lay.Ok() && NoRows(lay) && |heads| == 400
    ensures RowsUpTo(lay, b, heads, [], 0)
  {
  }

  lemma RankInjective(e: Cand, f: Cand)
    requires 1 <= e.value <= 9 && 1 <= f.value <= 9 && Rank(e) == Rank(f)
    ensures e == f
  {
  }

  lemma RowSkipped(lay: Layout, b: seq<int>, heads: seq<int>, cands: seq<Cand>, e: Cand)
    requires |b| == CELLS && RowsUpTo(lay, b, heads, cands, Rank(e)) && !Candidate(b, e) && 1 <= e.value <= 9
    ensures RowsUpTo(lay, b, heads, cands, Rank(e) + 1)
  {
  }

  ghost function RowHeads(heads: seq<int>, e: Cand): (hs: seq<nat>)
    requires |heads| == 400 && e.cell < CELLS && e.value < 10 && forall t: nat :: t < 4 ==>
      CandName(e, t) < 400 && heads[CandName(e, t)] >= 0
    ensures |hs| == 4 && forall t: nat :: t < 4 ==> hs[t] == heads[CandName(e, t)]
  {
    seq(4, t requires 0 <= t < 4 => heads[CandName(e, t)])
  }

  ghost function RowNamesOf(e: Cand): (xs: seq<nat>)
    requires e.cell < CELLS
    ensures |xs| == 4 && forall t: nat :: t < 4 ==> xs[t] == CandName(e, t)
  {
    seq(4, t requires 0 <= t < 4 => CandName(e, t))
  }

  // A candidate's four constraints are open and have four different headers.
  lemma CandidateHeads(lay: Layout, b: seq<int>, heads: seq<int>, e: Cand)
    requires |b| == CELLS && HeadersFor(lay, b, heads) && Candidate(b, e)
    ensures e.cell < CELLS && e.value < 10
    ensures forall t: nat :: t < 4 ==> CandName(e, t) < 400 && 1 <= heads[CandName(e, t)] <= lay.columns
    ensures forall t: nat :: t < 4 ==> 1 <= RowHeads(heads, e)[t] <= lay.columns
    ensures NewRow(lay, RowHeads(heads, e), RowNamesOf(e))
  {
  }

  lemma RowAdded(lay: Layout, b: seq<int>, heads: seq<int>, cands: seq<Cand>, e: Cand)
    requires |b| == CELLS && HeadersFor(lay, b, heads) && Candidate(b, e) && |lay.name| == |lay.col|
    requires forall t: nat :: t < 4 ==> CandName(e, t) < 400 && 1 <= heads[CandName(e, t)]
    requires RowsUpTo(lay, b, heads, cands, Rank(e))
    requires WithRow(lay, RowHeads(heads, e), RowNamesOf(e)).Ok()
    ensures RowsUpTo(WithRow(lay, RowHeads(heads, e), RowNamesOf(e)), b, heads, cands + [e], Rank(e) + 1)
    ensures HeadersFor(WithRow(lay, RowHeads(heads, e), RowNamesOf(e)), b, heads)
  {
    var lay', cands' := WithRow(lay, RowHeads(heads, e), RowNamesOf(e)), cands + [e];
    assert RowCount(lay') == |cands'|;
    forall f | Candidate(b, f) && Rank(f) < Rank(e) + 1
      ensures f in cands'
    {
      if Rank(f) == Rank(e) { RankInjective(e, f); }
    }
    forall r: nat, t: nat | r < |cands'| && t < 4
      ensures NodeFor(lay', heads, cands'[r], NodeAt(lay', r, t), t)
    {
      RowNodeAdded(lay, heads, cands, e, r, t);
    }
    HeadersKept(lay, b, heads, lay');
  }

  lemma RowNodeAdded(lay: Layout, heads: seq<int>, cands: seq<Cand>, e: Cand, r: nat, t: nat)
    requires |heads| == 400 && lay.Whole() && |lay.name| == |lay.col| && RowCount(lay) == |cands| && r <= |cands| &&
      t < 4
    requires e.cell < CELLS && e.value < 10
    requires forall i: nat :: i < 4 ==> CandName(e, i) < 400 && 1 <= heads[CandName(e, i)]
    requires r < |cands| ==> NodeFor(lay, heads, cands[r], NodeAt(lay, r, t), t)
    ensures NodeFor(WithRow(lay, RowHeads(heads, e), RowNamesOf(e)), heads, (cands + [e])[r], NodeAt(lay, r, t), t)
  {
  }

  lemma HeadersKept(lay: Layout, b: seq<int>, heads: seq<int>, lay': Layout)
    requires |b| == CELLS && HeadersFor(lay, b, heads) && lay'.columns == lay.columns && lay.name <= lay'.name
    ensures HeadersFor(lay', b, heads)
  {
  }

  lemma AllRows(lay: Layout, b: seq<int>, heads: seq<int>, cands: seq<Cand>)
    requires IsBoard(b) && HeadersFor(lay, b, heads) && RowsUpTo(lay, b, heads, cands, 729)
    ensures Encodes(lay, b, heads, cands)
  {
  }
}
