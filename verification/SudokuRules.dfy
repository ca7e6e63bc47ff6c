// The rules of Sudoku on an 81-cell board, with 0 for an empty cell.
module SudokuRules {
  const CELLS: nat := 81

  ghost predicate IsBoard(b: seq<int>) {
    |b| == CELLS && forall i :: 0 <= i < CELLS ==> 0 <= b[i] <= 9
  }

  // The row (k = 0), column (k = 1) or box (k = 2) of cell i.
  function Unit(k: nat, i: nat): (u: nat)
    requires k < 3 && i < CELLS
    ensures u < 9
  {
    if k == 0 then i / 9 else if k == 1 then i % 9 else i / 9 / 3 * 3 + i % 9 / 3
  }

  // The j-th cell of a unit.
  function CellAt(k: nat, u: nat, j: nat): (i: nat)
    requires k < 3 && u < 9 && j < 9
    ensures i < CELLS
  {
    if k == 0 then 9 * u + j else if k == 1 then 9 * j + u else (u / 3 * 3 + j / 3) * 9 + (u % 3 * 3 + j % 3)
  }

  function Place(k: nat, i: nat): (j: nat)
    requires k < 3 && i < CELLS
    ensures j < 9
  {
    if k == 0 then i % 9 else if k == 1 then i / 9 else i / 9 % 3 * 3 + i % 9 % 3
  }

  lemma Digits9(a: nat, b: nat)
    requires b < 9
    ensures (9 * a + b) / 9 == a && (9 * a + b) % 9 == b
  {
  }

  lemma Digits3(a: nat, b: nat)
    requires b < 3
    ensures (3 * a + b) / 3 == a && (3 * a + b) % 3 == b
  {
  }

  lemma UnitOfCellAt(k: nat, u: nat, j: nat)
    requires k < 3 && u < 9 && j < 9
    ensures Unit(k, CellAt(k, u, j)) == u && Place(k, CellAt(k, u, j)) == j
  {
    if k == 2 {
      var r, c := u / 3 * 3 + j / 3, u % 3 * 3 + j % 3;
      Digits9(r, c);
      Digits3(u / 3, j / 3);
      Digits3(u % 3, j % 3);
      assert CellAt(k, u, j) == 9 * r + c;
    } else {
      Digits9(u, j);
      Digits9(j, u);
    }
  }

  lemma CellAtOfUnit(k: nat, i: nat)
    requires k < 3 && i < CELLS
    ensures CellAt(k, Unit(k, i), Place(k, i)) == i
  {
    if k == 2 {
      var r, c := i / 9, i % 9;
      assert Unit(k, i) == r / 3 * 3 + c / 3 && Place(k, i) == r % 3 * 3 + c % 3;
      assert Unit(k, i) / 3 == r / 3 && Unit(k, i) % 3 == c / 3;
      assert Place(k, i) / 3 == r % 3 && Place(k, i) % 3 == c % 3;
    }
  }

  ghost predicate Distinct(g: seq<int>)
    requires |g| == CELLS
  {
    forall k: nat, i: nat, j: nat :: k < 3 && i < CELLS && j < CELLS && i != j && Unit(k, i) == Unit(k, j) ==>
      g[i] != g[j]
  }

  ghost predicate Shows(g: seq<int>, k: nat, u: nat, v: int)
    requires |g| == CELLS && k < 3
  {
    exists i: nat :: i < CELLS && Unit(k, i) == u && g[i] == v
  }

  ghost predicate Complete(g: seq<int>)
    requires |g| == CELLS
  {
    forall k: nat, u: nat, v :: k < 3 && u < 9 && 1 <= v <= 9 ==> Shows(g, k, u, v)
  }

  // A filled grid: every row, column and box holds each of 1..9 exactly once.
  ghost predicate Solved(g: seq<int>) {
    && |g| == CELLS && (forall i :: 0 <= i < CELLS ==> 1 <= g[i] <= 9)
    && Distinct(g) && Complete(g)
  }

  // g fills in the empty cells of b.
  ghost predicate Completes(b: seq<int>, g: seq<int>)
    requires |b| == CELLS
  {
    Solved(g) && forall i :: 0 <= i < CELLS && b[i] != 0 ==> g[i] == b[i]
  }

  // ---- the rules in coordinates ----

  // Two cells of the grid that must differ: in the same row, column or box of three by three.
  predicate Clash(r: nat, c: nat, r': nat, c': nat) {
    (r != r' || c != c') && (r == r' || c == c' || (r / 3 == r' / 3 && c / 3 == c' / 3))
  }

  // A filled grid: 1..9 everywhere, and no value twice in a row, a column or a box.
  ghost predicate Legal(g: seq<int>) {
    && |g| == 81 && (forall i :: 0 <= i < 81 ==> 1 <= g[i] <= 9)
    && forall r: nat, c: nat, r': nat, c': nat :: r < 9 && c < 9 && r' < 9 && c' < 9 && Clash(r, c, r', c') ==>
         g[9 * r + c] != g[9 * r' + c']
  }

  // Cells share a unit exactly if they share a row, a column or a box.
  lemma UnitsMeet(i: nat, j: nat)
    requires i < CELLS && j < CELLS && i != j
    ensures i == 9 * (i / 9) + i % 9 && i / 9 < 9 && (i / 9 != j / 9 || i % 9 != j % 9)
    ensures (exists k: nat :: k < 3 && Unit(k, i) == Unit(k, j)) <==> Clash(i / 9, i % 9, j / 9, j % 9)
  {
    var r, c, r', c' := i / 9, i % 9, j / 9, j % 9;
    assert Unit(0, i) == r && Unit(1, i) == c && Unit(0, j) == r' && Unit(1, j) == c';
    Digits3(r / 3, c / 3);
    Digits3(r' / 3, c' / 3);
    assert Unit(2, i) == 3 * (r / 3) + c / 3 && Unit(2, j) == 3 * (r' / 3) + c' / 3;
  }

  // The units are the rows, columns and boxes of the grid.
  lemma SolvedIffLegal(g: seq<int>)
    ensures Solved(g) <==> Legal(g)
  {
    if Solved(g) { SolvedLegal(g); }
    if Legal(g) { LegalSolved(g); }
  }

  lemma SolvedLegal(g: seq<int>)
    requires Solved(g)
    ensures Legal(g)
  {
    hide Unit, Clash, Complete;
    forall r: nat, c: nat, r': nat, c': nat | r < 9 && c < 9 && r' < 9 && c' < 9 && Clash(r, c, r', c')
      ensures g[9 * r + c] != g[9 * r' + c']
    {
      Digits9(r, c);
      Digits9(r', c');
      NotItself(r, c, r', c');
      var i, j := 9 * r + c, 9 * r' + c';
      UnitsMeet(i, j);
      var k: nat :| k < 3 && Unit(k, i) == Unit(k, j);
    }
  }

  lemma NotItself(r: nat, c: nat, r': nat, c': nat)
    requires Clash(r, c, r', c') && c < 9 && c' < 9
    ensures 9 * r + c != 9 * r' + c'
  {
  }

  lemma LegalSolved(g: seq<int>)
    requires Legal(g)
    ensures Solved(g)
  {
    hide Unit, Clash, Complete;
    forall k: nat, i: nat, j: nat | k < 3 && i < CELLS && j < CELLS && i != j && Unit(k, i) == Unit(k, j)
      ensures g[i] != g[j]
    {
      UnitsMeet(i, j);
      UnitsMeet(j, i);
    }
    DistinctIffComplete(g);
  }

  // ---- nine cells, nine values ----

  ghost function Values(s: seq<int>): set<int> { set x | x in s }

  lemma {:induction false} FewValues(s: seq<int>)
    ensures |Values(s)| <= |s|
    ensures (forall i, j :: 0 <= i < j < |s| ==> s[i] != s[j]) ==> |Values(s)| == |s|
  {
    if s != [] {
      var t, x := s[..|s| - 1], s[|s| - 1];
      FewValues(t);
      assert Values(s) == Values(t) + {x};
    }
  }

  lemma SameSize(S: set<int>, T: set<int>)
    requires S <= T && |S| == |T|
    ensures S == T
  {
    assert |T - S| == 0;
  }

  lemma SubsetSize(S: set<int>, T: set<int>)
    requires S <= T
    ensures |S| <= |T|
  {
    assert T == S + (T - S);
  }

  const DIGITS: set<int> := {1, 2, 3, 4, 5, 6, 7, 8, 9}

  lemma NineDigits(v: int)
    ensures |DIGITS| == 9 && (v in DIGITS <==> 1 <= v <= 9)
  {
  }

  lemma AllThere(s: seq<int>, v: int)
    requires |s| == 9 && (forall i :: 0 <= i < 9 ==> 1 <= s[i] <= 9) && 1 <= v <= 9
    requires forall i, j :: 0 <= i < j < 9 ==> s[i] != s[j]
    ensures v in s
  {
    FewValues(s);
    NineDigits(v);
    assert Values(s) <= DIGITS;
    SameSize(Values(s), DIGITS);
  }

  lemma NoneTwice(s: seq<int>, i: nat, j: nat)
    requires |s| == 9 && forall v :: 1 <= v <= 9 ==> v in s
    requires i < j < 9
    ensures s[i] != s[j]
  {
    if s[i] == s[j] {
      var t := s[..j] + s[j + 1..];
      forall v | v in DIGITS
        ensures v in t
      {
        assert v in s;
        var e :| 0 <= e < 9 && s[e] == v;
        if e < j { assert t[e] == v; } else if e > j { assert t[e - 1] == v; } else { assert t[i] == v; }
      }
      assert DIGITS <= Values(t);
      FewValues(t);
      NineDigits(1);
      SubsetSize(DIGITS, Values(t));
    }
  }

  ghost function UnitValues(g: seq<int>, k: nat, u: nat): (s: seq<int>)
    requires |g| == CELLS && k < 3 && u < 9
    ensures |s| == 9 && forall j: nat :: j < 9 ==> s[j] == g[CellAt(k, u, j)]
  {
    seq(9, j requires 0 <= j < 9 => g[CellAt(k, u, j)])
  }

  // With values 1..9, showing every value in every unit and repeating none are the same thing.
  lemma DistinctIffComplete(g: seq<int>)
    requires |g| == CELLS && forall i :: 0 <= i < CELLS ==> 1 <= g[i] <= 9
    ensures Distinct(g) <==> Complete(g)
  {
    if Distinct(g) { DistinctComplete(g); }
    if Complete(g) { CompleteDistinct(g); }
  }

  lemma DistinctComplete(g: seq<int>)
    requires |g| == CELLS && (forall i :: 0 <= i < CELLS ==> 1 <= g[i] <= 9) && Distinct(g)
    ensures Complete(g)
  {
    forall k: nat, u: nat, v | k < 3 && u < 9 && 1 <= v <= 9
      ensures Shows(g, k, u, v)
    {
      var s := UnitValues(g, k, u);
      forall i, j | 0 <= i < j < 9
        ensures s[i] != s[j]
      {
        UnitOfCellAt(k, u, i);
        UnitOfCellAt(k, u, j);
      }
      AllThere(s, v);
      var j: nat :| j < 9 && s[j] == v;
      UnitOfCellAt(k, u, j);
    }
  }

  lemma CompleteDistinct(g: seq<int>)
    requires |g| == CELLS && Complete(g)
    ensures Distinct(g)
  {
    forall k: nat, i: nat, j: nat | k < 3 && i < CELLS && j < CELLS && i != j && Unit(k, i) == Unit(k, j)
      ensures g[i] != g[j]
    {
      var u := Unit(k, i);
      var s := UnitValues(g, k, u);
      forall v | 1 <= v <= 9
        ensures v in s
      {
        assert Shows(g, k, u, v);
        var e: nat :| e < CELLS && Unit(k, e) == u && g[e] == v;
        CellAtOfUnit(k, e);
        assert s[Place(k, e)] == v;
      }
      CellAtOfUnit(k, i);
      CellAtOfUnit(k, j);
      var x, y := Place(k, i), Place(k, j);
      if x < y { NoneTwice(s, x, y); } else { NoneTwice(s, y, x); }
    }
  }
}
