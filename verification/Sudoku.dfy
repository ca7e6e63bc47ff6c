// SolveSudoku: from a puzzle string to its completion, or to "NoSolution".
module Sudoku {
  import opened DancingLinks
  import opened Matrix
  import opened ExactCovers
  import opened StackedRows
  import opened SudokuRules
  import opened SudokuEncoding
  import opened SudokuSolvers

  const NO_SOLUTION: string := "NoSolution"

  // The digits of a puzzle; characters other than '0'..'9' give numbers outside 0..9.
  function Digits(puzzle: string): (b: seq<int>)
    ensures |b| == |puzzle| && forall i :: 0 <= i < |b| ==> b[i] == puzzle[i] as int - '0' as int
  {
    seq(|puzzle|, i requires 0 <= i < |puzzle| => puzzle[i] as int - '0' as int)
  }

  // g fills in the puzzle by the rules; '0' stands for an empty cell.
  ghost predicate Solution(puzzle: string, g: seq<int>)
    requires |puzzle| == 81
  {
    Legal(g) && forall i :: 0 <= i < 81 && puzzle[i] != '0' ==> puzzle[i] as int == '0' as int + g[i]
  }

  lemma SolutionIs(puzzle: string, g: seq<int>)
    requires |puzzle| == 81
    ensures Solution(puzzle, g) <==> Completes(Digits(puzzle), g)
    ensures Solution(puzzle, g) ==> IsBoard(Digits(puzzle))
  {
    SolvedIffLegal(g);
    assert Legal(g) ==> |g| == 81 && forall i :: 0 <= i < 81 ==> 1 <= g[i] <= 9;
    hide Legal, Solved;
  }

  lemma NoSolution(puzzle: string)
    requires |puzzle| == 81 && (IsBoard(Digits(puzzle)) ==> forall g :: !Completes(Digits(puzzle), g))
    ensures forall g :: !Solution(puzzle, g)
  {
    hide Solution, Completes, IsBoard;
    forall g
      ensures !Solution(puzzle, g)
    {
      SolutionIs(puzzle, g);
    }
  }

  // Sound and complete for every string of 81 characters.
  method SolveSudoku(puzzle: string) returns (result: string)
    requires |puzzle| == 81
    ensures result == "NoSolution" <==> forall g :: !Solution(puzzle, g)
    ensures result != "NoSolution" ==> |result| == 81 && Solution(puzzle, Digits(result))
  {
    hide Completes, IsBoard, Encodes, Represents, Fits, Live, ExactCover, MatrixOf, Fill, Layout.Ok, Solved, AllColumns,
         Solution;
    result := NO_SOLUTION;
    var board := new int[CELLS](_ => 0);
    var valid := true;
    var i: nat := 0;
    while i < CELLS
      invariant i <= CELLS && board[..i] == Digits(puzzle)[..i]
      invariant valid <==> forall j :: 0 <= j < i ==> 0 <= Digits(puzzle)[j] <= 9
    {
      board[i] := puzzle[i] as int - '0' as int;
      valid := valid && 0 <= board[i] <= 9;
      i := i + 1;
    }
    ghost var b := Digits(puzzle);
    assert board[..] == b;
    BoardTest(b);
    if valid {
      var s := new SudokuSolver(board);
      s.Parts();
      var ok := s.Solve();
      if ok {
        s.Parts();
        SearchSound(s.lay, b, s.heads, s.cands, s.stack);
        ghost var g := board[..];
        result := ToText(board);
        TextDigits(g, result);
        SolutionIs(puzzle, g);
        return;
      }
      EmptyStack(s.lay);
      SearchComplete(s.lay, b, s.heads, s.cands);
    }
    NoSolution(puzzle);
  }

  lemma BoardTest(b: seq<int>)
    requires |b| == CELLS
    ensures IsBoard(b) <==> forall j :: 0 <= j < CELLS ==> 0 <= b[j] <= 9
  {
  }

  method ToText(board: array<int>) returns (result: string)
    requires board.Length == CELLS && Solved(board[..])
    ensures |result| == CELLS && forall j :: 0 <= j < CELLS ==> result[j] as int == board[j] + '0' as int
  {
    result := "";
    var i: nat := 0;
    while i < CELLS
      invariant i <= CELLS && |result| == i
      invariant forall j :: 0 <= j < i ==> result[j] as int == board[j] + '0' as int
    {
      assert board[i] == board[..][i];
      result := result + [(board[i] + '0' as int) as char];
      i := i + 1;
    }
  }

  lemma TextDigits(g: seq<int>, text: string)
    requires |g| == |text| == CELLS && forall j :: 0 <= j < CELLS ==> text[j] as int == g[j] + '0' as int
    ensures Digits(text) == g && text != NO_SOLUTION
  {
  }

  // A full stack fills the board in correctly.
  lemma SearchSound(lay: Layout, b: seq<int>, heads: seq<int>, cands: seq<Cand>, stack: seq<nat>)
    requires Encodes(lay, b, heads, cands) && Fits(lay, stack) && Live(lay, stack) == {}
    ensures Completes(b, Fill(lay, cands, b, stack)) && Solved(Fill(lay, cands, b, stack))
  {
    StackCovers(lay, stack);
    FillShows(lay, b, heads, cands, stack);
    assert AllColumns(lay) - Live(lay, stack) == AllColumns(lay);
    CoverCompletes(lay, b, heads, cands, StackRows(lay, stack), Fill(lay, cands, b, stack));
  }

  // Without an exact cover there is no completion.
  lemma SearchComplete(lay: Layout, b: seq<int>, heads: seq<int>, cands: seq<Cand>)
    requires Encodes(lay, b, heads, cands)
    requires forall S :: !ExactCover(MatrixOf(lay), AllColumns(lay), S)
    ensures forall g :: !Completes(b, g)
  {
    forall g
      ensures !Completes(b, g)
    {
      if Completes(b, g) { CompletionCovers(lay, b, heads, cands, g); }
    }
  }
}
