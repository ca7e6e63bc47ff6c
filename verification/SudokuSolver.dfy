// The solver itself: a fixed pool of nodes relinked in place, and a search that
// undoes every link it changed when it fails.
module SudokuSolvers {
  import opened Rings
  import opened DancingLinks
  import opened Matrix
  import C = Covering
  import opened ExactCovers
  import opened StackedRows
  import opened SudokuRules
  import opened SudokuEncoding
  import opened SudokuSetup
  import opened Building

  const MAX_NODES: nat := 1 + 81 * 4 + 9 * 9 * 9 * 4

  class SudokuSolver {
    const inout: array<int>
    const nodes: array<Node>
    const columns: array<int>
    var stack: seq<nat>
    var curr: nat

    ghost var lay: Layout
    ghost var cands: seq<Cand>
    ghost var given: seq<int>
    ghost var heads: seq<int>

    // ---- setting up ----

    // For any givens, clashing ones included, the links represent the matrix that encodes them.
    constructor (board: array<int>)
      requires IsBoard(board[..])
      ensures Valid() && stack == [] && given == board[..] && inout == board
      ensures fresh(nodes) && fresh(columns) && curr <= MAX_NODES
    {
      inout := board;
      nodes := new Node[MAX_NODES](_ => Node(0, 0, 0, 0, 0, 0, 0));
      columns := new int[400](_ => 0);
      stack := [];
      curr := 0;
      cands := [];
      given := board[..];
      heads := seq(400, _ => 0);
      lay := Layout(0, [0], [0]);
      new;
      SetUp();
    }

    method SetUp()
      requires curr == 0 && nodes.Length == MAX_NODES && columns.Length == 400 && columns[..] == heads
      requires lay == Layout(0, [0], [0]) && stack == [] && cands == [] && heads == seq(400, _ => 0)
      requires forall m :: 0 <= m < nodes.Length ==> nodes[m] == Node(0, 0, 0, 0, 0, 0, 0)
      requires IsBoard(inout[..]) && given == inout[..] && inout != columns
      modifies nodes, columns, `curr, `lay, `heads, `cands
      ensures Valid() && curr <= MAX_NODES
    {
      hide Represents, Encodes, HeadersUpTo, HeadersFor, RowsUpTo, Marks, Fits, StackedRows.Live, AllColumns,
        Layout.Ok, Closed, Unit;
      MakeRoot();
      NoHeadersYet(lay, given, heads);
      var rows, cols, boxes := MarkGivens();
      AppendColumns(rows, cols, boxes);
      AppendRows(rows, cols, boxes);
      EmptyStack(lay);
    }

    method MakeRoot()
      requires curr == 0 && nodes.Length == MAX_NODES && columns.Length == 400 && columns[..] == heads
      requires lay == Layout(0, [0], [0])
      requires forall m :: 0 <= m < nodes.Length ==> nodes[m] == Node(0, 0, 0, 0, 0, 0, 0)
      modifies nodes, `curr
      ensures Built() && NoRows(lay) && curr == 1
    {
      hide Represents;
      var root := NewColumn(0);
      assert nodes[0] == Node(0, 0, 0, 0, 0, 0, 0) && Closed(nodes[..]);
      RootOnly(lay, nodes[..]);
    }

    // Which values are given in which row, column and box.
    method MarkGivens() returns (rows: array2<bool>, cols: array2<bool>, boxes: array2<bool>)
      requires IsBoard(inout[..])
      ensures fresh(rows) && fresh(cols) && fresh(boxes)
      ensures Marks(rows, 0, inout[..], CELLS) && Marks(cols, 1, inout[..], CELLS) && Marks(boxes, 2, inout[..], CELLS)
    {
      rows := new bool[CELLS, 10]((_, _) => false);
      cols := new bool[CELLS, 10]((_, _) => false);
      boxes := new bool[CELLS, 10]((_, _) => false);
      var i: nat := 0;
      while i < CELLS
        invariant i <= CELLS
        invariant Marks(rows, 0, inout[..], i) && Marks(cols, 1, inout[..], i) && Marks(boxes, 2, inout[..], i)
      {
        var val := inout[i];
        MarkStep(inout[..], i);
        rows[Unit(0, i), val] := true;
        cols[Unit(1, i), val] := true;
        boxes[Unit(2, i), val] := true;
        i := i + 1;
      }
    }

    method NewColumn(n: nat) returns (c: nat)
      requires curr < nodes.Length
      modifies nodes, `curr
      ensures c == old(curr) && curr == c + 1 && nodes[..] == Fresh(old(nodes[..]), c, c, n)
    {
      c := curr;
      nodes[c] := Node(c, c, c, c, c, n, 0);
      curr := curr + 1;
    }

    method PutLeftOf(o: nat, n: nat)
      requires Closed(nodes[..]) && o < nodes.Length && n < nodes.Length
      modifies nodes
      ensures nodes[..] == PutLeft(old(nodes[..]), o, n)
    {
      nodes[n] := nodes[n].(left := nodes[o].left);
      nodes[n] := nodes[n].(right := o);
      nodes[nodes[o].left] := nodes[nodes[o].left].(right := n);
      nodes[o] := nodes[o].(left := n);
    }

    method PutUpOn(h: nat, n: nat)
      requires Closed(nodes[..]) && h < nodes.Length && n < nodes.Length
      modifies nodes
      ensures nodes[..] == PutUp(old(nodes[..]), h, n)
    {
      nodes[n] := nodes[n].(up := nodes[h].up);
      nodes[n] := nodes[n].(down := h);
      nodes[nodes[h].up] := nodes[nodes[h].up].(down := n);
      nodes[h] := nodes[h].(up := n);
      nodes[h] := nodes[h].(size := nodes[h].size + 1);
      nodes[n] := nodes[n].(col := h);
    }

    // The links represent the headers and rows made so far, and columns finds each header by name.
    ghost predicate Built()
      reads this, nodes, columns
    {
      && lay.Ok() && curr == lay.End() <= nodes.Length && nodes.Length == MAX_NODES
      && Represents(lay, nodes[..], AllColumns(lay))
      && columns.Length == 400 && columns[..] == heads
    }

    method AppendColumn(n: nat)
      requires Built() && NoRows(lay) && curr < MAX_NODES && n < 400 && heads[n] == 0
      modifies nodes, columns, `curr, `lay, `heads
      ensures Built() && NoRows(lay) && curr == old(curr) + 1
      ensures lay == WithHeader(old(lay), n) && heads == old(heads)[n := old(lay).First()]
    {
      hide Represents;
      ghost var p := nodes[..];
      AppendHeader(lay, p, n);
      RepresentsClosed(lay, p, AllColumns(lay));
      var c := NewColumn(n);
      PutLeftOf(0, c);
      columns[n] := c;
      assert nodes[..] == AddHeader(p, c, n);
      heads := heads[n := c];
      lay := WithHeader(lay, n);
      WithHeaderOk(old(lay), n);
    }

    method AppendColumns(rows: array2<bool>, cols: array2<bool>, boxes: array2<bool>)
      requires Built() && NoRows(lay) && curr == 1 && IsBoard(given) && inout[..] == given && inout != columns
      requires HeadersUpTo(lay, given, heads, 0, 0)
      requires Marks(rows, 0, given, CELLS) && Marks(cols, 1, given, CELLS) && Marks(boxes, 2, given, CELLS)
      modifies nodes, columns, `curr, `lay, `heads
      ensures Built() && NoRows(lay) && curr <= 1 + 81 * 4
      ensures HeadersFor(lay, given, heads)
    {
      hide HeadersUpTo, Represents, Marks, HeadersFor, AllColumns;
      var i: nat := 0;
      while i < CELLS
        invariant i <= CELLS && Built() && NoRows(lay) && curr <= 1 + i
        invariant HeadersUpTo(lay, given, heads, i, 0)
      {
        CellStep(lay, given, heads, i);
        if inout[i] == 0 {
          AppendColumn(i);
        }
        i := i + 1;
      }
      i := 0;
      while i < 9
        invariant i <= 9 && Built() && NoRows(lay) && curr <= 1 + 81 + 27 * i
        invariant HeadersUpTo(lay, given, heads, CELLS, 27 * i)
      {
        var v: nat := 1;
        while v < 10
          invariant 1 <= v <= 10 && Built() && NoRows(lay) && curr <= 1 + 81 + 27 * i + 3 * (v - 1)
          invariant HeadersUpTo(lay, given, heads, CELLS, 27 * i + 3 * (v - 1))
        {
          AppendIfOpen(rows, 0, i, v);
          AppendIfOpen(cols, 1, i, v);
          AppendIfOpen(boxes, 2, i, v);
          v := v + 1;
        }
        i := i + 1;
      }
      AllHeaders(lay, given, heads);
    }

    method AppendIfOpen(marks: array2<bool>, k: nat, u: nat, v: nat)
      requires k < 3 && u < 9 && 1 <= v <= 9
      requires Built() && NoRows(lay) && curr < MAX_NODES && IsBoard(given)
      requires HeadersUpTo(lay, given, heads, CELLS, Order(k, u, v)) && Marks(marks, k, given, CELLS)
      modifies nodes, columns, `curr, `lay, `heads
      ensures Built() && NoRows(lay) && curr <= old(curr) + 1
      ensures HeadersUpTo(lay, given, heads, CELLS, Order(k, u, v) + 1)
    {
      hide HeadersUpTo, Represents;
      ValueStep(lay, given, heads, k, u, v);
      MarkedIsSeen(marks, k, given, u, v);
      if !marks[u, v] {
        AppendColumn(Name(k, u, v));
      }
    }

    method NewRowNode(name: nat) returns (r: nat)
      requires Closed(nodes[..]) && curr < nodes.Length && name < 400 && columns.Length == 400
      requires 0 < columns[name] < nodes.Length
      modifies nodes, `curr
      ensures r == old(curr) && curr == r + 1
      ensures nodes[..] == AddNode(old(nodes[..]), r, columns[name], name)
    {
      r := curr;
      nodes[r] := Node(r, r, r, r, columns[name], name, 0);
      curr := curr + 1;
      PutUpOn(columns[name], r);
    }

    method AppendCandidate(i: nat, v: nat)
      requires Built() && IsBoard(given) && HeadersFor(lay, given, heads)
      requires Candidate(given, Cand(i, v)) && curr + 4 <= MAX_NODES
      requires RowsUpTo(lay, given, heads, cands, Rank(Cand(i, v)))
      modifies nodes, `curr, `lay, `cands
      ensures Built() && curr == old(curr) + 4 && HeadersFor(lay, given, heads)
      ensures RowsUpTo(lay, given, heads, cands, Rank(Cand(i, v)) + 1)
    {
      hide Represents, RowsUpTo, HeadersFor, Candidate, Layout.Ok, NewRow, AddNodes, LinkRow;
      ghost var e, p, n := Cand(i, v), nodes[..], curr;
      CandidateHeads(lay, given, heads, e);
      ghost var hs, xs := RowHeads(heads, e), RowNamesOf(e);
      RepresentsClosed(lay, p, AllColumns(lay));
      AppendRow(lay, p, hs, xs);
      CandidateNames(given, i, v);
      MakeRow(i, v, hs, xs);
      WithRowOk(lay, hs, xs);
      RowsUpToNamed(lay, given, heads, cands, e);
      RowAdded(lay, given, heads, cands, e);
      lay := WithRow(lay, hs, xs);
      cands := cands + [e];
    }

    // The four nodes of the row "cell i holds v", linked into a circle.
    method MakeRow(i: nat, v: nat, ghost hs: seq<nat>, ghost xs: seq<nat>)
      requires Closed(nodes[..]) && curr + 4 <= nodes.Length && columns.Length == 400 && i < CELLS && v < 10
      requires |hs| == 4 && |xs| == 4 && forall t: nat :: t < 4 ==> xs[t] == CandName(Cand(i, v), t) < 400
      requires forall t: nat :: t < 4 ==> columns[xs[t]] == hs[t] && 0 < hs[t] < nodes.Length
      modifies nodes, `curr
      ensures curr == old(curr) + 4
      ensures nodes[..] == LinkRow(AddNodes(old(nodes[..]), old(curr), hs, xs, 4), old(curr))
    {
      hide AddNode, PutLeft;
      ghost var p, n := nodes[..], curr;
      FourNodes(p, n, hs, xs);
      var n0 := NewRowNode(i);
      var nr := NewRowNode(Name(0, Unit(0, i), v));
      var nc := NewRowNode(Name(1, Unit(1, i), v));
      var nb := NewRowNode(Name(2, Unit(2, i), v));
      PutLeftOf(n0, nr);
      PutLeftOf(n0, nc);
      PutLeftOf(n0, nb);
    }

    method AppendRows(rows: array2<bool>, cols: array2<bool>, boxes: array2<bool>)
      requires Built() && NoRows(lay) && curr <= 1 + 81 * 4 && IsBoard(given) && inout[..] == given && inout != columns
      requires HeadersFor(lay, given, heads) && cands == []
      requires Marks(rows, 0, given, CELLS) && Marks(cols, 1, given, CELLS) && Marks(boxes, 2, given, CELLS)
      modifies nodes, `curr, `lay, `cands
      ensures Built() && curr <= MAX_NODES
      ensures Encodes(lay, given, heads, cands)
    {
      hide RowsUpTo, HeadersFor, Represents, Candidate, Layout.Ok, AllColumns;
      NoRowsYet(lay, given, heads);
      var i: nat := 0;
      while i < CELLS
        invariant i <= CELLS && Built() && curr <= 1 + 81 * 4 + 36 * i
        invariant HeadersFor(lay, given, heads) && RowsUpTo(lay, given, heads, cands, 9 * i)
      {
        var v: nat := 1;
        if inout[i] != 0 {
          CellGiven(lay, given, heads, cands, i);
        } else {
          while v < 10
            invariant 1 <= v <= 10 && Built() && curr <= 1 + 81 * 4 + 36 * i + 4 * (v - 1)
            invariant HeadersFor(lay, given, heads) && RowsUpTo(lay, given, heads, cands, 9 * i + v - 1)
          {
            MarkedIsSeen(rows, 0, given, Unit(0, i), v);
            MarkedIsSeen(cols, 1, given, Unit(1, i), v);
            MarkedIsSeen(boxes, 2, given, Unit(2, i), v);
            CandidateTest(given, i, v);
            if !(rows[Unit(0, i), v] || cols[Unit(1, i), v] || boxes[Unit(2, i), v]) {
              AppendCandidate(i, v);
            } else {
              RowSkipped(lay, given, heads, cands, Cand(i, v));
            }
            v := v + 1;
          }
        }
        i := i + 1;
      }
      AllRows(lay, given, heads, cands);
    }

    // ---- single links ----

    method HideNodeAt(j: nat)
      requires Closed(nodes[..]) && j < nodes.Length
      modifies nodes
      ensures nodes[..] == HideNode(old(nodes[..]), j)
    {
      nodes[nodes[j].down] := nodes[nodes[j].down].(up := nodes[j].up);
      nodes[nodes[j].up] := nodes[nodes[j].up].(down := nodes[j].down);
      nodes[nodes[j].col] := nodes[nodes[j].col].(size := nodes[nodes[j].col].size - 1);
    }

    method UnhideNodeAt(j: nat)
      requires Closed(nodes[..]) && j < nodes.Length
      modifies nodes
      ensures nodes[..] == UnhideNode(old(nodes[..]), j)
    {
      nodes[nodes[j].col] := nodes[nodes[j].col].(size := nodes[nodes[j].col].size + 1);
      nodes[nodes[j].down] := nodes[nodes[j].down].(up := j);
      nodes[nodes[j].up] := nodes[nodes[j].up].(down := j);
    }

    method HideHeader(c: nat)
      requires Closed(nodes[..]) && c < nodes.Length
      modifies nodes
      ensures nodes[..] == HideColumn(old(nodes[..]), c)
    {
      nodes[nodes[c].right] := nodes[nodes[c].right].(left := nodes[c].left);
      nodes[nodes[c].left] := nodes[nodes[c].left].(right := nodes[c].right);
    }

    method UnhideHeader(c: nat)
      requires Closed(nodes[..]) && c < nodes.Length
      modifies nodes
      ensures nodes[..] == UnhideColumn(old(nodes[..]), c)
    {
      nodes[nodes[c].right] := nodes[nodes[c].right].(left := c);
      nodes[nodes[c].left] := nodes[nodes[c].left].(right := c);
    }

    // ---- rows and columns ----

    // Walk right around the row, hiding every other node.
    method HideRowOf(row: nat)
      requires C.Reversible(lay, nodes[..], row)
      modifies nodes
      ensures nodes[..] == C.HideRow(lay, old(nodes[..]), row, 3)
    {
      hide *;
      ghost var q := nodes[..];
      ghost var i: nat := 1;
      C.RowWalk(lay, q, row, 0, 0);
      C.RowWalk(lay, q, row, 0, 1);
      var j := nodes[row].right;
      while j != row
        invariant 1 <= i <= 4 && j == (if i < 4 then lay.Nth(row, i) else row) && (i < 4 ==> j != row)
        invariant nodes[..] == C.HideRow(lay, q, row, i - 1)
        decreases 4 - i
      {
        C.RowWalk(lay, q, row, i - 1, i);
        HideNodeAt(j);
        C.RowWalk(lay, q, row, i, i);
        if i < 3 { C.RowWalk(lay, q, row, i, i + 1); }
        j := nodes[j].right;
        i := i + 1;
      }
    }

    // Walk left around the row, putting every other node back.
    method UnhideRowOf(row: nat, ghost q: Pool)
      requires C.Reversible(lay, q, row) && nodes[..] == C.HideRow(lay, q, row, 3)
      modifies nodes
      ensures nodes[..] == q
    {
      hide *;
      ghost var i: nat := 3;
      C.RowWalk(lay, q, row, 3, 0);
      C.RowWalk(lay, q, row, 3, 3);
      var j := nodes[row].left;
      while j != row
        invariant 0 <= i <= 3 && j == lay.Nth(row, i) && (i > 0 <==> j != row)
        invariant nodes[..] == C.HideRow(lay, q, row, i)
        decreases i
      {
        C.RowWalk(lay, q, row, i, i);
        UnhideNodeAt(j);
        C.RowWalk(lay, q, row, i - 1, i);
        C.RowWalk(lay, q, row, i - 1, i - 1);
        j := nodes[j].left;
        i := i - 1;
      }
      C.RowWalk(lay, q, row, 0, 0);
    }

    method Cover(c: nat, ghost A: set<nat>)
      requires Represents(lay, nodes[..], A) && c in A
      modifies nodes
      ensures nodes[..] == C.Cover(lay, old(nodes[..]), A, c)
    {
      hide *;
      C.Usable(lay, nodes[..], A, c);
      ghost var p := nodes[..];
      ghost var at: nat := lay.First();
      C.CoverWalk(lay, p, A, c);
      HideHeader(c);
      C.KeepsLink(lay, p, A, c, at, c);
      var row := nodes[c].down;
      while row != c
        invariant lay.First() <= at <= lay.End()
        invariant IsNext(lay.Members(lay.AliveNodes(A), c), at, row, c)
        invariant nodes[..] == C.CoverUpTo(lay, p, A, c, at)
        decreases lay.End() - at
      {
        C.SkipForward(lay, p, A, c, at, row);
        C.RowReady(lay, p, A, c, row);
        HideRowOf(row);
        at := row + 1;
        C.KeepsLink(lay, p, A, c, at, row);
        row := nodes[row].down;
      }
      C.SkipForward(lay, p, A, c, at, row);
    }

    method Uncover(c: nat, ghost A: set<nat>, ghost p: Pool)
      requires Represents(lay, p, A) && c in A
      requires |p| == nodes.Length && nodes[..] == C.Cover(lay, p, A, c)
      modifies nodes
      ensures nodes[..] == p
    {
      hide *;
      C.Usable(lay, p, A, c);
      ghost var at: nat := lay.End();
      C.CoverWalk(lay, p, A, c);
      C.KeepsLink(lay, p, A, c, at, c);
      var row := nodes[c].up;
      while row != c
        invariant lay.First() <= at <= lay.End()
        invariant IsPrev(lay.Members(lay.AliveNodes(A), c), at, row, c)
        invariant nodes[..] == C.CoverUpTo(lay, p, A, c, at)
        decreases at
      {
        C.SkipBackward(lay, p, A, c, at, row);
        C.RowReady(lay, p, A, c, row);
        UnhideRowOf(row, C.CoverUpTo(lay, p, A, c, row));
        at := row;
        C.KeepsLink(lay, p, A, c, at, row);
        row := nodes[row].up;
      }
      C.SkipBackward(lay, p, A, c, at, row);
      assert nodes[..] == HideColumn(p, c);
      UnhideHeader(c);
      C.HideColumnKeeps(lay, p, A, c);
      UnhideColumnUndoes(p, c);
    }

    // ---- the search ----

    // The links represent what the stacked rows leave of the matrix, which encodes the given board.
    ghost predicate Valid()
      reads this, nodes, inout
    {
      && inout.Length == CELLS
      && Encodes(lay, given, heads, cands)
      && Fits(lay, stack)
      && Represents(lay, nodes[..], Live(lay, stack))
    }

    // A live column that at most one live row touches, or else one that fewest touch.
    method GetMinColumn(ghost A: set<nat>) returns (c: nat)
      requires Represents(lay, nodes[..], A) && A != {}
      ensures c in A
      ensures lay.LiveRows(A, c) <= 1 || forall b <- A :: lay.LiveRows(A, c) <= lay.LiveRows(A, b)
    {
      hide Represents, Layout.Ok, Layout.LiveRows;
      HeaderWalk(lay, nodes[..], A, 0);
      c := nodes[0].right;
      ghost var e: nat :| e in A;
      assert c in A;
      HeaderWalk(lay, nodes[..], A, c);
      var minSize := nodes[c].size;
      if minSize > 1 {
        ghost var at := c + 1;
        var cc := nodes[c].right;
        while cc != 0
          invariant c in A && IsNext(A, at, cc, 0)
          invariant minSize == lay.LiveRows(A, c)
          invariant forall b <- A :: b < at ==> minSize <= lay.LiveRows(A, b)
          decreases nodes.Length - at
        {
          HeaderWalk(lay, nodes[..], A, cc);
          if minSize > nodes[cc].size {
            c := cc;
            minSize := nodes[cc].size;
            if minSize <= 1 { break; }
          }
          at := cc + 1;
          cc := nodes[cc].right;
        }
      }
    }

    // ---- writing the solution ----

    // Walk right from node n until both the cell and the value of its row have turned up.
    method ReadRow(n: nat) returns (cell: int, val: int)
      requires Static(lay, nodes[..]) && Encodes(lay, given, heads, cands) && lay.Data(n)
      ensures lay.Row(n) < |cands| && cell == cands[lay.Row(n)].cell && val == cands[lay.Row(n)].value
    {
      hide *;
      ghost var i: nat := 0;
      var m := n;
      cell, val := -1, -1;
      ghost var e, at := RowRead(lay, nodes[..], given, heads, cands, n, 0);
      while cell == -1 || val == -1
        invariant i <= 4 && m == lay.Nth(n, if i < 4 then i else 0)
        invariant cell == if (at == 0 && i > 0) || (at > 0 && i + at > 4) then e.cell else -1
        invariant val == if i > 1 || (i == 1 && at > 0) then e.value else -1
        decreases 4 - i
      {
        ghost var _, _ := RowRead(lay, nodes[..], given, heads, cands, n, i);
        if nodes[m].name < 100 {
          cell := nodes[m].name;
        } else {
          val := nodes[m].name % 10;
        }
        m := nodes[m].right;
        i := i + 1;
      }
    }

    // Enter every stacked row's value into its cell.
    method WriteBoard()
      requires lay.Ok() && Static(lay, nodes[..]) && Encodes(lay, given, heads, cands) && Fits(lay, stack) &&
        inout.Length == CELLS
      modifies inout
      ensures inout[..] == Fill(lay, cands, old(inout[..]), stack)
    {
      hide Encodes, Static, Layout.Ok;
      ghost var b := inout[..];
      assert stack[..0] == [];
      var i: nat := 0;
      while i < |stack|
        invariant i <= |stack|
        invariant inout[..] == Fill(lay, cands, b, stack[..i])
      {
        StackedData(lay, stack, i);
        StackedCell(lay, given, heads, cands, stack, i);
        var cell, val := ReadRow(stack[i]);
        inout[cell] := val;
        assert stack[..i + 1][..i] == stack[..i];
        i := i + 1;
      }
      assert stack[..i] == stack;
    }

    // ---- covering the rest of a chosen row ----

    method CoverRest(row: nat, ghost A: set<nat>)
      requires lay.Ok() && lay.Data(row) && lay.Alive(A, row)
      requires Represents(lay, nodes[..], A - {lay.col[row]})
      modifies nodes
      ensures nodes[..] == C.CoverOthers(lay, old(nodes[..]), A, row, 3)
    {
      hide *;
      ghost var p := nodes[..];
      ghost var k: nat := 0;
      C.OthersWalk(lay, p, A, row, 0);
      C.OthersWalk(lay, p, A, row, 1);
      var j := nodes[row].right;
      while j != row
        invariant k <= 3 && j == (if k < 3 then lay.Nth(row, k + 1) else row) && (k < 3 ==> j != row)
        invariant nodes[..] == C.CoverOthers(lay, p, A, row, k)
        decreases 3 - k
      {
        C.OthersWalk(lay, p, A, row, k);
        Cover(nodes[j].col, C.Rest(lay, A, row, k));
        C.OthersWalk(lay, p, A, row, k + 1);
        if k < 2 { C.OthersWalk(lay, p, A, row, k + 2); }
        j := nodes[j].right;
        k := k + 1;
      }
    }

    method UncoverRest(row: nat, ghost A: set<nat>, ghost p: Pool)
      requires lay.Ok() && lay.Data(row) && lay.Alive(A, row)
      requires Represents(lay, p, A - {lay.col[row]})
      requires |p| == nodes.Length && nodes[..] == C.CoverOthers(lay, p, A, row, 3)
      modifies nodes
      ensures nodes[..] == p
    {
      hide *;
      ghost var k: nat := 3;
      C.OthersWalk(lay, p, A, row, 0);
      C.OthersWalk(lay, p, A, row, 3);
      var j := nodes[row].left;
      while j != row
        invariant k <= 3 && j == lay.Nth(row, k) && (k > 0 <==> j != row)
        invariant nodes[..] == C.CoverOthers(lay, p, A, row, k)
        decreases k
      {
        C.OthersWalk(lay, p, A, row, k);
        C.OthersWalk(lay, p, A, row, k - 1);
        Uncover(nodes[j].col, C.Rest(lay, A, row, k - 1), C.CoverOthers(lay, p, A, row, k - 1));
        j := nodes[j].left;
        k := k - 1;
      }
      C.OthersWalk(lay, p, A, row, 0);
    }

    // The stack is an exact cover of every column and b is filled in from it.
    ghost predicate Solution(b: seq<int>)
      reads this, inout
    {
      && lay.Ok() && Fits(lay, stack) && Live(lay, stack) == {}
      && |b| == CELLS && inout[..] == Fill(lay, cands, b, stack)
    }

    lemma Parts()
      ensures Valid() <==>
        && inout.Length == CELLS
        && Encodes(lay, given, heads, cands)
        && lay.Ok() && Fits(lay, stack)
        && Represents(lay, nodes[..], Live(lay, stack))
      ensures forall b: seq<int> :: Solution(b) <==>
        && lay.Ok() && Fits(lay, stack) && Live(lay, stack) == {}
        && |b| == CELLS && inout[..] == Fill(lay, cands, b, stack)
    {
    }

    // Either the stack grows into an exact cover of every column and the board is filled
    // in from it, or nothing has changed and no choice of rows completes the stack.
    method Solve() returns (ok: bool)
      requires Valid()
      modifies `stack, nodes, inout
      ensures ok ==> Solution(old(inout[..])) && old(stack) <= stack
      ensures !ok ==> nodes[..] == old(nodes[..]) && stack == old(stack) && inout[..] == old(inout[..])
      ensures lay.Ok() && (!ok ==> forall S :: !ExactCover(MatrixOf(lay), Live(lay, stack), S))
      decreases |Live(lay, stack)|
    {
      hide *;
      Parts();
      ghost var A, s0, p0, b0 := Live(lay, stack), stack, nodes[..], inout[..];
      RootAlone(lay, p0, A);
      if nodes[0].left == 0 {
        WriteBoard();
        Parts();
        return true;
      }
      var col := GetMinColumn(A);
      Cover(col, A);
      ghost var p1 := nodes[..];
      ghost var at: nat := 0;
      SearchStart(lay, p0, A, col);
      var row := nodes[col].down;
      while row != col
        invariant nodes[..] == p1 && stack == s0 && inout[..] == b0
        invariant at <= lay.End() && IsNext(lay.Members(lay.AliveNodes(A), col), at, row, col)
        invariant Tried(lay, A, col, at)
        decreases lay.End() - at
      {
        SearchRow(lay, p0, A, col, at, row);
        stack := stack + [row];
        CoverRest(row, A);
        SearchDeeper(lay, p0, s0, A, col, row);
        Parts();
        var done := Solve();
        if done {
          return true;
        }
        SearchNext(lay, p0, s0, A, col, row);
        stack := stack[..|stack| - 1];
        UncoverRest(row, A, p1);
        at := row + 1;
        row := nodes[row].down;
      }
      Uncover(col, A, p0);
      SearchFailed(lay, p0, A, col, at);
      return false;
    }
  }

  // ---- what the search relies on at each of its steps ----

  lemma RootAlone(lay: Layout, p: Pool, A: set<nat>)
    requires Represents(lay, p, A)
    ensures lay.Ok() && Static(lay, p) && 0 < |p| && (p[0].left == 0 <==> A == {})
  {
  }

  lemma SearchStart(lay: Layout, p: Pool, A: set<nat>, c: nat)
    requires Represents(lay, p, A) && c in A
    ensures c < |p| && IsNext(lay.Members(lay.AliveNodes(A), c), 0, C.Cover(lay, p, A, c)[c].down, c)
    ensures Tried(lay, A, c, 0)
    ensures Represents(lay, C.Cover(lay, p, A, c), A - {c})
  {
    C.CoverWalk(lay, p, A, c);
    C.KeepsLink(lay, p, A, c, lay.End(), c);
    C.CoverRepresents(lay, p, A, c);
  }

  // The next node in the column is a live row; those before it have been tried.
  lemma SearchRow(lay: Layout, p: Pool, A: set<nat>, c: nat, at: nat, row: nat)
    requires Represents(lay, p, A) && c in A && Tried(lay, A, c, at) && at <= lay.End()
    requires IsNext(lay.Members(lay.AliveNodes(A), c), at, row, c) && row != c
    ensures C.Live(lay, A, c, row) && at <= row < lay.End() && Tried(lay, A, c, row)
    ensures lay.Data(row) && lay.col[row] == c && lay.Alive(A, row)
  {
    hide Tried, Fruitless, ColumnRing, HeaderRing;
    C.LiveMember(lay, A, c, row);
    assert c !in lay.Members(lay.AliveNodes(A), c);
    forall n: nat | n < row && C.Live(lay, A, c, n)
      ensures n < at
    {
      C.LiveMember(lay, A, c, n);
    }
    TriedUpTo(lay, A, c, at, row);
  }

  lemma TriedUpTo(lay: Layout, A: set<nat>, c: nat, at: nat, k: nat)
    requires lay.Ok() && Tried(lay, A, c, at)
    requires forall n: nat :: n < k && C.Live(lay, A, c, n) ==> n < at
    ensures Tried(lay, A, c, k)
  {
  }

  lemma TriedOne(lay: Layout, A: set<nat>, c: nat, row: nat)
    requires lay.Ok() && Tried(lay, A, c, row) && lay.Data(row) && lay.Row(row) < |MatrixOf(lay)|
    requires forall S :: !ExactCover(MatrixOf(lay), A - MatrixOf(lay)[lay.Row(row)], S)
    ensures Tried(lay, A, c, row + 1)
  {
  }

  lemma SearchDeeper(lay: Layout, p: Pool, stack: seq<nat>, A: set<nat>, c: nat, row: nat)
    requires Represents(lay, p, A) && c in A && C.Live(lay, A, c, row)
    requires Fits(lay, stack) && A == Live(lay, stack)
    requires Represents(lay, C.Cover(lay, p, A, c), A - {c})
    ensures Fits(lay, stack + [row])
    ensures Represents(lay, C.CoverOthers(lay, C.Cover(lay, p, A, c), A, row, 3), Live(lay, stack + [row]))
    ensures |Live(lay, stack + [row])| < |A|
  {
    C.OthersRepresent(lay, C.Cover(lay, p, A, c), A, row, 3);
    C.RestWithin(lay, A, row, 3);
    PushLive(lay, stack, row);
    RowNodes(lay, row);
    var B := Live(lay, stack + [row]);
    assert B <= A - {c};
    Smaller(B, A, c);
  }

  lemma Smaller(B: set<nat>, A: set<nat>, c: nat)
    requires c in A && B <= A - {c}
    ensures |B| < |A|
  {
    assert A == B + (A - B);
    assert c in A - B;
  }

  lemma SearchNext(lay: Layout, p: Pool, stack: seq<nat>, A: set<nat>, c: nat, row: nat)
    requires Represents(lay, p, A) && c in A && C.Live(lay, A, c, row) && Tried(lay, A, c, row)
    requires Fits(lay, stack) && A == Live(lay, stack)
    requires forall S :: !ExactCover(MatrixOf(lay), Live(lay, stack + [row]), S)
    ensures Tried(lay, A, c, row + 1)
    ensures row < |p| && IsNext(lay.Members(lay.AliveNodes(A), c), row + 1, C.Cover(lay, p, A, c)[row].down, c)
  {
    hide ExactCover, MatrixOf, Tried, ColumnRing, HeaderRing, Fits, Live;
    PushLive(lay, stack, row);
    TriedOne(lay, A, c, row);
    C.KeepsLink(lay, p, A, c, lay.End(), row);
  }

  lemma SearchFailed(lay: Layout, p: Pool, A: set<nat>, c: nat, at: nat)
    requires Represents(lay, p, A) && c in A && Tried(lay, A, c, at)
    requires IsNext(lay.Members(lay.AliveNodes(A), c), at, c, c)
    ensures forall S :: !ExactCover(MatrixOf(lay), A, S)
  {
    assert c !in lay.Members(lay.AliveNodes(A), c);
    forall n: nat | C.Live(lay, A, c, n)
      ensures n < at
    {
      C.LiveMember(lay, A, c, n);
    }
    TriedUpTo(lay, A, c, at, lay.End());
    forall S
      ensures !ExactCover(MatrixOf(lay), A, S)
    {
      TriedAll(lay, A, c, S);
    }
  }

  // ---- what the set-up relies on ----

  lemma RootOnly(lay: Layout, p: Pool)
    requires lay == Layout(0, [0], [0]) && 0 < |p|
    requires Closed(p) && p[0] == Node(0, 0, 0, 0, 0, 0, 0)
    ensures lay.Ok() && NoRows(lay) && Represents(lay, p, AllColumns(lay))
  {
  }

  lemma EmptyStack(lay: Layout)
    requires lay.Ok()
    ensures Fits(lay, []) && Live(lay, []) == AllColumns(lay)
  {
  }

  lemma RepresentsClosed(lay: Layout, p: Pool, A: set<nat>)
    requires Represents(lay, p, A)
    ensures lay.Ok() && Closed(p) && lay.columns < lay.End() <= |p| && lay.Headers(A)
  {
  }

  // a[u, v] tells whether one of the first n cells gives value v in unit u.
  ghost predicate Marks(a: array2<bool>, k: nat, b: seq<int>, n: nat)
    reads a
  {
    && k < 3 && |b| == CELLS && n <= CELLS && a.Length0 == CELLS && a.Length1 == 10
    && forall u: nat, v: nat :: u < 9 && v < 10 ==> (a[u, v] <==> SeenUpTo(b, k, u, v, n))
  }

  ghost predicate SeenUpTo(b: seq<int>, k: nat, u: nat, v: int, n: nat)
    requires |b| == CELLS && k < 3 && n <= CELLS
  {
    exists i: nat :: i < n && Unit(k, i) == u && b[i] == v
  }

  lemma MarkStep(b: seq<int>, n: nat)
    requires IsBoard(b) && n < CELLS
    ensures forall k: nat, u: nat, v: int :: k < 3 ==>
      (SeenUpTo(b, k, u, v, n + 1) <==> SeenUpTo(b, k, u, v, n) || (u == Unit(k, n) && v == b[n]))
  {
  }

  lemma MarkedIsSeen(a: array2<bool>, k: nat, b: seq<int>, u: nat, v: nat)
    requires Marks(a, k, b, CELLS) && u < 9 && v < 10
    ensures a[u, v] <==> Seen(b, k, u, v)
  {
  }

  lemma CandidateNames(b: seq<int>, i: nat, v: nat)
    requires |b| == CELLS && Candidate(b, Cand(i, v))
    ensures i < CELLS && 1 <= v <= 9
    ensures var e := Cand(i, v);
            && CandName(e, 0) == i && CandName(e, 1) == Name(0, Unit(0, i), v)
            && CandName(e, 2) == Name(1, Unit(1, i), v) && CandName(e, 3) == Name(2, Unit(2, i), v)
  {
  }

  lemma FourNodes(p: Pool, n: nat, hs: seq<nat>, xs: seq<nat>)
    requires Closed(p) && |hs| == 4 && |xs| == 4 && n + 4 <= |p| && hs[0] < |p| && hs[1] < |p| && hs[2] < |p| &&
      hs[3] < |p|
    ensures AddNodes(p, n, hs, xs, 4) ==
            AddNode(AddNode(AddNode(AddNode(p, n, hs[0], xs[0]), n + 1, hs[1], xs[1]), n + 2, hs[2], xs[2]),
                    n + 3, hs[3], xs[3])
  {
    hide AddNode;
    assert AddNodes(p, n, hs, xs, 0) == p;
    assert AddNodes(p, n, hs, xs, 1) == AddNode(p, n, hs[0], xs[0]);
    assert AddNodes(p, n, hs, xs, 2) == AddNode(AddNodes(p, n, hs, xs, 1), n + 1, hs[1], xs[1]);
    assert AddNodes(p, n, hs, xs, 3) == AddNode(AddNodes(p, n, hs, xs, 2), n + 2, hs[2], xs[2]);
  }

  lemma RowsUpToNamed(lay: Layout, b: seq<int>, heads: seq<int>, cands: seq<Cand>, e: Cand)
    requires |b| == CELLS && RowsUpTo(lay, b, heads, cands, Rank(e))
    ensures |lay.name| == |lay.col|
  {
  }

  lemma CandidateTest(b: seq<int>, i: nat, v: nat)
    requires IsBoard(b) && i < CELLS && b[i] == 0 && 1 <= v <= 9
    ensures Candidate(b, Cand(i, v)) <==>
            !(Seen(b, 0, Unit(0, i), v) || Seen(b, 1, Unit(1, i), v) || Seen(b, 2, Unit(2, i), v))
  {
  }

  // A given cell has no candidates.
  lemma CellGiven(lay: Layout, b: seq<int>, heads: seq<int>, cands: seq<Cand>, i: nat)
    requires |b| == CELLS && i < CELLS && b[i] != 0 && RowsUpTo(lay, b, heads, cands, 9 * i)
    ensures RowsUpTo(lay, b, heads, cands, 9 * i + 9)
  {
  }
}
