// The node pool of the dancing-links solver and the four link updates it is built from.
module DancingLinks {
  import opened Rings

  datatype Node = Node(left: nat, right: nat, up: nat, down: nat, col: nat, name: nat, size: int)

  // A snapshot of the pool; links are node numbers and number 0 is the root.
  type Pool = seq<Node>

  ghost predicate Closed(p: Pool) {
    forall n :: 0 <= n < |p| ==>
      p[n].left < |p| && p[n].right < |p| && p[n].up < |p| && p[n].down < |p| && p[n].col < |p|
  }

  function SetUp(p: Pool, n: nat, x: nat): Pool
    requires n < |p|
  {
    p[n := p[n].(up := x)]
  }

  function SetDown(p: Pool, n: nat, x: nat): Pool
    requires n < |p|
  {
    p[n := p[n].(down := x)]
  }

  function SetLeft(p: Pool, n: nat, x: nat): Pool
    requires n < |p|
  {
    p[n := p[n].(left := x)]
  }

  function SetRight(p: Pool, n: nat, x: nat): Pool
    requires n < |p|
  {
    p[n := p[n].(right := x)]
  }

  function AddSize(p: Pool, n: nat, d: int): Pool
    requires n < |p|
  {
    p[n := p[n].(size := p[n].size + d)]
  }

  // Unlink node j from its column and count it out.
  ghost function HideNode(p: Pool, j: nat): (q: Pool)
    requires Closed(p) && j < |p|
    ensures |q| == |p| && Closed(q)
  {
    var a := SetUp(p, p[j].down, p[j].up);
    var b := SetDown(a, a[j].up, a[j].down);
    AddSize(b, b[j].col, -1)
  }

  // Count node j in again and link it back between the neighbours it still names.
  ghost function UnhideNode(p: Pool, j: nat): (q: Pool)
    requires Closed(p) && j < |p|
    ensures |q| == |p| && Closed(q)
  {
    var a := AddSize(p, p[j].col, 1);
    var b := SetUp(a, a[j].down, j);
    SetDown(b, b[j].up, j)
  }

  ghost function HideColumn(p: Pool, c: nat): (q: Pool)
    requires Closed(p) && c < |p|
    ensures |q| == |p| && Closed(q)
  {
    var a := SetLeft(p, p[c].right, p[c].left);
    SetRight(a, a[c].left, a[c].right)
  }

  ghost function UnhideColumn(p: Pool, c: nat): (q: Pool)
    requires Closed(p) && c < |p|
    ensures |q| == |p| && Closed(q)
  {
    var a := SetLeft(p, p[c].right, c);
    SetRight(a, a[c].left, c)
  }

  // Linked: both neighbours of j in its column name j.
  ghost predicate LinkedV(p: Pool, j: nat) {
    && Closed(p) && j < |p|
    && p[j].up != j && p[j].down != j && p[j].col != j
    && p[p[j].up].down == j && p[p[j].down].up == j
  }

  ghost predicate LinkedH(p: Pool, c: nat) {
    && Closed(p) && c < |p|
    && p[c].left != c && p[c].right != c
    && p[p[c].left].right == c && p[p[c].right].left == c
  }

  lemma UnhideNodeUndoes(p: Pool, j: nat)
    requires LinkedV(p, j)
    ensures UnhideNode(HideNode(p, j), j) == p
  {
  }

  lemma UnhideColumnUndoes(p: Pool, c: nat)
    requires LinkedH(p, c)
    ensures UnhideColumn(HideColumn(p, c), c) == p
  {
  }
}
