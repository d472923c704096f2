/**
 * The cells of the n-by-n adjacency/colour matrix and the structural
 * predicates every other module states its contracts with.
 *
 * A cell is one of three tagged states: the two vertices are not adjacent,
 * they are joined by an edge that has no colour yet, or they are joined by
 * an edge of colour k.
 */
module Cells {

  datatype Option<T> = None | Some(value: T)

  datatype Cell = NotAdj | Uncolored | Color(k: nat)

  /** A snapshot of the matrix: row v holds the cells (v, 0) .. (v, n-1). */
  type Matrix = seq<seq<Cell>>

  predicate Square(m: Matrix)
  {
    forall i :: 0 <= i < |m| ==> |m[i]| == |m|
  }

  ghost predicate Symmetric(m: Matrix)
    requires Square(m)
  {
    forall i, j :: 0 <= i < |m| && 0 <= j < |m| ==> m[i][j] == m[j][i]
  }

  /** Adjacency (but not necessarily colour) is symmetric. */
  ghost predicate AdjSymmetric(m: Matrix)
    requires Square(m)
  {
    forall i, j :: 0 <= i < |m| && 0 <= j < |m| ==> (m[i][j] == NotAdj <==> m[j][i] == NotAdj)
  }

  ghost predicate NoLoops(m: Matrix)
    requires Square(m)
  {
    forall i :: 0 <= i < |m| ==> m[i][i] == NotAdj
  }

  /** The matrix of a simple undirected graph. */
  ghost predicate Simple(m: Matrix)
  {
    Square(m) && Symmetric(m) && NoLoops(m)
  }

  /** Colour k occurs on no edge at vertex v. */
  predicate Free(m: Matrix, v: nat, k: nat)
    requires v < |m|
  {
    Color(k) !in m[v]
  }

  /** No two distinct edges at one vertex carry the same colour (uncoloured edges never clash). */
  ghost predicate Proper(m: Matrix)
    requires Square(m)
  {
    forall v, x, y ::
      0 <= v < |m| && 0 <= x < |m| && 0 <= y < |m| && x != y && m[v][x].Color? ==> m[v][x] != m[v][y]
  }

  ghost predicate FullyColored(m: Matrix)
  {
    forall v :: 0 <= v < |m| ==> Uncolored !in m[v]
  }

  ghost predicate ColorsBelow(m: Matrix, bound: nat)
    requires Square(m)
  {
    forall i, j :: 0 <= i < |m| && 0 <= j < |m| && m[i][j].Color? ==> m[i][j].k < bound
  }

  /** Both matrices have the same size and the same edges. */
  ghost predicate SameAdjacency(a: Matrix, b: Matrix)
    requires Square(a) && Square(b)
  {
    |a| == |b| &&
    forall i, j :: 0 <= i < |a| && 0 <= j < |a| ==> (a[i][j] == NotAdj <==> b[i][j] == NotAdj)
  }

  /** The set of columns of row v that hold an uncoloured edge. */
  ghost function UncoloredIn(m: Matrix, v: nat): set<nat>
    requires Square(m) && v < |m|
  {
    set j | 0 <= j < |m| && m[v][j] == Uncolored
  }

  /** Number of cells of a row that are not NotAdj: the degree of the row's vertex. */
  function Degree(row: seq<Cell>): nat
  {
    if row == [] then 0
    else Degree(row[..|row| - 1]) + (if row[|row| - 1] != NotAdj then 1 else 0)
  }

  /** Number of coloured cells of a row. */
  function ColoredCount(row: seq<Cell>): nat
  {
    if row == [] then 0
    else ColoredCount(row[..|row| - 1]) + (if row[|row| - 1].Color? then 1 else 0)
  }

  /** The value held by a square array of cells, row by row. */
  function Snap(g: array2<Cell>): (m: Matrix)
    reads g
    requires g.Length0 == g.Length1
    ensures |m| == g.Length0 && Square(m)
    ensures forall i, j :: 0 <= i < g.Length0 && 0 <= j < g.Length1 ==> m[i][j] == g[i, j]
  {
    seq(g.Length0, i requires 0 <= i < g.Length0 reads g =>
      seq(g.Length1, j requires 0 <= j < g.Length1 reads g => g[i, j]))
  }

  /** Two square matrices that agree on every cell are equal. */
  lemma MatrixExt(a: Matrix, b: Matrix)
    requires Square(a) && Square(b) && |a| == |b|
    requires forall i, j :: 0 <= i < |a| && 0 <= j < |a| ==> a[i][j] == b[i][j]
    ensures a == b
  {
    forall i | 0 <= i < |a|
      ensures a[i] == b[i]
    {
      assert |a[i]| == |b[i]|;
    }
  }

  /** m with both directions of edge (u, v) set to cell. */
  ghost function SetEdge(m: Matrix, u: nat, v: nat, cell: Cell): (r: Matrix)
    requires Square(m) && u < |m| && v < |m|
    ensures Square(r) && |r| == |m|
  {
    seq(|m|, a requires 0 <= a < |m| =>
      seq(|m|, b requires 0 <= b < |m| =>
        if (a == u && b == v) || (a == v && b == u) then cell else m[a][b]))
  }

  /** Writes one edge of the graph, both directions at once. */
  method WriteEdge(g: array2<Cell>, u: nat, v: nat, cell: Cell)
    requires g.Length0 == g.Length1 && u < g.Length0 && v < g.Length0
    modifies g
    ensures Snap(g) == SetEdge(old(Snap(g)), u, v, cell)
  {
    g[u, v] := cell;
    g[v, u] := cell;
    MatrixExt(Snap(g), SetEdge(old(Snap(g)), u, v, cell));
  }
}
