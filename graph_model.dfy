/**
 * GraphModel: building the matrix from an edge list, the read-only queries
 * on it (neighbours, free colours, degree, edge list, colour set, validity)
 * and the bulk colour reset.
 */
module GraphModel {
  import opened Cells
  import opened Counting

  // ---------------------------------------------------------------------
  // Building the matrix from an edge list

  /** An input edge: its two end points and, when a third entry is given, its colour. */
  datatype Edge = Edge(u: nat, v: nat, color: Option<nat>)

  function EdgeCell(e: Edge): Cell
  {
    match e.color
    case None => Uncolored
    case Some(k) => Color(k)
  }

  predicate Joins(e: Edge, i: nat, j: nat)
  {
    (e.u == i && e.v == j) || (e.u == j && e.v == i)
  }

  /** Cell (i, j) after the edges of es are written in order: the last edge joining i and j wins. */
  function CellFrom(es: seq<Edge>, i: nat, j: nat): Cell
  {
    if es == [] then NotAdj
    else if Joins(es[|es| - 1], i, j) then EdgeCell(es[|es| - 1])
    else CellFrom(es[..|es| - 1], i, j)
  }

  /** Builds the vertCount-by-vertCount matrix holding the first edgeCount edges, both directions. */
  method GraphFrom(vertCount: nat, edgeCount: nat, edges: seq<Edge>) returns (g: array2<Cell>)
    requires edgeCount <= |edges|
    requires forall i :: 0 <= i < edgeCount ==> edges[i].u < vertCount && edges[i].v < vertCount
    ensures fresh(g) && g.Length0 == vertCount && g.Length1 == vertCount
    ensures forall i, j :: 0 <= i < vertCount && 0 <= j < vertCount ==> g[i, j] == CellFrom(edges[..edgeCount], i, j)
  {
    g := new Cell[vertCount, vertCount]((i, j) => NotAdj);
    for i := 0 to edgeCount
      invariant forall a, b :: 0 <= a < vertCount && 0 <= b < vertCount ==> g[a, b] == CellFrom(edges[..i], a, b)
    {
      var e := edges[i];
      var color := EdgeCell(e);
      g[e.u, e.v] := color;
      g[e.v, e.u] := color;
      assert edges[..i + 1][..i] == edges[..i];
    }
  }

  /** The matrix built from an edge list is symmetric. */
  lemma {:induction false} CellFromSymmetric(es: seq<Edge>, i: nat, j: nat)
    ensures CellFrom(es, i, j) == CellFrom(es, j, i)
  {
    if es != [] {
      CellFromSymmetric(es[..|es| - 1], i, j);
    }
  }

  /** Cell (i, j) is an edge exactly when some input edge joins i and j. */
  lemma {:induction false} CellFromAdjacent(es: seq<Edge>, i: nat, j: nat)
    ensures CellFrom(es, i, j) != NotAdj <==> exists e :: e in es && Joins(e, i, j)
  {
    if es != [] {
      var init := es[..|es| - 1];
      CellFromAdjacent(init, i, j);
      assert es == init + [es[|es| - 1]];
    }
  }

  /** The colour stored in cell (i, j) is the colour given with the last edge joining i and j. */
  lemma {:induction false} CellFromLastEdge(es: seq<Edge>, i: nat, j: nat, t: nat)
    requires t < |es| && Joins(es[t], i, j)
    requires forall s :: t < s < |es| ==> !Joins(es[s], i, j)
    ensures CellFrom(es, i, j) == EdgeCell(es[t])
  {
    if t < |es| - 1 {
      CellFromLastEdge(es[..|es| - 1], i, j, t);
    }
  }

  // ---------------------------------------------------------------------
  // Neighbours, degree and the maximum degree

  /** The columns below j of a row that hold an edge, in increasing order. */
  function NeighboursUpTo(row: seq<Cell>, j: nat): (r: seq<nat>)
    requires j <= |row|
    ensures forall u: nat :: u in r <==> u < j && row[u] != NotAdj
    ensures Increasing(r)
    ensures forall t :: 0 <= t < |r| ==> r[t] < j
    ensures |r| == Degree(row[..j])
  {
    if j == 0 then []
    else
      assert row[..j][..j - 1] == row[..j - 1];
      NeighboursUpTo(row, j - 1) + (if row[j - 1] != NotAdj then [j - 1] else [])
  }

  /** The neighbours of v in increasing order; there are Degree(m[v]) of them. */
  function AdjacentOf(m: Matrix, v: nat): (r: seq<nat>)
    requires Square(m) && v < |m|
    ensures forall u: nat :: u in r <==> u < |m| && m[v][u] != NotAdj
    ensures Increasing(r)
    ensures |r| == Degree(m[v])
  {
    assert m[v][..|m|] == m[v];
    NeighboursUpTo(m[v], |m|)
  }

  /** D is the largest vertex degree (0 for the graph without vertices). */
  ghost predicate IsMaxDegree(m: Matrix, d: nat)
  {
    (forall v :: 0 <= v < |m| ==> Degree(m[v]) <= d) &&
    (|m| == 0 ==> d == 0) &&
    (|m| > 0 ==> exists v :: 0 <= v < |m| && Degree(m[v]) == d)
  }

  /** Computes the maximum degree Delta, counting each row's non-NotAdj cells. */
  method GetGraphDelta(m: Matrix) returns (d: nat)
    requires Square(m)
    ensures IsMaxDegree(m, d)
  {
    d := 0;
    for r := 0 to |m|
      invariant forall v :: 0 <= v < r ==> Degree(m[v]) <= d
      invariant r == 0 ==> d == 0
      invariant r > 0 ==> exists v :: 0 <= v < r && Degree(m[v]) == d
    {
      var deg := 0;
      for c := 0 to |m|
        invariant deg == Degree(m[r][..c])
      {
        assert m[r][..c + 1][..c] == m[r][..c];
        if m[r][c] != NotAdj {
          deg := deg + 1;
        }
      }
      assert m[r][..|m|] == m[r];
      d := if d < deg then deg else d;
    }
  }

  /** The maximum degree as a function of the matrix (specification of GetGraphDelta). */
  ghost function MaxDegree(m: Matrix): nat
  {
    if m == [] then 0
    else
      var d := MaxDegree(m[..|m| - 1]);
      var last := Degree(m[|m| - 1]);
      if d < last then last else d
  }

  lemma {:induction false} MaxDegreeIsMax(m: Matrix)
    ensures IsMaxDegree(m, MaxDegree(m))
  {
    if m != [] {
      var init := m[..|m| - 1];
      MaxDegreeIsMax(init);
      assert forall v :: 0 <= v < |init| ==> init[v] == m[v];
    }
  }

  /** There is only one maximum degree. */
  lemma MaxDegreeUnique(m: Matrix, d: nat)
    requires IsMaxDegree(m, d)
    ensures d == MaxDegree(m)
  {
    MaxDegreeIsMax(m);
  }

  lemma {:induction false} DegreeAtMost(row: seq<Cell>)
    ensures Degree(row) <= |row|
  {
    if row != [] {
      DegreeAtMost(row[..|row| - 1]);
    }
  }

  /** Rows with the same edges have the same degree. */
  lemma {:induction false} DegreeSameEdges(a: seq<Cell>, b: seq<Cell>)
    requires |a| == |b|
    requires forall j :: 0 <= j < |a| ==> (a[j] == NotAdj <==> b[j] == NotAdj)
    ensures Degree(a) == Degree(b)
  {
    if a != [] {
      DegreeSameEdges(a[..|a| - 1], b[..|b| - 1]);
    }
  }

  /** Re-colouring never changes Delta. */
  lemma MaxDegreeSameAdjacency(a: Matrix, b: Matrix)
    requires Square(a) && Square(b) && SameAdjacency(a, b)
    ensures MaxDegree(a) == MaxDegree(b)
  {
    forall v | 0 <= v < |a|
      ensures Degree(a[v]) == Degree(b[v])
    {
      DegreeSameEdges(a[v], b[v]);
    }
    MaxDegreeIsMax(a);
    MaxDegreeIsMax(b);
    assert IsMaxDegree(b, MaxDegree(a));
    MaxDegreeUnique(b, MaxDegree(a));
  }

  lemma MaxDegreeAtMostSize(m: Matrix)
    requires Square(m)
    ensures MaxDegree(m) <= |m|
  {
    MaxDegreeIsMax(m);
    if |m| > 0 {
      var v :| 0 <= v < |m| && Degree(m[v]) == MaxDegree(m);
      DegreeAtMost(m[v]);
    }
  }

  /** A row never has more coloured cells than edges, and fewer when one edge is uncoloured. */
  lemma {:induction false} ColoredCountBound(row: seq<Cell>)
    ensures ColoredCount(row) <= Degree(row)
    ensures Uncolored in row ==> ColoredCount(row) < Degree(row)
  {
    if row != [] {
      var init := row[..|row| - 1];
      ColoredCountBound(init);
      assert row == init + [row[|row| - 1]];
    }
  }

  // ---------------------------------------------------------------------
  // Free colours

  /** The colours below k that occur in no cell of the row and are not excluded, increasing. */
  function FreeUpTo(row: seq<Cell>, exclude: seq<nat>, k: nat): (r: seq<nat>)
    ensures forall x: nat :: x in r <==> x < k && Color(x) !in row && x !in exclude
    ensures Increasing(r)
    ensures forall t :: 0 <= t < |r| ==> r[t] < k
  {
    if k == 0 then []
    else FreeUpTo(row, exclude, k - 1) + (if Color(k - 1) !in row && k - 1 !in exclude then [k - 1] else [])
  }

  /**
   * The free colours of v in [0, n+1), increasing, without those in exclude.
   * NotAdj and Uncolored cells never make a colour used.
   */
  function FreeColorsOf(m: Matrix, v: nat, exclude: seq<nat>): (r: seq<nat>)
    requires Square(m) && v < |m|
    ensures forall x: nat :: x in r <==> x < |m| + 1 && Free(m, v, x) && x !in exclude
    ensures Increasing(r)
  {
    FreeUpTo(m[v], exclude, |m| + 1)
  }

  /** With fewer used and excluded colours than `bound`, some colour below `bound` is available. */
  lemma {:induction false} FreeColorExists(row: seq<Cell>, e: set<nat>, bound: nat)
    requires ColoredCount(row) + |e| < bound
    ensures exists k: nat :: k < bound && k !in e && Color(k) !in row
  {
    if row == [] {
      MissingBelow(e, bound);
    } else {
      var init := row[..|row| - 1];
      var last := row[|row| - 1];
      assert row == init + [last];
      if last.Color? {
        assert |e + {last.k}| <= |e| + 1;
        FreeColorExists(init, e + {last.k}, bound);
        var k: nat :| k < bound && k !in e + {last.k} && Color(k) !in init;
        assert Color(k) !in row;
      } else {
        FreeColorExists(init, e, bound);
        var k: nat :| k < bound && k !in e && Color(k) !in init;
        assert Color(k) !in row;
      }
    }
  }

  /**
   * Pigeonhole: when v's coloured edges and the excluded colours number fewer
   * than `bound`, the list of free colours is not empty and its first
   * (smallest) element is below `bound`.
   */
  lemma SmallestFreeBelow(m: Matrix, v: nat, exclude: seq<nat>, bound: nat)
    requires Square(m) && v < |m|
    requires ColoredCount(m[v]) + |exclude| < bound <= |m| + 1
    ensures |FreeColorsOf(m, v, exclude)| > 0 && FreeColorsOf(m, v, exclude)[0] < bound
  {
    ElemsCard(exclude);
    FreeColorExists(m[v], Elems(exclude), bound);
    var k: nat :| k < bound && k !in Elems(exclude) && Color(k) !in m[v];
    var r := FreeColorsOf(m, v, exclude);
    assert k in r;
    var t :| 0 <= t < |r| && r[t] == k;
    assert r[0] <= r[t];
  }

  // ---------------------------------------------------------------------
  // Edge list and colour set

  predicate LexLess(p: (nat, nat), q: (nat, nat))
  {
    p.0 < q.0 || (p.0 == q.0 && p.1 < q.1)
  }

  function RowPairs(m: Matrix, u: nat): (r: seq<(nat, nat)>)
    requires Square(m) && u < |m|
    ensures forall p :: p in r <==> p.0 == u && p.1 < |m| && m[u][p.1] != NotAdj
    ensures forall s, t :: 0 <= s < t < |r| ==> LexLess(r[s], r[t])
  {
    var adj := AdjacentOf(m, u);
    var r := seq(|adj|, t requires 0 <= t < |adj| => (u, adj[t]));
    forall p | p in r
      ensures p.0 == u && p.1 in adj
    {
      var t :| 0 <= t < |r| && r[t] == p;
    }
    forall p: (nat, nat) | p.0 == u && p.1 < |m| && m[u][p.1] != NotAdj
      ensures p in r
    {
      var t :| 0 <= t < |adj| && adj[t] == p.1;
      assert r[t] == p;
    }
    r
  }

  function EdgesUpTo(m: Matrix, rows: nat): (r: seq<(nat, nat)>)
    requires Square(m) && rows <= |m|
    ensures forall p :: p in r <==> p.0 < rows && p.1 < |m| && m[p.0][p.1] != NotAdj
    ensures forall s, t :: 0 <= s < t < |r| ==> LexLess(r[s], r[t])
    ensures forall t :: 0 <= t < |r| ==> r[t].0 < rows
  {
    if rows == 0 then []
    else
      var a := EdgesUpTo(m, rows - 1);
      var b := RowPairs(m, rows - 1);
      assert forall t :: 0 <= t < |b| ==> b[t] in b;
      a + b
  }

  /**
   * Every ordered pair (u, v) with an edge between u and v, in row-major order:
   * each undirected edge appears once in each direction.
   */
  function GraphEdges(m: Matrix): (r: seq<(nat, nat)>)
    requires Square(m)
    ensures forall p :: p in r <==> p.0 < |m| && p.1 < |m| && m[p.0][p.1] != NotAdj
    ensures forall s, t :: 0 <= s < t < |r| ==> LexLess(r[s], r[t])
  {
    EdgesUpTo(m, |m|)
  }

  /** Round trip: the edge list read back from a built matrix holds exactly the input edges, both directions. */
  lemma EdgesRoundTrip(m: Matrix, es: seq<Edge>)
    requires Square(m)
    requires forall e :: e in es ==> e.u < |m| && e.v < |m|
    requires forall i, j :: 0 <= i < |m| && 0 <= j < |m| ==> m[i][j] == CellFrom(es, i, j)
    ensures forall u: nat, v: nat :: (u, v) in GraphEdges(m) <==> exists e :: e in es && Joins(e, u, v)
  {
    forall u: nat, v: nat
      ensures (u, v) in GraphEdges(m) <==> exists e :: e in es && Joins(e, u, v)
    {
      CellFromAdjacent(es, u, v);
    }
  }

  /**
   * Every distinct non-NotAdj cell value. As the source filters only NotAdj,
   * Uncolored is a member whenever some edge is still uncoloured.
   */
  function GraphColors(m: Matrix): (r: set<Cell>)
    requires Square(m)
    ensures NotAdj !in r
    ensures Uncolored in r <==> !FullyColored(m)
    ensures forall k :: Color(k) in r <==> exists i, j :: 0 <= i < |m| && 0 <= j < |m| && m[i][j] == Color(k)
  {
    var r := set i, j | 0 <= i < |m| && 0 <= j < |m| && m[i][j] != NotAdj :: m[i][j];
    assert !FullyColored(m) ==> Uncolored in r by {
      if !FullyColored(m) {
        var v :| 0 <= v < |m| && Uncolored in m[v];
        var j :| 0 <= j < |m| && m[v][j] == Uncolored;
      }
    }
    r
  }

  ghost function ColorRange(bound: nat): (r: set<Cell>)
    ensures forall x :: x in r <==> x.Color? && x.k < bound
    ensures |r| == bound
  {
    if bound == 0 then {} else ColorRange(bound - 1) + {Color(bound - 1)}
  }

  /** A full colouring with colours below `bound` uses at most `bound` distinct colours. */
  lemma ColorCountBound(m: Matrix, bound: nat)
    requires Square(m) && FullyColored(m) && ColorsBelow(m, bound)
    ensures |GraphColors(m)| <= bound
  {
    var r := GraphColors(m);
    forall x | x in r
      ensures x in ColorRange(bound)
    {
      if x.Color? {
        var i, j :| 0 <= i < |m| && 0 <= j < |m| && m[i][j] == x;
      }
    }
    SubsetCard(r, ColorRange(bound));
  }

  // ---------------------------------------------------------------------
  // Clearing colours

  /** Every edge uncoloured, every non-edge left alone. */
  ghost function Cleared(m: Matrix): (r: Matrix)
    requires Square(m)
    ensures Square(r) && SameAdjacency(m, r)
    ensures forall i, j :: 0 <= i < |r| && 0 <= j < |r| ==> !r[i][j].Color?
  {
    seq(|m|, i requires 0 <= i < |m| =>
      seq(|m|, j requires 0 <= j < |m| => if m[i][j] == NotAdj then NotAdj else Uncolored))
  }

  /** Sets every edge's cell to Uncolored in place. */
  method ClearGraph(g: array2<Cell>)
    requires g.Length0 == g.Length1
    modifies g
    ensures Snap(g) == Cleared(old(Snap(g)))
  {
    ghost var m0 := Snap(g);
    var n := g.Length0;
    for r := 0 to n
      invariant forall a, b :: 0 <= a < n && 0 <= b < n ==>
        g[a, b] == if a < r && m0[a][b] != NotAdj then Uncolored else m0[a][b]
    {
      for c := 0 to n
        invariant forall a, b :: 0 <= a < n && 0 <= b < n ==>
          g[a, b] == if (a < r || (a == r && b < c)) && m0[a][b] != NotAdj then Uncolored else m0[a][b]
      {
        if g[r, c] != NotAdj {
          g[r, c] := Uncolored;
        }
      }
    }
    MatrixExt(Snap(g), Cleared(m0));
  }

  lemma ClearedIdempotent(m: Matrix)
    requires Square(m)
    ensures Cleared(Cleared(m)) == Cleared(m)
  {
    MatrixExt(Cleared(Cleared(m)), Cleared(m));
  }

  /** A cleared matrix of a graph with symmetric adjacency and no self-loop is simple and properly (trivially) coloured. */
  lemma ClearedSimple(m: Matrix)
    requires Square(m) && AdjSymmetric(m) && NoLoops(m)
    ensures Simple(Cleared(m)) && Proper(Cleared(m)) && ColorsBelow(Cleared(m), 0)
  {
  }

  // ---------------------------------------------------------------------
  // Validity

  /**
   * The test applied to the edge (v, x): when noUncolored it is not
   * uncoloured, and no other edge at v holds an equal cell. With
   * clashUncolored two Uncolored cells count as equal (the check as the
   * source writes it); without it only colours can clash.
   */
  ghost predicate CellValid(m: Matrix, v: nat, x: nat, noUncolored: bool, clashUncolored: bool)
    requires Square(m) && v < |m| && x < |m|
  {
    !(noUncolored && m[v][x] == Uncolored) &&
    forall y :: 0 <= y < |m| && x != y && (clashUncolored || m[v][x].Color?) ==> m[v][x] != m[v][y]
  }

  /** Every edge passes the test, at both of its ends. */
  ghost predicate ValidSpec(m: Matrix, noUncolored: bool, clashUncolored: bool)
    requires Square(m)
  {
    forall v, x :: 0 <= v < |m| && 0 <= x < |m| && m[v][x] != NotAdj ==> CellValid(m, v, x, noUncolored, clashUncolored)
  }

  /** The edge (v, x), x a neighbour of v, tested against every neighbour y of v. */
  method CheckCell(m: Matrix, v: nat, x: nat, adjs: seq<nat>, noUncolored: bool, clashUncolored: bool)
    returns (r: bool)
    requires Square(m) && v < |m| && x < |m| && m[v][x] != NotAdj
    requires adjs == AdjacentOf(m, v)
    ensures r <==> CellValid(m, v, x, noUncolored, clashUncolored)
  {
    if noUncolored && m[v][x] == Uncolored {
      return false;
    }
    for j := 0 to |adjs|
      invariant forall s :: 0 <= s < j && x != adjs[s] && (clashUncolored || m[v][x].Color?) ==>
        m[v][x] != m[v][adjs[s]]
    {
      var y := adjs[j];
      if x != y && (clashUncolored || m[v][x].Color?) && m[v][x] == m[v][y] {
        return false;
      }
    }
    forall y | 0 <= y < |m| && x != y && (clashUncolored || m[v][x].Color?)
      ensures m[v][x] != m[v][y]
    {
      if m[v][y] != NotAdj {
        assert y in adjs;
        var s :| 0 <= s < |adjs| && adjs[s] == y;
      }
    }
    return true;
  }

  /** Every edge at v tested, stopping at the first that fails. */
  method CheckVertex(m: Matrix, v: nat, noUncolored: bool, clashUncolored: bool) returns (r: bool)
    requires Square(m) && v < |m|
    ensures r <==> forall x :: 0 <= x < |m| && m[v][x] != NotAdj ==> CellValid(m, v, x, noUncolored, clashUncolored)
  {
    var adjs := AdjacentOf(m, v);
    for i := 0 to |adjs|
      invariant forall s :: 0 <= s < i ==> CellValid(m, v, adjs[s], noUncolored, clashUncolored)
    {
      var ok := CheckCell(m, v, adjs[i], adjs, noUncolored, clashUncolored);
      if !ok {
        return false;
      }
    }
    forall x | 0 <= x < |m| && m[v][x] != NotAdj
      ensures CellValid(m, v, x, noUncolored, clashUncolored)
    {
      assert x in adjs;
      var s :| 0 <= s < |adjs| && adjs[s] == x;
    }
    return true;
  }

  /** Scans every vertex, returning false at the first edge that fails the test and true when none does. */
  method CheckGraph(m: Matrix, noUncolored: bool, clashUncolored: bool) returns (r: bool)
    requires Square(m)
    ensures r <==> ValidSpec(m, noUncolored, clashUncolored)
  {
    for v := 0 to |m|
      invariant forall u, x :: 0 <= u < v && 0 <= x < |m| && m[u][x] != NotAdj ==>
        CellValid(m, u, x, noUncolored, clashUncolored)
    {
      var ok := CheckVertex(m, v, noUncolored, clashUncolored);
      if !ok {
        return false;
      }
    }
    return true;
  }

  /**
   * The source's validity check: false when two different edges at one vertex
   * hold the same cell (two Uncolored cells included), or, with noUncolored,
   * when some edge is uncoloured.
   */
  method IsGraphValid(m: Matrix, noUncolored: bool) returns (r: bool)
    requires Square(m)
    ensures r <==> ValidSpec(m, noUncolored, true)
  {
    r := CheckGraph(m, noUncolored, true);
  }

  /** Without the Uncolored clash, the test is properness, plus full colouring when asked. */
  lemma ValidSpecProper(m: Matrix, requireFull: bool)
    requires Square(m)
    ensures ValidSpec(m, requireFull, false) <==> Proper(m) && (requireFull ==> FullyColored(m))
  {
    if ValidSpec(m, requireFull, false) {
      forall v, x, y | 0 <= v < |m| && 0 <= x < |m| && 0 <= y < |m| && x != y && m[v][x].Color?
        ensures m[v][x] != m[v][y]
      {
        assert CellValid(m, v, x, requireFull, false);
      }
      if requireFull {
        forall v | 0 <= v < |m|
          ensures Uncolored !in m[v]
        {
          forall x | 0 <= x < |m|
            ensures m[v][x] != Uncolored
          {
            if m[v][x] != NotAdj {
              assert CellValid(m, v, x, requireFull, false);
            }
          }
        }
      }
    }
    if Proper(m) && (requireFull ==> FullyColored(m)) {
      forall v, x | 0 <= v < |m| && 0 <= x < |m| && m[v][x] != NotAdj
        ensures CellValid(m, v, x, requireFull, false)
      {
        assert m[v][x] in m[v];
      }
    }
  }

  /** The intended check: proper (uncoloured edges never clash) and, if asked, fully coloured. */
  method IsProperlyColored(m: Matrix, requireFull: bool) returns (r: bool)
    requires Square(m)
    ensures r <==> Proper(m) && (requireFull ==> FullyColored(m))
  {
    r := CheckGraph(m, requireFull, false);
    ValidSpecProper(m, requireFull);
  }

  /** On a fully coloured graph the source's check is exactly properness. */
  lemma ValidSpecFull(m: Matrix)
    requires Square(m)
    ensures ValidSpec(m, true, true) <==> Proper(m) && FullyColored(m)
  {
    ValidSpecProper(m, true);
    if ValidSpec(m, true, true) {
      forall v, x | 0 <= v < |m| && 0 <= x < |m| && m[v][x] != NotAdj
        ensures CellValid(m, v, x, true, false)
      {
        assert CellValid(m, v, x, true, true);
      }
    }
    if ValidSpec(m, true, false) {
      forall v, x | 0 <= v < |m| && 0 <= x < |m| && m[v][x] != NotAdj
        ensures CellValid(m, v, x, true, true)
      {
        assert CellValid(m, v, x, true, false);
      }
    }
  }

  /**
   * The path 0 - 1 - 2 with both edges uncoloured is properly (partially)
   * coloured, yet the source's check rejects it even without noUncolored.
   */
  lemma IsGraphValidRejectsUncoloredPair()
    ensures var m := [[NotAdj, Uncolored, NotAdj], [Uncolored, NotAdj, Uncolored], [NotAdj, Uncolored, NotAdj]];
      Square(m) && Proper(m) && !ValidSpec(m, false, true) && ValidSpec(m, false, false)
  {
    var m := [[NotAdj, Uncolored, NotAdj], [Uncolored, NotAdj, Uncolored], [NotAdj, Uncolored, NotAdj]];
    assert !CellValid(m, 1, 0, false, true) by {
      assert m[1][0] == m[1][2];
    }
    ValidSpecProper(m, false);
  }
}
