/**
 * PathInverter: the c/d alternating path that starts at a vertex x where
 * colour c is free, and its inversion, which swaps c and d on the path's
 * edges so that d becomes free at x.
 */
module PathInverter {
  import opened Cells
  import opened Counting
  import opened GraphModel

  /** The colour sought from the i-th vertex of the path: d, c, d, c, ... */
  function Sought(c: nat, d: nat, i: nat): nat
  {
    if i % 2 == 0 then d else c
  }

  /** A path under construction: from x, distinct vertices, consecutive edges coloured d, c, d, ... */
  ghost predicate AltPrefix(m: Matrix, x: nat, c: nat, d: nat, path: seq<nat>)
    requires Square(m)
  {
    |path| > 0 && path[0] == x && Distinct(path) &&
    (forall i :: 0 <= i < |path| ==> path[i] < |m|) &&
    (forall i :: 0 <= i < |path| - 1 ==> m[path[i]][path[i + 1]] == Color(Sought(c, d, i)))
  }

  /** A complete c/d path: the colour sought next is free at its last vertex. */
  ghost predicate IsCDPath(m: Matrix, x: nat, c: nat, d: nat, path: seq<nat>)
    requires Square(m)
  {
    AltPrefix(m, x, c, d, path) && Free(m, path[|path| - 1], Sought(c, d, |path| - 1))
  }

  /** No edge of colour s joins u to a vertex below v. */
  ghost predicate NoneBelow(m: Matrix, u: nat, s: nat, v: nat)
    requires Square(m) && u < |m| && v <= |m|
  {
    forall j :: 0 <= j < v ==> m[u][j] != Color(s)
  }

  /** Each step goes to the lowest-index vertex joined by the sought colour. */
  ghost predicate FirstChoices(m: Matrix, c: nat, d: nat, path: seq<nat>)
    requires Square(m) && forall i :: 0 <= i < |path| ==> path[i] < |m|
  {
    forall i :: 0 <= i < |path| - 1 ==> NoneBelow(m, path[i], Sought(c, d, i), path[i + 1])
  }

  /**
   * In a properly coloured simple graph where c is free at x, the vertex
   * reached by the next sought colour is never already on the path.
   */
  lemma NextNotOnPath(m: Matrix, x: nat, c: nat, d: nat, path: seq<nat>, v: nat)
    requires Simple(m) && Proper(m) && x < |m| && Free(m, x, c)
    requires AltPrefix(m, x, c, d, path)
    requires v < |m| && m[path[|path| - 1]][v] == Color(Sought(c, d, |path| - 1))
    ensures v !in path
  {
    var k := |path| - 1;
    var s := Sought(c, d, k);
    assert m[v][path[k]] == Color(s);
    forall i | 0 <= i < |path|
      ensures path[i] != v
    {
      if i == k {
        assert m[path[k]][path[k]] == NotAdj;
      } else if i == 0 {
        assert m[x][path[1]] == Color(d);
        assert Sought(c, d, 1) == c;
      } else {
        assert m[x][path[1]] == Color(d);
        assert m[path[i]][path[i + 1]] == Color(Sought(c, d, i));
        assert m[path[i]][path[i - 1]] == Color(Sought(c, d, i - 1));
        assert Sought(c, d, i + 1) != Sought(c, d, i);
        assert Sought(c, d, i - 1) != Sought(c, d, i);
      }
    }
  }

  /**
   * One step of the path: the lowest-index neighbour of cur joined by an edge
   * of colour s, or None when s is free at cur.
   */
  method StepFrom(m: Matrix, cur: nat, s: nat) returns (next: Option<nat>)
    requires Square(m) && cur < |m|
    ensures next.None? ==> Free(m, cur, s)
    ensures next.Some? ==> next.value < |m| && m[cur][next.value] == Color(s) && NoneBelow(m, cur, s, next.value)
  {
    next := None;
    var adj := AdjacentOf(m, cur);
    var i := 0;
    while i < |adj|
      invariant i <= |adj|
      invariant forall t :: 0 <= t < i ==> m[cur][adj[t]] != Color(s)
    {
      if m[cur][adj[i]] == Color(s) {
        next := Some(adj[i]);
        forall j | 0 <= j < adj[i]
          ensures m[cur][j] != Color(s)
        {
          if m[cur][j] != NotAdj {
            assert j in adj;
          }
        }
        return;
      }
      i := i + 1;
    }
    forall j | 0 <= j < |m|
      ensures m[cur][j] != Color(s)
    {
      if m[cur][j] != NotAdj {
        assert j in adj;
      }
    }
  }

  /** Appending the vertex reached by the sought colour keeps an alternating path built by first choices. */
  lemma PathGrows(m: Matrix, x: nat, c: nat, d: nat, path: seq<nat>, v: nat)
    requires Simple(m) && Proper(m) && x < |m| && Free(m, x, c)
    requires AltPrefix(m, x, c, d, path) && FirstChoices(m, c, d, path)
    requires v < |m| && m[path[|path| - 1]][v] == Color(Sought(c, d, |path| - 1))
    requires NoneBelow(m, path[|path| - 1], Sought(c, d, |path| - 1), v)
    ensures AltPrefix(m, x, c, d, path + [v]) && FirstChoices(m, c, d, path + [v])
  {
    NextNotOnPath(m, x, c, d, path, v);
    var grown := path + [v];
    assert forall i :: 0 <= i < |path| ==> grown[i] == path[i];
  }

  /**
   * Builds the c/d path from x: from each vertex it moves along the edge of
   * the sought colour (d first, then c, d, ...), taking the lowest-index
   * neighbour, and stops where the sought colour is free.
   */
  method CDPathOf(m: Matrix, x: nat, c: nat, d: nat) returns (path: seq<nat>)
    requires Simple(m) && Proper(m) && x < |m| && Free(m, x, c)
    ensures IsCDPath(m, x, c, d, path) && FirstChoices(m, c, d, path)
  {
    path := [x];
    var other, sought := c, d;
    var next := StepFrom(m, x, sought);
    other, sought := sought, other;
    while next.Some?
      invariant AltPrefix(m, x, c, d, path) && FirstChoices(m, c, d, path)
      invariant next.Some? ==>
        next.value < |m| && m[path[|path| - 1]][next.value] == Color(Sought(c, d, |path| - 1)) &&
        NoneBelow(m, path[|path| - 1], Sought(c, d, |path| - 1), next.value)
      invariant next.None? ==> Free(m, path[|path| - 1], Sought(c, d, |path| - 1))
      invariant sought == Sought(c, d, |path|) && other == Sought(c, d, |path| + 1)
      invariant |path| <= |m|
      decreases |m| - |path|
    {
      var cur := next.value;
      PathGrows(m, x, c, d, path, cur);
      path := path + [cur];
      DistinctBounded(path, |m|);
      next := StepFrom(m, cur, sought);
      other, sought := sought, other;
    }
  }

  // ---------------------------------------------------------------------
  // Inversion

  /** The new cell of a path edge: c becomes d, anything else becomes c. */
  function SwapCD(cell: Cell, c: nat, d: nat): Cell
  {
    if cell == Color(c) then Color(d) else Color(c)
  }

  /** Cell (a, b) is one of the first `upTo - 1` edges of the path, in either direction. */
  ghost predicate OnPathUpTo(path: seq<nat>, upTo: nat, a: nat, b: nat)
    requires upTo <= |path|
  {
    exists k :: 1 <= k < upTo && ((path[k - 1] == a && path[k] == b) || (path[k - 1] == b && path[k] == a))
  }

  ghost predicate OnPath(path: seq<nat>, a: nat, b: nat)
  {
    OnPathUpTo(path, |path|, a, b)
  }

  /** The matrix after swapping c and d on the first `upTo - 1` edges of the path. */
  ghost function PartlyInverted(m: Matrix, path: seq<nat>, upTo: nat, c: nat, d: nat): (r: Matrix)
    requires Square(m) && upTo <= |path|
    ensures Square(r) && |r| == |m|
  {
    seq(|m|, a requires 0 <= a < |m| =>
      seq(|m|, b requires 0 <= b < |m| =>
        if OnPathUpTo(path, upTo, a, b) then SwapCD(m[a][b], c, d) else m[a][b]))
  }

  /** The matrix after swapping c and d on every edge of the path and nowhere else. */
  ghost function Inverted(m: Matrix, path: seq<nat>, c: nat, d: nat): (r: Matrix)
    requires Square(m)
    ensures Square(r) && |r| == |m|
    ensures forall a, b :: 0 <= a < |m| && 0 <= b < |m| ==>
      r[a][b] == if OnPath(path, a, b) then SwapCD(m[a][b], c, d) else m[a][b]
  {
    PartlyInverted(m, path, |path|, c, d)
  }

  /** On a path of distinct vertices, edge i is none of the edges before it. */
  lemma NextEdgeIsNew(path: seq<nat>, i: nat)
    requires Distinct(path) && 1 <= i < |path|
    ensures !OnPathUpTo(path, i, path[i - 1], path[i]) && !OnPathUpTo(path, i, path[i], path[i - 1])
  {
    assert forall k :: 0 <= k < i - 1 ==> path[k] != path[i - 1] && path[k] != path[i];
  }

  /** Inverting one more edge of a path of distinct vertices writes that edge only, both directions. */
  lemma InvertStep(m: Matrix, path: seq<nat>, i: nat, c: nat, d: nat)
    requires Simple(m) && Distinct(path) && 1 <= i < |path|
    requires forall t :: 0 <= t < |path| ==> path[t] < |m|
    ensures PartlyInverted(m, path, i, c, d)[path[i - 1]][path[i]] == m[path[i - 1]][path[i]]
    ensures PartlyInverted(m, path, i + 1, c, d) ==
      SetEdge(PartlyInverted(m, path, i, c, d), path[i - 1], path[i], SwapCD(m[path[i - 1]][path[i]], c, d))
  {
    var u, v := path[i - 1], path[i];
    var before := PartlyInverted(m, path, i, c, d);
    var after := PartlyInverted(m, path, i + 1, c, d);
    var set1 := SetEdge(before, u, v, SwapCD(m[u][v], c, d));
    NextEdgeIsNew(path, i);
    assert OnPathUpTo(path, i + 1, u, v) by {
      assert path[i - 1] == u && path[i] == v;
    }
    assert OnPathUpTo(path, i + 1, v, u) by {
      assert path[i - 1] == u && path[i] == v;
    }
    forall a: nat, b: nat | a < |m| && b < |m|
      ensures after[a][b] == set1[a][b]
    {
      if !((a == u && b == v) || (a == v && b == u)) {
        assert OnPathUpTo(path, i + 1, a, b) == OnPathUpTo(path, i, a, b);
      }
    }
    MatrixExt(after, set1);
  }

  /**
   * Finds the c/d path from x and swaps c and d on each of its edges, writing
   * both directions of every edge.
   */
  method InvertCDPathOf(g: array2<Cell>, x: nat, c: nat, d: nat) returns (ghost path: seq<nat>)
    requires g.Length0 == g.Length1 && Simple(Snap(g)) && Proper(Snap(g))
    requires x < g.Length0 && Free(Snap(g), x, c)
    modifies g
    ensures IsCDPath(old(Snap(g)), x, c, d, path)
    ensures Snap(g) == Inverted(old(Snap(g)), path, c, d)
  {
    ghost var m0 := Snap(g);
    var p := CDPathOf(Snap(g), x, c, d);
    path := p;
    assert forall a, b :: 0 <= a < |m0| && 0 <= b < |m0| ==> !OnPathUpTo(p, 1, a, b);
    MatrixExt(m0, PartlyInverted(m0, p, 1, c, d));
    for i := 1 to |p|
      invariant Snap(g) == PartlyInverted(m0, p, i, c, d)
    {
      var u, v := p[i - 1], p[i];
      InvertStep(m0, p, i, c, d);
      if g[u, v] == Color(c) {
        WriteEdge(g, u, v, Color(d));
      } else {
        WriteEdge(g, u, v, Color(c));
      }
    }
  }

  // ---------------------------------------------------------------------
  // What the inversion keeps and what it changes

  /** The first end of a path edge lies on the path. */
  lemma OnPathIndex(path: seq<nat>, a: nat, b: nat) returns (t: nat)
    requires OnPath(path, a, b)
    ensures t < |path| && path[t] == a
  {
    var k :| 1 <= k < |path| && ((path[k - 1] == a && path[k] == b) || (path[k - 1] == b && path[k] == a));
    t := if path[k - 1] == a then k - 1 else k;
  }

  /** Being a path edge does not depend on the direction. */
  lemma OnPathSymmetric(path: seq<nat>, a: nat, b: nat)
    ensures OnPath(path, a, b) == OnPath(path, b, a)
  {
    if OnPath(path, a, b) {
      var k :| 1 <= k < |path| && ((path[k - 1] == a && path[k] == b) || (path[k - 1] == b && path[k] == a));
      assert 1 <= k < |path| && ((path[k - 1] == b && path[k] == a) || (path[k - 1] == a && path[k] == b));
    }
    if OnPath(path, b, a) {
      var k :| 1 <= k < |path| && ((path[k - 1] == b && path[k] == a) || (path[k - 1] == a && path[k] == b));
      assert 1 <= k < |path| && ((path[k - 1] == a && path[k] == b) || (path[k - 1] == b && path[k] == a));
    }
  }

  /** Every path edge carries c or d, and a path with an edge has c != d. */
  lemma PathEdgeColored(m: Matrix, x: nat, c: nat, d: nat, path: seq<nat>, a: nat, b: nat)
    requires Simple(m) && x < |m| && Free(m, x, c) && AltPrefix(m, x, c, d, path) && OnPath(path, a, b)
    ensures a < |m| && b < |m| && (m[a][b] == Color(c) || m[a][b] == Color(d)) && c != d
  {
    var k :| 1 <= k < |path| && ((path[k - 1] == a && path[k] == b) || (path[k - 1] == b && path[k] == a));
    assert m[path[k - 1]][path[k]] == Color(Sought(c, d, k - 1));
    assert m[x][path[1]] == Color(d);
  }

  /**
   * The path is closed under c and d: every edge of colour c or d at a path
   * vertex is itself a path edge.
   */
  lemma PathClosed(m: Matrix, x: nat, c: nat, d: nat, path: seq<nat>, t: nat, y: nat)
    requires Simple(m) && Proper(m) && x < |m| && Free(m, x, c) && IsCDPath(m, x, c, d, path)
    requires t < |path| && y < |m|
    ensures (m[path[t]][y] == Color(c) || m[path[t]][y] == Color(d)) ==> OnPath(path, path[t], y)
  {
    var u := path[t];
    if t < |path| - 1 && m[u][y] == Color(Sought(c, d, t)) {
      assert m[u][path[t + 1]] == Color(Sought(c, d, t));
      assert path[t + 1 - 1] == u && path[t + 1] == y;
    }
    if 0 < t && m[u][y] == Color(Sought(c, d, t + 1)) {
      assert m[path[t - 1]][u] == Color(Sought(c, d, t - 1));
      assert m[u][path[t - 1]] == Color(Sought(c, d, t + 1));
      assert path[t - 1] == y && path[t] == u;
    }
  }

  /** The inversion of a c/d path keeps the colouring proper at one vertex pair. */
  lemma InvertedProperAt(m: Matrix, x: nat, c: nat, d: nat, path: seq<nat>, u: nat, a: nat, b: nat)
    requires Simple(m) && Proper(m) && x < |m| && Free(m, x, c) && IsCDPath(m, x, c, d, path)
    requires u < |m| && a < |m| && b < |m| && a != b && Inverted(m, path, c, d)[u][a].Color?
    ensures Inverted(m, path, c, d)[u][a] != Inverted(m, path, c, d)[u][b]
  {
    if OnPath(path, u, a) {
      var t := OnPathIndex(path, u, a);
      PathEdgeColored(m, x, c, d, path, u, a);
      PathClosed(m, x, c, d, path, t, b);
      if OnPath(path, u, b) {
        PathEdgeColored(m, x, c, d, path, u, b);
      }
    } else if OnPath(path, u, b) {
      var t := OnPathIndex(path, u, b);
      PathEdgeColored(m, x, c, d, path, u, b);
      PathClosed(m, x, c, d, path, t, a);
    }
  }

  /** Cell by cell: the inversion keeps symmetry, adjacency, uncoloured cells and colours other than c and d. */
  lemma InvertedCell(m: Matrix, x: nat, c: nat, d: nat, path: seq<nat>, a: nat, b: nat)
    requires Simple(m) && x < |m| && Free(m, x, c) && AltPrefix(m, x, c, d, path)
    requires a < |m| && b < |m|
    ensures Inverted(m, path, c, d)[a][b] == Inverted(m, path, c, d)[b][a]
    ensures Inverted(m, path, c, d)[a][b] == NotAdj <==> m[a][b] == NotAdj
    ensures Inverted(m, path, c, d)[a][b] == Uncolored <==> m[a][b] == Uncolored
    ensures forall e :: e != c && e != d ==> (Inverted(m, path, c, d)[a][b] == Color(e) <==> m[a][b] == Color(e))
  {
    OnPathSymmetric(path, a, b);
    if OnPath(path, a, b) {
      PathEdgeColored(m, x, c, d, path, a, b);
    }
  }

  /** The inversion keeps the graph: same edges, still simple. */
  lemma InvertedSimple(m: Matrix, x: nat, c: nat, d: nat, path: seq<nat>)
    requires Simple(m) && x < |m| && Free(m, x, c) && AltPrefix(m, x, c, d, path)
    ensures Simple(Inverted(m, path, c, d)) && SameAdjacency(m, Inverted(m, path, c, d))
  {
    var r: Matrix := Inverted(m, path, c, d);
    forall a: nat, b: nat | a < |m| && b < |m|
      ensures r[a][b] == r[b][a] && (r[a][b] == NotAdj <==> m[a][b] == NotAdj)
    {
      InvertedCell(m, x, c, d, path, a, b);
    }
  }

  /** Only cells coloured c or d change: uncoloured cells and other colours stay where they are. */
  lemma InvertedOtherCells(m: Matrix, x: nat, c: nat, d: nat, path: seq<nat>)
    requires Simple(m) && x < |m| && Free(m, x, c) && AltPrefix(m, x, c, d, path)
    ensures forall a, b, e :: 0 <= a < |m| && 0 <= b < |m| && e != c && e != d ==>
      (Inverted(m, path, c, d)[a][b] == Color(e) <==> m[a][b] == Color(e))
    ensures forall a, b :: 0 <= a < |m| && 0 <= b < |m| ==>
      (Inverted(m, path, c, d)[a][b] == Uncolored <==> m[a][b] == Uncolored)
  {
    var r: Matrix := Inverted(m, path, c, d);
    forall a: nat, b: nat | a < |m| && b < |m|
      ensures r[a][b] == Uncolored <==> m[a][b] == Uncolored
      ensures forall e :: e != c && e != d ==> (r[a][b] == Color(e) <==> m[a][b] == Color(e))
    {
      InvertedCell(m, x, c, d, path, a, b);
    }
  }

  /** The inversion keeps the colouring proper. */
  lemma InvertedProper(m: Matrix, x: nat, c: nat, d: nat, path: seq<nat>)
    requires Simple(m) && Proper(m) && x < |m| && Free(m, x, c) && IsCDPath(m, x, c, d, path)
    ensures Proper(Inverted(m, path, c, d))
  {
    var r: Matrix := Inverted(m, path, c, d);
    forall u: nat, a: nat, b: nat | u < |m| && a < |m| && b < |m| && a != b && r[u][a].Color?
      ensures r[u][a] != r[u][b]
    {
      InvertedProperAt(m, x, c, d, path, u, a, b);
    }
  }

  /** After the inversion, d is free at x. */
  lemma InvertedFreesD(m: Matrix, x: nat, c: nat, d: nat, path: seq<nat>)
    requires Simple(m) && Proper(m) && x < |m| && Free(m, x, c) && IsCDPath(m, x, c, d, path)
    ensures Free(Inverted(m, path, c, d), x, d)
  {
    var r: Matrix := Inverted(m, path, c, d);
    forall y: nat | y < |m|
      ensures r[x][y] != Color(d)
    {
      PathClosed(m, x, c, d, path, 0, y);
    }
  }

  /** Cells not on the path keep their value. */
  lemma InvertedOffPath(m: Matrix, path: seq<nat>, c: nat, d: nat, a: nat, b: nat)
    requires Square(m) && a < |m| && b < |m| && (a !in path || b !in path)
    ensures Inverted(m, path, c, d)[a][b] == m[a][b]
  {
    if OnPath(path, a, b) {
      var t := OnPathIndex(path, a, b);
      OnPathSymmetric(path, a, b);
      var t' := OnPathIndex(path, b, a);
    }
  }

  /** A colour other than c and d is free after the inversion exactly where it was free before. */
  lemma FreeOtherColor(m: Matrix, x: nat, c: nat, d: nat, path: seq<nat>, v: nat, e: nat)
    requires Simple(m) && x < |m| && Free(m, x, c) && AltPrefix(m, x, c, d, path)
    requires v < |m| && e != c && e != d
    ensures Free(Inverted(m, path, c, d), v, e) <==> Free(m, v, e)
  {
    var r: Matrix := Inverted(m, path, c, d);
    InvertedOtherCells(m, x, c, d, path);
    if Color(e) in r[v] {
      var y :| 0 <= y < |r[v]| && r[v][y] == Color(e);
      assert m[v][y] == Color(e);
    }
    if Color(e) in m[v] {
      var y :| 0 <= y < |m[v]| && m[v][y] == Color(e);
      assert r[v][y] == Color(e);
    }
  }

  /**
   * A path vertex other than x where d is free is the path's last vertex,
   * and the path reaches it by an edge coloured c.
   */
  lemma FreeDOnlyAtEnd(m: Matrix, x: nat, c: nat, d: nat, path: seq<nat>, s: nat)
    requires Simple(m) && IsCDPath(m, x, c, d, path) && s < |path|
    ensures 0 < s && Free(m, path[s], d) ==> s == |path| - 1 && Sought(c, d, s - 1) == c && c != d
  {
    if 0 < s {
      assert m[path[s - 1]][path[s]] == Color(Sought(c, d, s - 1));
      assert m[path[s]][path[s - 1]] == Color(Sought(c, d, s - 1));
      if s < |path| - 1 {
        assert m[path[s]][path[s + 1]] == Color(Sought(c, d, s));
      }
    }
  }

  /** At the last vertex of a path whose last edge was coloured c, c is free after the inversion. */
  lemma InvertedFreesCAtEnd(m: Matrix, x: nat, c: nat, d: nat, path: seq<nat>)
    requires Simple(m) && Proper(m) && x < |m| && Free(m, x, c) && IsCDPath(m, x, c, d, path)
    requires |path| > 1 && Free(m, path[|path| - 1], d)
    ensures Free(Inverted(m, path, c, d), path[|path| - 1], c)
  {
    var r: Matrix := Inverted(m, path, c, d);
    var e := path[|path| - 1];
    forall y: nat | y < |m|
      ensures r[e][y] != Color(c)
    {
      PathClosed(m, x, c, d, path, |path| - 1, y);
      if OnPath(path, e, y) {
        PathEdgeColored(m, x, c, d, path, e, y);
      }
    }
  }

  /** The path leaves x by its d-edge; it is x alone exactly when d is free at x. */
  lemma PathLeavesByD(m: Matrix, x: nat, c: nat, d: nat, path: seq<nat>)
    requires Square(m) && IsCDPath(m, x, c, d, path)
    ensures |path| > 1 ==> m[x][path[1]] == Color(d)
    ensures |path| == 1 <==> Free(m, x, d)
  {
    if |path| > 1 {
      assert m[path[0]][path[1]] == Color(Sought(c, d, 0));
      assert m[x][path[1]] in m[x];
    }
  }

  /** The inversion uses no new colour beyond c and d. */
  lemma InvertedColorsBelow(m: Matrix, x: nat, c: nat, d: nat, path: seq<nat>, bound: nat)
    requires Simple(m) && x < |m| && Free(m, x, c) && AltPrefix(m, x, c, d, path)
    requires ColorsBelow(m, bound) && c < bound && d < bound
    ensures ColorsBelow(Inverted(m, path, c, d), bound)
  {
    var r: Matrix := Inverted(m, path, c, d);
    forall a: nat, b: nat | a < |m| && b < |m| && r[a][b].Color?
      ensures r[a][b].k < bound
    {
      InvertedCell(m, x, c, d, path, a, b);
      if r[a][b].k != c && r[a][b].k != d {
        assert m[a][b] == r[a][b];
      }
    }
  }

  /** The inversion leaves every vertex's uncoloured edges as they were. */
  lemma InvertedUncolored(m: Matrix, x: nat, c: nat, d: nat, path: seq<nat>)
    requires Simple(m) && x < |m| && Free(m, x, c) && AltPrefix(m, x, c, d, path)
    ensures forall v :: 0 <= v < |m| ==> UncoloredIn(Inverted(m, path, c, d), v) == UncoloredIn(m, v)
  {
    var r: Matrix := Inverted(m, path, c, d);
    forall v | 0 <= v < |m|
      ensures UncoloredIn(r, v) == UncoloredIn(m, v)
    {
      forall b: nat | b < |m|
        ensures r[v][b] == Uncolored <==> m[v][b] == Uncolored
      {
        InvertedCell(m, x, c, d, path, v, b);
      }
    }
  }
}
