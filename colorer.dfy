/**
 * Colorer: the Misra–Gries edge colouring. Vertex by vertex, while the
 * vertex x still has an uncoloured edge, one step builds the maximal fan F
 * of x, picks the smallest colour d free at F's last vertex and the smallest
 * other colour c free at x, inverts the c/d path from x, and then rotates the
 * shortest prefix of F whose last vertex w has d free and colours (x, w)
 * with d.
 */
module Colorer {
  import opened Cells
  import opened Counting
  import opened GraphModel
  import opened FanBuilder
  import opened PathInverter
  import opened FanRotator

  // ---------------------------------------------------------------------
  // After the inversion: some prefix of the fan ends at a vertex with d free

  /** What holds when a step has chosen its fan and its colours c and d. */
  ghost predicate StepReady(m: Matrix, x: nat, fan: seq<nat>, c: nat, d: nat)
  {
    Simple(m) && Proper(m) && x < |m| && IsFan(m, x, fan) && Maximal(m, x, fan) &&
    Free(m, fan[|fan| - 1], d) && Free(m, x, c) && c != d && c < |m| + 1 && d < |m| + 1
  }

  /** A fan edge whose colour is neither c nor d still links the fan after the inversion. */
  lemma FanLinkSurvives(m: Matrix, x: nat, fan: seq<nat>, c: nat, d: nat, path: seq<nat>, i: nat)
    requires Simple(m) && x < |m| && Free(m, x, c) && AltPrefix(m, x, c, d, path)
    requires FanChain(m, x, fan) && 1 <= i < |fan| && m[x][fan[i]] != Color(d)
    ensures Link(Inverted(m, path, c, d), x, fan[i - 1], fan[i])
  {
    FanColorsChain(m, x, fan, i);
    var k := m[x][fan[i]].k;
    assert m[x][fan[i]] in m[x];
    InvertedOtherCells(m, x, c, d, path);
    FreeOtherColor(m, x, c, d, path, fan[i - 1], k);
  }

  /** The prefix of the fan before any edge coloured d is still a fan after the inversion. */
  lemma FanPrefixSurvives(m: Matrix, x: nat, fan: seq<nat>, c: nat, d: nat, path: seq<nat>, t: nat)
    requires Simple(m) && x < |m| && Free(m, x, c) && AltPrefix(m, x, c, d, path)
    requires IsFan(m, x, fan) && 1 <= t <= |fan|
    requires forall i :: 1 <= i < t ==> m[x][fan[i]] != Color(d)
    ensures IsFan(Inverted(m, path, c, d), x, fan[..t])
  {
    var r := Inverted(m, path, c, d);
    var p := fan[..t];
    forall i | 1 <= i < t
      ensures Link(r, x, p[i - 1], p[i])
    {
      FanLinkSurvives(m, x, fan, c, d, path, i);
    }
    InvertedOtherCells(m, x, c, d, path);
    assert r[x][p[0]] == Uncolored;
  }

  /**
   * The fan edge coloured d becomes c, which is free at the previous fan
   * vertex when that vertex is where the c/d path ends.
   */
  lemma FanLinkFlipped(m: Matrix, x: nat, fan: seq<nat>, c: nat, d: nat, path: seq<nat>, t: nat)
    requires Simple(m) && Proper(m) && x < |m| && FanChain(m, x, fan) && Free(m, x, c) && c != d && c < |m| + 1
    requires IsCDPath(m, x, c, d, path)
    requires 1 <= t < |fan| && m[x][fan[t]] == Color(d)
    requires |path| > 1 && fan[t - 1] == path[|path| - 1]
    ensures Link(Inverted(m, path, c, d), x, fan[t - 1], fan[t])
  {
    var r := Inverted(m, path, c, d);
    FanColorsChain(m, x, fan, t);
    assert m[x][path[1]] == Color(d);
    assert path[1] == fan[t];
    assert OnPath(path, x, fan[t]) by {
      assert path[1 - 1] == x && path[1] == fan[t];
    }
    assert r[x][fan[t]] == Color(c);
    InvertedFreesCAtEnd(m, x, c, d, path);
  }

  /** Row v is the same before and after the inversion when v is not on the path. */
  lemma RowOffPath(m: Matrix, path: seq<nat>, c: nat, d: nat, v: nat)
    requires Square(m) && v < |m| && v !in path
    ensures Inverted(m, path, c, d)[v] == m[v]
  {
    var r := Inverted(m, path, c, d);
    forall y: nat | y < |m|
      ensures r[v][y] == m[v][y]
    {
      InvertedOffPath(m, path, c, d, v, y);
    }
  }

  /** After inverting the path, d is free at fan[j] and the fan up to j is still a fan of x. */
  ghost predicate FreedAt(m: Matrix, x: nat, fan: seq<nat>, c: nat, d: nat, path: seq<nat>, j: nat)
    requires Square(m) && x < |m|
  {
    j < |fan| && fan[j] < |m| &&
    Free(Inverted(m, path, c, d), fan[j], d) && IsFan(Inverted(m, path, c, d), x, fan[..j + 1])
  }

  /** Case 1: d was already free at x, the path is just x, and the whole fan works. */
  lemma DFreeAtCentre(m: Matrix, x: nat, fan: seq<nat>, c: nat, d: nat, path: seq<nat>) returns (j: nat)
    requires StepReady(m, x, fan, c, d) && IsCDPath(m, x, c, d, path) && Free(m, x, d)
    ensures j == |fan| - 1 && FreedAt(m, x, fan, c, d, path, j)
  {
    j := |fan| - 1;
    assert path == [x] by {
      PathLeavesByD(m, x, c, d, path);
    }
    assert IsFan(Inverted(m, path, c, d), x, fan[..j + 1]) by {
      FanAvoidsCentre(m, x, fan);
      FanPrefixSurvives(m, x, fan, c, d, path, j + 1);
    }
    assert Free(Inverted(m, path, c, d), fan[j], d) by {
      FanAvoidsCentre(m, x, fan);
      RowOffPath(m, path, c, d, fan[j]);
    }
  }

  /** x has at most one d-edge, so the fan edges other than (x, fan[t]) are not coloured d. */
  lemma OneDEdge(m: Matrix, x: nat, fan: seq<nat>, d: nat, t: nat)
    requires Square(m) && Proper(m) && x < |m| && FanChain(m, x, fan)
    requires t < |fan| && m[x][fan[t]] == Color(d)
    ensures forall i :: 0 <= i < |fan| && i != t ==> m[x][fan[i]] != Color(d)
  {
  }

  /**
   * In case 2 the c/d path ends at fan[t-1], and the last fan vertex, where d
   * is free too, is not on the path.
   */
  lemma PathEndsAtFanVertex(m: Matrix, x: nat, fan: seq<nat>, c: nat, d: nat, path: seq<nat>, t: nat)
    requires StepReady(m, x, fan, c, d) && IsCDPath(m, x, c, d, path)
    requires 1 <= t < |fan| && m[x][fan[t]] == Color(d) && fan[t - 1] in path
    ensures |path| > 1 && fan[t - 1] == path[|path| - 1] && fan[|fan| - 1] !in path
  {
    var l := fan[|fan| - 1];
    FanAvoidsCentre(m, x, fan);
    FanColorsChain(m, x, fan, t);
    assert m[x][fan[t]] in m[x];
    PathLeavesByD(m, x, c, d, path);
    var s :| 0 <= s < |path| && path[s] == fan[t - 1];
    FreeDOnlyAtEnd(m, x, c, d, path, s);
    forall q | 0 <= q < |path|
      ensures path[q] != l
    {
      FreeDOnlyAtEnd(m, x, c, d, path, q);
    }
  }

  /** When the c/d path ends at fan[t-1], where (x, fan[t]) is the d-edge of x, the whole fan stays a fan. */
  lemma WholeFanSurvives(m: Matrix, x: nat, fan: seq<nat>, c: nat, d: nat, path: seq<nat>, t: nat)
    requires Simple(m) && Proper(m) && x < |m| && IsFan(m, x, fan) && Free(m, x, c) && c != d && c < |m| + 1
    requires IsCDPath(m, x, c, d, path)
    requires 1 <= t < |fan| && m[x][fan[t]] == Color(d)
    requires |path| > 1 && fan[t - 1] == path[|path| - 1]
    ensures IsFan(Inverted(m, path, c, d), x, fan)
  {
    LinksBeforeSurvive(m, x, fan, c, d, path, t);
    FanLinkFlipped(m, x, fan, c, d, path, t);
    LinksAfterSurvive(m, x, fan, c, d, path, t);
  }

  /** The links before the d-edge survive the inversion, and so does the uncoloured first edge. */
  lemma LinksBeforeSurvive(m: Matrix, x: nat, fan: seq<nat>, c: nat, d: nat, path: seq<nat>, t: nat)
    requires Simple(m) && Proper(m) && x < |m| && IsFan(m, x, fan) && Free(m, x, c)
    requires AltPrefix(m, x, c, d, path)
    requires 1 <= t < |fan| && m[x][fan[t]] == Color(d)
    ensures Inverted(m, path, c, d)[x][fan[0]] == Uncolored
    ensures forall i :: 1 <= i < t ==> Link(Inverted(m, path, c, d), x, fan[i - 1], fan[i])
  {
    OneDEdge(m, x, fan, d, t);
    FanPrefixSurvives(m, x, fan, c, d, path, t);
    assert forall i :: 0 <= i < t ==> fan[..t][i] == fan[i];
  }

  /** The links after the d-edge keep their colours, so they survive the inversion. */
  lemma LinksAfterSurvive(m: Matrix, x: nat, fan: seq<nat>, c: nat, d: nat, path: seq<nat>, t: nat)
    requires Simple(m) && Proper(m) && x < |m| && FanChain(m, x, fan) && Free(m, x, c)
    requires AltPrefix(m, x, c, d, path)
    requires t < |fan| && m[x][fan[t]] == Color(d)
    ensures forall i :: t < i < |fan| ==> Link(Inverted(m, path, c, d), x, fan[i - 1], fan[i])
  {
    OneDEdge(m, x, fan, d, t);
    forall i | t < i < |fan|
      ensures Link(Inverted(m, path, c, d), x, fan[i - 1], fan[i])
    {
      FanLinkSurvives(m, x, fan, c, d, path, i);
    }
  }

  /**
   * Case 2: the d-edge of x goes to fan[t] and fan[t-1] is on the c/d path:
   * the whole fan stays a fan, and d stays free at its last vertex, which is
   * not on the path.
   */
  lemma PathEndsInFan(m: Matrix, x: nat, fan: seq<nat>, c: nat, d: nat, path: seq<nat>, t: nat) returns (j: nat)
    requires StepReady(m, x, fan, c, d) && IsCDPath(m, x, c, d, path)
    requires 1 <= t < |fan| && m[x][fan[t]] == Color(d) && fan[t - 1] in path
    ensures j == |fan| - 1 && FreedAt(m, x, fan, c, d, path, j)
  {
    j := |fan| - 1;
    assert |path| > 1 && fan[t - 1] == path[|path| - 1] && fan[j] !in path by {
      PathEndsAtFanVertex(m, x, fan, c, d, path, t);
    }
    assert Free(Inverted(m, path, c, d), fan[j], d) by {
      RowOffPath(m, path, c, d, fan[j]);
    }
    assert IsFan(Inverted(m, path, c, d), x, fan[..j + 1]) by {
      WholeFanSurvives(m, x, fan, c, d, path, t);
      assert fan[..j + 1] == fan;
    }
  }

  /** Case 3: the d-edge of x goes to fan[t] and fan[t-1] is off the path: the prefix up to fan[t-1] works. */
  lemma PrefixOffPath(m: Matrix, x: nat, fan: seq<nat>, c: nat, d: nat, path: seq<nat>, t: nat) returns (j: nat)
    requires StepReady(m, x, fan, c, d) && IsCDPath(m, x, c, d, path)
    requires 1 <= t < |fan| && m[x][fan[t]] == Color(d) && fan[t - 1] !in path
    ensures j == t - 1 && FreedAt(m, x, fan, c, d, path, j)
  {
    j := t - 1;
    FanColorsChain(m, x, fan, t);
    OneDEdge(m, x, fan, d, t);
    FanPrefixSurvives(m, x, fan, c, d, path, t);
    RowOffPath(m, path, c, d, fan[t - 1]);
  }

  /**
   * The heart of the correctness argument: after the inversion, some fan
   * vertex F[j] has d free and F[..j+1] is still a fan of x.
   */
  lemma SomeFanVertexFreesD(m: Matrix, x: nat, fan: seq<nat>, c: nat, d: nat, path: seq<nat>) returns (j: nat)
    requires StepReady(m, x, fan, c, d) && IsCDPath(m, x, c, d, path)
    ensures FreedAt(m, x, fan, c, d, path, j)
  {
    if Free(m, x, d) {
      j := DFreeAtCentre(m, x, fan, c, d, path);
    } else {
      j := DTakenAtCentre(m, x, fan, c, d, path);
    }
  }

  /** By maximality, an edge of x coloured with a colour free at the fan's end leads into the fan, past its start. */
  lemma DEdgeIntoFan(m: Matrix, x: nat, fan: seq<nat>, d: nat) returns (t: nat)
    requires Square(m) && x < |m| && IsFan(m, x, fan) && Maximal(m, x, fan)
    requires Free(m, fan[|fan| - 1], d) && d < |m| + 1 && !Free(m, x, d)
    ensures 1 <= t < |fan| && m[x][fan[t]] == Color(d)
  {
    var y :| 0 <= y < |m[x]| && m[x][y] == Color(d);
    assert !Extends(m, x, fan, y);
    t :| 0 <= t < |fan| && fan[t] == y;
  }

  /** When d is taken at x, its edge leads into the fan, and one of the two cases above applies. */
  lemma DTakenAtCentre(m: Matrix, x: nat, fan: seq<nat>, c: nat, d: nat, path: seq<nat>) returns (j: nat)
    requires StepReady(m, x, fan, c, d) && IsCDPath(m, x, c, d, path) && !Free(m, x, d)
    ensures FreedAt(m, x, fan, c, d, path, j)
  {
    var t := DEdgeIntoFan(m, x, fan, d);
    if fan[t - 1] in path {
      j := PathEndsInFan(m, x, fan, c, d, path, t);
    } else {
      j := PrefixOffPath(m, x, fan, c, d, path, t);
    }
  }

  // ---------------------------------------------------------------------
  // The rotation and the final colouring of (x, w)

  /** The matrix after rotating the fan of x and colouring (x, last fan vertex) with d. */
  ghost function Recolored(m: Matrix, x: nat, fan: seq<nat>, d: nat): (r: Matrix)
    requires Square(m) && FanOf(m, x, fan) && |fan| > 0
    ensures Square(r) && |r| == |m|
  {
    SetEdge(Rotated(m, x, fan), x, fan[|fan| - 1], Color(d))
  }

  /** The new cell of the edge (x, fan[t]): the next fan edge's colour, and d for the last one. */
  ghost function NewCell(m: Matrix, x: nat, fan: seq<nat>, d: nat, t: nat): Cell
    requires Square(m) && FanOf(m, x, fan) && t < |fan|
  {
    if t < |fan| - 1 then m[x][fan[t + 1]] else Color(d)
  }

  /** The fan edge (x, fan[t]) of the recoloured matrix holds its NewCell, in both directions. */
  lemma RecoloredFanCell(m: Matrix, x: nat, fan: seq<nat>, d: nat, t: nat)
    requires Square(m) && FanOf(m, x, fan) && t < |fan|
    ensures Recolored(m, x, fan, d)[x][fan[t]] == NewCell(m, x, fan, d, t)
    ensures Recolored(m, x, fan, d)[fan[t]][x] == NewCell(m, x, fan, d, t)
  {
    var rot := Rotated(m, x, fan);
    var last := |fan| - 1;
    if t < last {
      assert fan[t] != fan[last];
      assert rot[x][fan[t]] == m[x][fan[Succ(t, |fan|)]];
    }
  }

  /** Every other cell of the recoloured matrix is unchanged. */
  lemma RecoloredOtherCell(m: Matrix, x: nat, fan: seq<nat>, d: nat, a: nat, b: nat)
    requires Square(m) && FanOf(m, x, fan) && |fan| > 0
    requires a < |m| && b < |m| && !(a == x && b in fan) && !(b == x && a in fan)
    ensures Recolored(m, x, fan, d)[a][b] == m[a][b]
  {
    var rot := Rotated(m, x, fan);
    assert rot[a][b] == m[a][b];
  }

  /** What the rotation step needs: a fan of x whose last vertex, like x, has d free. */
  ghost predicate RotationReady(m: Matrix, x: nat, fan: seq<nat>, d: nat)
  {
    Simple(m) && Proper(m) && x < |m| && IsFan(m, x, fan) &&
    Free(m, fan[|fan| - 1], d) && Free(m, x, d)
  }

  lemma RotationReadyFanOf(m: Matrix, x: nat, fan: seq<nat>, d: nat)
    requires RotationReady(m, x, fan, d)
    ensures FanOf(m, x, fan) && |fan| > 0
    ensures forall t :: 0 <= t < |fan| ==> m[x][fan[t]] != NotAdj
  {
    FanAvoidsCentre(m, x, fan);
  }

  /**
   * The new cell of a fan edge is a colour, free at that fan vertex, not
   * used on any other edge of x outside the fan, and different from every
   * other fan edge's new cell.
   */
  lemma NewCellFacts(m: Matrix, x: nat, fan: seq<nat>, d: nat, t: nat)
    requires RotationReady(m, x, fan, d) && FanOf(m, x, fan) && t < |fan|
    ensures NewCell(m, x, fan, d, t).Color? && Free(m, fan[t], NewCell(m, x, fan, d, t).k)
    ensures forall b :: 0 <= b < |m| && b !in fan ==> m[x][b] != NewCell(m, x, fan, d, t)
    ensures forall t' :: 0 <= t' < |fan| && t' != t ==> NewCell(m, x, fan, d, t') != NewCell(m, x, fan, d, t)
  {
    var last := |fan| - 1;
    if t < last {
      FanColorsChain(m, x, fan, t + 1);
    }
    forall t' | 0 <= t' < |fan| && t' != t
      ensures NewCell(m, x, fan, d, t') != NewCell(m, x, fan, d, t)
    {
      if t' < last {
        FanColorsChain(m, x, fan, t' + 1);
        assert m[x][fan[t' + 1]] in m[x];
      }
      if t < last {
        assert m[x][fan[t + 1]] in m[x];
      }
    }
    forall b | 0 <= b < |m| && b !in fan
      ensures m[x][b] != NewCell(m, x, fan, d, t)
    {
      assert m[x][b] in m[x];
    }
  }

  /** The recolouring keeps the colouring proper at one vertex pair. */
  lemma RecoloredProperAt(m: Matrix, x: nat, fan: seq<nat>, d: nat, u: nat, a: nat, b: nat)
    requires RotationReady(m, x, fan, d) && FanOf(m, x, fan)
    requires u < |m| && a < |m| && b < |m| && a != b && Recolored(m, x, fan, d)[u][a].Color?
    ensures Recolored(m, x, fan, d)[u][a] != Recolored(m, x, fan, d)[u][b]
  {
    if u == x {
      if a in fan && b in fan {
        var ta, tb := PosIn(fan, a), PosIn(fan, b);
        RecoloredFanCell(m, x, fan, d, ta);
        RecoloredFanCell(m, x, fan, d, tb);
        NewCellFacts(m, x, fan, d, ta);
      } else if a in fan {
        var ta := PosIn(fan, a);
        RecoloredFanCell(m, x, fan, d, ta);
        RecoloredOtherCell(m, x, fan, d, u, b);
        NewCellFacts(m, x, fan, d, ta);
      } else if b in fan {
        var tb := PosIn(fan, b);
        RecoloredFanCell(m, x, fan, d, tb);
        RecoloredOtherCell(m, x, fan, d, u, a);
        NewCellFacts(m, x, fan, d, tb);
      } else {
        RecoloredOtherCell(m, x, fan, d, u, a);
        RecoloredOtherCell(m, x, fan, d, u, b);
      }
    } else if u in fan {
      var t := PosIn(fan, u);
      NewCellFacts(m, x, fan, d, t);
      RecoloredFanCell(m, x, fan, d, t);
      if a == x {
        RecoloredOtherCell(m, x, fan, d, u, b);
        assert m[u][b] in m[u];
      } else if b == x {
        RecoloredOtherCell(m, x, fan, d, u, a);
        assert m[u][a] in m[u];
      } else {
        RecoloredOtherCell(m, x, fan, d, u, a);
        RecoloredOtherCell(m, x, fan, d, u, b);
      }
    } else {
      RecoloredOtherCell(m, x, fan, d, u, a);
      RecoloredOtherCell(m, x, fan, d, u, b);
    }
  }

  lemma RecoloredProper(m: Matrix, x: nat, fan: seq<nat>, d: nat)
    requires RotationReady(m, x, fan, d) && FanOf(m, x, fan)
    ensures Proper(Recolored(m, x, fan, d))
  {
    var r: Matrix := Recolored(m, x, fan, d);
    forall u: nat, a: nat, b: nat | u < |m| && a < |m| && b < |m| && a != b && r[u][a].Color?
      ensures r[u][a] != r[u][b]
    {
      RecoloredProperAt(m, x, fan, d, u, a, b);
    }
  }

  /** The first fan edge is an edge, every later one is coloured. */
  ghost predicate FanEdges(m: Matrix, x: nat, fan: seq<nat>)
    requires Square(m) && FanOf(m, x, fan) && |fan| > 0
  {
    m[x][fan[0]] != NotAdj && forall t :: 1 <= t < |fan| ==> m[x][fan[t]].Color?
  }

  lemma RotationReadyFanEdges(m: Matrix, x: nat, fan: seq<nat>, d: nat)
    requires RotationReady(m, x, fan, d)
    ensures FanOf(m, x, fan) && |fan| > 0 && FanEdges(m, x, fan)
  {
    RotationReadyFanOf(m, x, fan, d);
    forall t | 1 <= t < |fan|
      ensures m[x][fan[t]].Color?
    {
      FanColorsChain(m, x, fan, t);
    }
  }

  /** One cell of the recoloured matrix: symmetric, same adjacency, no new uncoloured edge. */
  lemma RecoloredCell(m: Matrix, x: nat, fan: seq<nat>, d: nat, a: nat, b: nat)
    requires Simple(m) && FanOf(m, x, fan) && |fan| > 0 && FanEdges(m, x, fan)
    requires a < |m| && b < |m|
    ensures Recolored(m, x, fan, d)[a][b] == Recolored(m, x, fan, d)[b][a]
    ensures Recolored(m, x, fan, d)[a][b] == NotAdj <==> m[a][b] == NotAdj
    ensures Recolored(m, x, fan, d)[a][b] == Uncolored ==> m[a][b] == Uncolored
  {
    if (a == x && b in fan) || (b == x && a in fan) {
      var t := if a == x then PosIn(fan, b) else PosIn(fan, a);
      RecoloredFanCell(m, x, fan, d, t);
      if t < |fan| - 1 {
        assert m[x][fan[t + 1]].Color?;
      }
    } else {
      RecoloredOtherCell(m, x, fan, d, a, b);
      RecoloredOtherCell(m, x, fan, d, b, a);
    }
  }

  /** One cell of the recoloured matrix: a colour below the bound when the old colours and d are. */
  lemma RecoloredCellBelow(m: Matrix, x: nat, fan: seq<nat>, d: nat, bound: nat, a: nat, b: nat)
    requires Simple(m) && FanOf(m, x, fan) && |fan| > 0 && FanEdges(m, x, fan)
    requires ColorsBelow(m, bound) && d < bound && a < |m| && b < |m|
    ensures Recolored(m, x, fan, d)[a][b].Color? ==> Recolored(m, x, fan, d)[a][b].k < bound
  {
    if (a == x && b in fan) || (b == x && a in fan) {
      var t := if a == x then PosIn(fan, b) else PosIn(fan, a);
      RecoloredFanCell(m, x, fan, d, t);
      if t < |fan| - 1 {
        assert m[x][fan[t + 1]].Color?;
      }
    } else {
      RecoloredOtherCell(m, x, fan, d, a, b);
    }
  }

  /** The recolouring keeps a simple graph simple, with the same edges. */
  lemma RecoloredSimple(m: Matrix, x: nat, fan: seq<nat>, d: nat)
    requires Simple(m) && FanOf(m, x, fan) && |fan| > 0 && FanEdges(m, x, fan)
    ensures Simple(Recolored(m, x, fan, d)) && SameAdjacency(m, Recolored(m, x, fan, d))
  {
    var r: Matrix := Recolored(m, x, fan, d);
    assert Symmetric(r) by {
      forall a: nat, b: nat | a < |m| && b < |m|
        ensures r[a][b] == r[b][a]
      {
        RecoloredCell(m, x, fan, d, a, b);
      }
    }
    assert SameAdjacency(m, r) by {
      forall a: nat, b: nat | a < |m| && b < |m|
        ensures r[a][b] == NotAdj <==> m[a][b] == NotAdj
      {
        RecoloredCell(m, x, fan, d, a, b);
      }
    }
  }

  /** The recolouring uses no colour outside the bound. */
  lemma RecoloredBelow(m: Matrix, x: nat, fan: seq<nat>, d: nat, bound: nat)
    requires Simple(m) && FanOf(m, x, fan) && |fan| > 0 && FanEdges(m, x, fan)
    requires ColorsBelow(m, bound) && d < bound
    ensures ColorsBelow(Recolored(m, x, fan, d), bound)
  {
    var r: Matrix := Recolored(m, x, fan, d);
    forall a: nat, b: nat | a < |m| && b < |m| && r[a][b].Color?
      ensures r[a][b].k < bound
    {
      RecoloredCellBelow(m, x, fan, d, bound, a, b);
    }
  }

  /** The recolouring adds no uncoloured edge anywhere and colours (x, fan[0]). */
  lemma RecoloredProgress(m: Matrix, x: nat, fan: seq<nat>, d: nat)
    requires Simple(m) && FanOf(m, x, fan) && |fan| > 0 && FanEdges(m, x, fan)
    requires m[x][fan[0]] == Uncolored
    ensures forall v :: 0 <= v < |m| ==> UncoloredIn(Recolored(m, x, fan, d), v) <= UncoloredIn(m, v)
    ensures UncoloredIn(Recolored(m, x, fan, d), x) < UncoloredIn(m, x)
  {
    var r: Matrix := Recolored(m, x, fan, d);
    forall v: nat, b: nat | v < |m| && b < |m| && r[v][b] == Uncolored
      ensures m[v][b] == Uncolored
    {
      RecoloredCell(m, x, fan, d, v, b);
    }
    RecoloredFanCell(m, x, fan, d, 0);
    assert fan[0] in UncoloredIn(m, x) && fan[0] !in UncoloredIn(r, x);
  }

  /**
   * One rotation step keeps a proper colouring of the same simple graph with
   * colours below the bound, leaves no new uncoloured edge anywhere, and
   * colours the uncoloured edge (x, fan[0]).
   */
  lemma RecoloredStep(m: Matrix, x: nat, fan: seq<nat>, d: nat, bound: nat)
    requires RotationReady(m, x, fan, d) && ColorsBelow(m, bound) && d < bound
    ensures FanOf(m, x, fan) && |fan| > 0
    ensures Simple(Recolored(m, x, fan, d)) && Proper(Recolored(m, x, fan, d))
    ensures SameAdjacency(m, Recolored(m, x, fan, d)) && ColorsBelow(Recolored(m, x, fan, d), bound)
    ensures forall v :: 0 <= v < |m| ==> UncoloredIn(Recolored(m, x, fan, d), v) <= UncoloredIn(m, v)
    ensures UncoloredIn(Recolored(m, x, fan, d), x) < UncoloredIn(m, x)
  {
    RotationReadyFanEdges(m, x, fan, d);
    RecoloredSimple(m, x, fan, d);
    RecoloredBelow(m, x, fan, d, bound);
    RecoloredProgress(m, x, fan, d);
    RecoloredProper(m, x, fan, d);
  }

  // ---------------------------------------------------------------------
  // The whole colouring

  /**
   * Everything the rest of a step needs after the inversion: still a proper
   * colouring of the same simple graph within the bound, no change to the
   * uncoloured edges, d free at x, and a fan prefix ending where d is free.
   */
  lemma AfterInversion(m: Matrix, x: nat, f: seq<nat>, c: nat, d: nat, path: seq<nat>, bound: nat) returns (j: nat)
    requires StepReady(m, x, f, c, d) && IsCDPath(m, x, c, d, path)
    requires ColorsBelow(m, bound) && c < bound && d < bound
    ensures Simple(Inverted(m, path, c, d)) && Proper(Inverted(m, path, c, d))
    ensures SameAdjacency(m, Inverted(m, path, c, d)) && ColorsBelow(Inverted(m, path, c, d), bound)
    ensures forall v :: 0 <= v < |m| ==> UncoloredIn(Inverted(m, path, c, d), v) == UncoloredIn(m, v)
    ensures Free(Inverted(m, path, c, d), x, d)
    ensures j < |f| && Free(Inverted(m, path, c, d), f[j], d) && IsFan(Inverted(m, path, c, d), x, f[..j + 1])
  {
    InvertedSimple(m, x, c, d, path);
    InvertedProper(m, x, c, d, path);
    InvertedFreesD(m, x, c, d, path);
    InvertedColorsBelow(m, x, c, d, path, bound);
    InvertedUncolored(m, x, c, d, path);
    j := SomeFanVertexFreesD(m, x, f, c, d, path);
  }

  /**
   * One Misra–Gries step at x, given the maximal fan f of x: picks d, the
   * smallest colour free at f's last vertex, and c, the smallest other colour
   * free at x; inverts the c/d path from x; then rotates f up to the first
   * vertex w where d is free and colours (x, w) with d. With degrees at most
   * delta, the colouring stays proper with colours below delta + 1, and x has
   * one uncoloured edge fewer. The new matrix is the old one with the c/d
   * path inverted and then the fan prefix f[..wPos + 1] recoloured.
   */
  method MisraGriesStep(g: array2<Cell>, x: nat, f: seq<nat>, ghost delta: nat)
    returns (c: nat, d: nat, ghost path: seq<nat>, wPos: nat)
    requires g.Length0 == g.Length1 && Simple(Snap(g)) && Proper(Snap(g)) && x < g.Length0
    requires IsFan(Snap(g), x, f) && Maximal(Snap(g), x, f)
    requires forall v :: 0 <= v < g.Length0 ==> Degree(Snap(g)[v]) <= delta
    requires delta <= g.Length0 && ColorsBelow(Snap(g), delta + 1)
    modifies g
    ensures ColorChoice(old(Snap(g)), x, f, c, d) && IsCDPath(old(Snap(g)), x, c, d, path)
    ensures WChoice(Inverted(old(Snap(g)), path, c, d), f, d, wPos)
    ensures FanOf(Inverted(old(Snap(g)), path, c, d), x, f[..wPos + 1])
    ensures Snap(g) == Recolored(Inverted(old(Snap(g)), path, c, d), x, f[..wPos + 1], d)
    ensures Simple(Snap(g)) && Proper(Snap(g)) && SameAdjacency(old(Snap(g)), Snap(g))
    ensures ColorsBelow(Snap(g), delta + 1)
    ensures forall v :: 0 <= v < g.Length0 ==> UncoloredIn(Snap(g), v) <= UncoloredIn(old(Snap(g)), v)
    ensures UncoloredIn(Snap(g), x) < UncoloredIn(old(Snap(g)), x)
  {
    ghost var m0 := Snap(g);
    c, d, path, wPos := PrepareRotation(g, x, f, delta);
    ghost var m1 := Snap(g);
    RotateAndColor(g, x, f[..wPos + 1], d, delta + 1);
    StepsCompose(m0, m1, Snap(g), x);
  }

  /**
   * The first half of a step: chooses d and c, inverts the c/d path from x
   * and finds the first fan position wPos at which d is then free.
   */
  method PrepareRotation(g: array2<Cell>, x: nat, f: seq<nat>, ghost delta: nat)
    returns (c: nat, d: nat, ghost path: seq<nat>, wPos: nat)
    requires g.Length0 == g.Length1 && Simple(Snap(g)) && Proper(Snap(g)) && x < g.Length0
    requires IsFan(Snap(g), x, f) && Maximal(Snap(g), x, f)
    requires forall v :: 0 <= v < g.Length0 ==> Degree(Snap(g)[v]) <= delta
    requires delta <= g.Length0 && ColorsBelow(Snap(g), delta + 1)
    modifies g
    ensures Free(old(Snap(g)), f[|f| - 1], d) && forall k: nat :: k < d ==> Color(k) in old(Snap(g))[f[|f| - 1]]
    ensures Free(old(Snap(g)), x, c) && c != d && forall k: nat :: k < c && k != d ==> Color(k) in old(Snap(g))[x]
    ensures d < delta + 1
    ensures IsCDPath(old(Snap(g)), x, c, d, path) && Snap(g) == Inverted(old(Snap(g)), path, c, d)
    ensures Simple(Snap(g)) && Proper(Snap(g)) && SameAdjacency(old(Snap(g)), Snap(g))
    ensures ColorsBelow(Snap(g), delta + 1)
    ensures forall v :: 0 <= v < g.Length0 ==> UncoloredIn(Snap(g), v) == UncoloredIn(old(Snap(g)), v)
    ensures wPos < |f| && Free(Snap(g), f[wPos], d)
    ensures forall t :: 0 <= t < wPos ==> !Free(Snap(g), f[t], d)
    ensures RotationReady(Snap(g), x, f[..wPos + 1], d) && FanOf(Snap(g), x, f[..wPos + 1])
  {
    c, d := ChooseColors(g, x, f, delta);
    ghost var j;
    path, j := InvertAndLocate(g, x, f, c, d, delta + 1);
    ghost var m1 := Snap(g);
    wPos := FirstFreeingD(g, f, d, j);
    PrefixReady(m1, x, f, j, wPos, d);
  }

  /** The inversion followed by the rotation: what each keeps, the two keep together. */
  lemma StepsCompose(m0: Matrix, m1: Matrix, m2: Matrix, x: nat)
    requires Square(m0) && Square(m1) && Square(m2) && x < |m0|
    requires SameAdjacency(m0, m1) && SameAdjacency(m1, m2)
    requires forall v :: 0 <= v < |m0| ==> UncoloredIn(m1, v) == UncoloredIn(m0, v)
    requires forall v :: 0 <= v < |m0| ==> UncoloredIn(m2, v) <= UncoloredIn(m1, v)
    requires UncoloredIn(m2, x) < UncoloredIn(m1, x)
    ensures SameAdjacency(m0, m2)
    ensures forall v :: 0 <= v < |m0| ==> UncoloredIn(m2, v) <= UncoloredIn(m0, v)
    ensures UncoloredIn(m2, x) < UncoloredIn(m0, x)
  {
  }

  /** The fan up to the first vertex where d is free is ready to rotate. */
  lemma PrefixReady(m: Matrix, x: nat, f: seq<nat>, j: nat, w: nat, d: nat)
    requires Simple(m) && Proper(m) && x < |m| && j < |f| && IsFan(m, x, f[..j + 1])
    requires w <= j && Free(m, f[w], d) && Free(m, x, d)
    ensures RotationReady(m, x, f[..w + 1], d) && FanOf(m, x, f[..w + 1])
  {
    var p := f[..w + 1];
    assert f[..j + 1][..w + 1] == p;
    FanPrefix(m, x, f[..j + 1], w + 1);
    assert p[|p| - 1] == f[w];
    RotationReadyFanOf(m, x, p, d);
  }

  /**
   * d is the smallest colour free at the fan's last vertex and c the smallest
   * other colour free at x; with degrees at most delta both lie below delta + 1.
   */
  method ChooseColors(g: array2<Cell>, x: nat, f: seq<nat>, ghost delta: nat) returns (c: nat, d: nat)
    requires g.Length0 == g.Length1 && Simple(Snap(g)) && Proper(Snap(g)) && x < g.Length0
    requires IsFan(Snap(g), x, f) && Maximal(Snap(g), x, f)
    requires forall v :: 0 <= v < g.Length0 ==> Degree(Snap(g)[v]) <= delta
    requires delta <= g.Length0
    ensures StepReady(Snap(g), x, f, c, d) && c < delta + 1 && d < delta + 1
    ensures forall k: nat :: k < d ==> Color(k) in Snap(g)[f[|f| - 1]]
    ensures forall k: nat :: k < c && k != d ==> Color(k) in Snap(g)[x]
  {
    ghost var m := Snap(g);
    var l := f[|f| - 1];
    assert |FreeColorsOf(m, l, [])| > 0 && FreeColorsOf(m, l, [])[0] < delta + 1 by {
      ColoredCountBound(m[l]);
      SmallestFreeBelow(m, l, [], delta + 1);
    }
    d := FreeColorsOf(Snap(g), l, [])[0];
    assert |FreeColorsOf(m, x, [d])| > 0 && FreeColorsOf(m, x, [d])[0] < delta + 1 by {
      ColoredCountBound(m[x]);
      assert m[x][f[0]] in m[x];
      SmallestFreeBelow(m, x, [d], delta + 1);
    }
    c := FreeColorsOf(Snap(g), x, [d])[0];
  }

  /**
   * Inverts the c/d path from x, returning that path, and names a fan
   * position j at which d is free afterwards, with the fan up to j still a
   * fan of x.
   */
  method InvertAndLocate(g: array2<Cell>, x: nat, f: seq<nat>, c: nat, d: nat, ghost bound: nat)
    returns (ghost path: seq<nat>, ghost j: nat)
    requires g.Length0 == g.Length1 && StepReady(Snap(g), x, f, c, d)
    requires ColorsBelow(Snap(g), bound) && c < bound && d < bound
    modifies g
    ensures IsCDPath(old(Snap(g)), x, c, d, path) && Snap(g) == Inverted(old(Snap(g)), path, c, d)
    ensures Simple(Snap(g)) && Proper(Snap(g)) && SameAdjacency(old(Snap(g)), Snap(g))
    ensures ColorsBelow(Snap(g), bound)
    ensures forall v :: 0 <= v < g.Length0 ==> UncoloredIn(Snap(g), v) == UncoloredIn(old(Snap(g)), v)
    ensures Free(Snap(g), x, d)
    ensures j < |f| && Free(Snap(g), f[j], d) && IsFan(Snap(g), x, f[..j + 1])
  {
    ghost var m := Snap(g);
    path := InvertCDPathOf(g, x, c, d);
    j := AfterInversion(m, x, f, c, d, path, bound);
  }

  /**
   * The position of the first fan vertex at which d is free; the ghost
   * position j, where d is known to be free, bounds the search.
   */
  method FirstFreeingD(g: array2<Cell>, f: seq<nat>, d: nat, ghost j: nat) returns (wPos: nat)
    requires g.Length0 == g.Length1 && j < |f| && forall t :: 0 <= t < |f| ==> f[t] < g.Length0
    requires Free(Snap(g), f[j], d) && d < g.Length0 + 1
    ensures wPos <= j && Free(Snap(g), f[wPos], d)
    ensures forall t :: 0 <= t < wPos ==> !Free(Snap(g), f[t], d)
  {
    wPos := 0;
    while d !in FreeColorsOf(Snap(g), f[wPos], [])
      invariant wPos <= j
      invariant forall t :: 0 <= t < wPos ==> !Free(Snap(g), f[t], d)
      decreases j - wPos
    {
      assert wPos != j;
      wPos := wPos + 1;
    }
  }

  /**
   * Rotates the fan and colours the edge from x to its last vertex with d:
   * the result is the recoloured matrix, and the colouring gains an edge.
   */
  method RotateAndColor(g: array2<Cell>, x: nat, fan: seq<nat>, d: nat, ghost bound: nat)
    requires g.Length0 == g.Length1 && RotationReady(Snap(g), x, fan, d) && FanOf(Snap(g), x, fan)
    requires ColorsBelow(Snap(g), bound) && d < bound
    modifies g
    ensures Snap(g) == Recolored(old(Snap(g)), x, fan, d)
    ensures Simple(Snap(g)) && Proper(Snap(g)) && SameAdjacency(old(Snap(g)), Snap(g))
    ensures ColorsBelow(Snap(g), bound)
    ensures forall v :: 0 <= v < g.Length0 ==> UncoloredIn(Snap(g), v) <= UncoloredIn(old(Snap(g)), v)
    ensures UncoloredIn(Snap(g), x) < UncoloredIn(old(Snap(g)), x)
  {
    ghost var m := Snap(g);
    RecoloredStep(m, x, fan, d, bound);
    RotateFan(g, x, fan);
    WriteEdge(g, x, fan[|fan| - 1], Color(d));
  }

  lemma UncoloredInEmpty(m: Matrix, v: nat)
    requires Square(m) && v < |m|
    ensures UncoloredIn(m, v) == {} <==> Uncolored !in m[v]
  {
    if Uncolored in m[v] {
      var j :| 0 <= j < |m[v]| && m[v][j] == Uncolored;
      assert j in UncoloredIn(m, v);
    }
  }

  /** One recorded Misra–Gries step at x: the choices it made and the matrix it left. */
  datatype Step = Step(x: nat, fan: seq<nat>, c: nat, d: nat, path: seq<nat>, wPos: nat, after: Matrix)

  /**
   * The fan the colouring loop works with: the maximal fan built by lowest
   * choices from x's lowest-index uncoloured edge.
   */
  ghost predicate FanChoice(m: Matrix, x: nat, fan: seq<nat>)
    requires Square(m) && x < |m|
  {
    IsFan(m, x, fan) && Maximal(m, x, fan) && LowestChoices(m, x, fan) &&
    forall j :: 0 <= j < fan[0] ==> m[x][j] != Uncolored
  }

  /** d is the smallest colour free at the fan's last vertex, c the smallest other colour free at x. */
  ghost predicate ColorChoice(m: Matrix, x: nat, fan: seq<nat>, c: nat, d: nat)
    requires Square(m) && x < |m| && |fan| > 0 && fan[|fan| - 1] < |m|
  {
    Free(m, fan[|fan| - 1], d) && (forall k: nat :: k < d ==> Color(k) in m[fan[|fan| - 1]]) &&
    Free(m, x, c) && c != d && forall k: nat :: k < c && k != d ==> Color(k) in m[x]
  }

  /** wPos is the first fan position at which d is free. */
  ghost predicate WChoice(m: Matrix, fan: seq<nat>, d: nat, wPos: nat)
    requires forall t :: 0 <= t < |fan| ==> fan[t] < |m|
  {
    wPos < |fan| && Free(m, fan[wPos], d) && forall t :: 0 <= t < wPos ==> !Free(m, fan[t], d)
  }

  /** s is the step the colouring loop takes from m at s.x, and s.after is the matrix it leaves. */
  ghost predicate IsStep(m: Matrix, s: Step)
  {
    Square(m) && Simple(m) && Proper(m) && s.x < |m| &&
    FanChoice(m, s.x, s.fan) && ColorChoice(m, s.x, s.fan, s.c, s.d) &&
    IsCDPath(m, s.x, s.c, s.d, s.path) &&
    WChoice(Inverted(m, s.path, s.c, s.d), s.fan, s.d, s.wPos) &&
    FanOf(Inverted(m, s.path, s.c, s.d), s.x, s.fan[..s.wPos + 1]) &&
    s.after == Recolored(Inverted(m, s.path, s.c, s.d), s.x, s.fan[..s.wPos + 1], s.d)
  }

  /** The matrix before step i of a run of steps starting from m0 (after the run when i == |steps|). */
  ghost function Before(m0: Matrix, steps: seq<Step>, i: nat): Matrix
    requires i <= |steps|
  {
    if i == 0 then m0 else steps[i - 1].after
  }

  /** Each step of the run is the step the loop takes from the matrix before it. */
  ghost predicate Chained(m0: Matrix, steps: seq<Step>)
  {
    forall i {:trigger Before(m0, steps, i)} :: 0 <= i < |steps| ==> IsStep(Before(m0, steps, i), steps[i])
  }

  /** No vertex below x has an uncoloured edge. */
  ghost predicate DoneBelow(m: Matrix, x: nat)
    requires Square(m) && x <= |m|
  {
    forall v :: 0 <= v < x ==> UncoloredIn(m, v) == {}
  }

  /** Before each step, every vertex below the step's vertex has no uncoloured edge. */
  ghost predicate InOrder(m0: Matrix, steps: seq<Step>)
  {
    forall i {:trigger Before(m0, steps, i)} :: 0 <= i < |steps| ==>
      Square(Before(m0, steps, i)) && steps[i].x <= |Before(m0, steps, i)| && DoneBelow(Before(m0, steps, i), steps[i].x)
  }

  /** Appending a step to a run keeps the matrices before the old steps. */
  lemma BeforeSnoc(m0: Matrix, steps: seq<Step>, s: Step)
    ensures forall i :: 0 <= i <= |steps| ==> Before(m0, steps + [s], i) == Before(m0, steps, i)
    ensures Before(m0, steps + [s], |steps| + 1) == s.after
  {
    var grown := steps + [s];
    forall i | 0 < i <= |steps|
      ensures Before(m0, grown, i) == Before(m0, steps, i)
    {
      assert grown[i - 1] == steps[i - 1];
    }
  }

  /** Appending the next step to a run keeps it chained and in order. */
  lemma ChainedSnoc(m0: Matrix, steps: seq<Step>, s: Step)
    requires Chained(m0, steps) && InOrder(m0, steps)
    requires IsStep(Before(m0, steps, |steps|), s)
    requires DoneBelow(Before(m0, steps, |steps|), s.x)
    ensures Chained(m0, steps + [s]) && InOrder(m0, steps + [s])
    ensures Before(m0, steps + [s], |steps| + 1) == s.after
  {
    var grown := steps + [s];
    BeforeSnoc(m0, steps, s);
    forall i | 0 <= i < |grown|
      ensures IsStep(Before(m0, grown, i), grown[i])
    {
      if i < |steps| {
        StepCongruent(Before(m0, steps, i), steps[i], Before(m0, grown, i), grown[i]);
      } else {
        StepCongruent(Before(m0, steps, |steps|), s, Before(m0, grown, i), grown[i]);
      }
    }
    InOrderSnoc(m0, steps, s);
  }

  /** Appending a step taken at a vertex with nothing uncoloured below it keeps a run in order. */
  lemma InOrderSnoc(m0: Matrix, steps: seq<Step>, s: Step)
    requires InOrder(m0, steps)
    requires Square(Before(m0, steps, |steps|)) && s.x <= |Before(m0, steps, |steps|)|
    requires DoneBelow(Before(m0, steps, |steps|), s.x)
    ensures InOrder(m0, steps + [s])
  {
    var grown := steps + [s];
    BeforeSnoc(m0, steps, s);
    forall i | 0 <= i < |grown|
      ensures Square(Before(m0, grown, i)) && grown[i].x <= |Before(m0, grown, i)|
      ensures DoneBelow(Before(m0, grown, i), grown[i].x)
    {
      if i < |steps| {
        DoneCongruent(Before(m0, steps, i), steps[i].x, Before(m0, grown, i), grown[i].x);
      } else {
        DoneCongruent(Before(m0, steps, |steps|), s.x, Before(m0, grown, i), grown[i].x);
      }
    }
  }

  /** Appending a step at x to a run whose steps are all at x gives a run whose steps are all at x. */
  lemma SameVertexSnoc(steps: seq<Step>, s: Step)
    requires forall i :: 0 <= i < |steps| ==> steps[i].x == s.x
    ensures forall i :: 0 <= i < |steps + [s]| ==> (steps + [s])[i].x == s.x
  {
    assert forall i :: 0 <= i < |steps + [s]| ==> (steps + [s])[i] == if i < |steps| then steps[i] else s;
  }

  /** DoneBelow holds of equal arguments. */
  lemma DoneCongruent(m1: Matrix, x1: nat, m2: Matrix, x2: nat)
    requires Square(m1) && x1 <= |m1| && DoneBelow(m1, x1) && m1 == m2 && x1 == x2
    ensures Square(m2) && x2 <= |m2| && DoneBelow(m2, x2)
  {
  }

  /** IsStep holds of equal arguments. */
  lemma StepCongruent(m1: Matrix, s1: Step, m2: Matrix, s2: Step)
    requires IsStep(m1, s1) && m1 == m2 && s1 == s2
    ensures IsStep(m2, s2)
  {
  }

  /**
   * A step of the colouring loop at x, made from the matrix a run at x has
   * reached, extends that run.
   */
  lemma RecordStep(start: Matrix, steps: seq<Step>, m: Matrix, s: Step) returns (grown: seq<Step>)
    requires Chained(start, steps) && InOrder(start, steps) && m == Before(start, steps, |steps|)
    requires forall i :: 0 <= i < |steps| ==> steps[i].x == s.x
    requires Square(m) && Simple(m) && Proper(m) && s.x < |m| && DoneBelow(m, s.x)
    requires FanChoice(m, s.x, s.fan) && ColorChoice(m, s.x, s.fan, s.c, s.d) && IsCDPath(m, s.x, s.c, s.d, s.path)
    requires WChoice(Inverted(m, s.path, s.c, s.d), s.fan, s.d, s.wPos)
    requires FanOf(Inverted(m, s.path, s.c, s.d), s.x, s.fan[..s.wPos + 1])
    requires s.after == Recolored(Inverted(m, s.path, s.c, s.d), s.x, s.fan[..s.wPos + 1], s.d)
    ensures Chained(start, grown) && InOrder(start, grown) && Before(start, grown, |grown|) == s.after
    ensures forall i :: 0 <= i < |grown| ==> grown[i].x == s.x
  {
    assert IsStep(m, s);
    ChainedSnoc(start, steps, s);
    SameVertexSnoc(steps, s);
    grown := steps + [s];
  }

  /** The matrices before the steps of a concatenated run. */
  lemma BeforeAppend(m0: Matrix, a: seq<Step>, b: seq<Step>)
    ensures forall i :: 0 <= i <= |a| ==> Before(m0, a + b, i) == Before(m0, a, i)
    ensures forall i :: |a| <= i <= |a + b| ==> Before(m0, a + b, i) == Before(Before(m0, a, |a|), b, i - |a|)
  {
    var ab := a + b;
    forall i | 0 < i <= |a|
      ensures Before(m0, ab, i) == Before(m0, a, i)
    {
      assert ab[i - 1] == a[i - 1];
    }
    forall i | |a| < i <= |ab|
      ensures Before(m0, ab, i) == Before(Before(m0, a, |a|), b, i - |a|)
    {
      assert ab[i - 1] == b[i - 1 - |a|];
    }
  }

  /** The matrix before step i of a concatenated run, at one index. */
  lemma BeforeAppendAt(m0: Matrix, a: seq<Step>, b: seq<Step>, i: nat)
    requires i <= |a + b|
    ensures Before(m0, a + b, i) == if i <= |a| then Before(m0, a, i) else Before(Before(m0, a, |a|), b, i - |a|)
  {
    if 0 < i <= |a| {
      assert (a + b)[i - 1] == a[i - 1];
    } else if i > |a| {
      assert (a + b)[i - 1] == b[i - 1 - |a|];
    }
  }

  /** A run followed by a run from where it ends is a run from the start. */
  lemma ChainedAppend(m0: Matrix, a: seq<Step>, b: seq<Step>)
    requires Chained(m0, a) && InOrder(m0, a)
    requires Chained(Before(m0, a, |a|), b) && InOrder(Before(m0, a, |a|), b)
    ensures Chained(m0, a + b) && InOrder(m0, a + b)
    ensures Before(m0, a + b, |a + b|) == Before(Before(m0, a, |a|), b, |b|)
  {
    StepsOfFirstRun(m0, a, b);
    StepsOfSecondRun(m0, a, b);
    InOrderAppend(m0, a, b);
    BeforeAppend(m0, a, b);
  }

  /** The steps of the first run stay steps from the same matrices once a second run is appended. */
  lemma StepsOfFirstRun(m0: Matrix, a: seq<Step>, b: seq<Step>)
    requires Chained(m0, a)
    ensures forall i :: 0 <= i < |a| ==> IsStep(Before(m0, a + b, i), (a + b)[i])
  {
    forall i | 0 <= i < |a|
      ensures IsStep(Before(m0, a + b, i), (a + b)[i])
    {
      BeforeAppendAt(m0, a, b, i);
      StepCongruent(Before(m0, a, i), a[i], Before(m0, a + b, i), (a + b)[i]);
    }
  }

  /** The steps of the second run are steps from the matrices the concatenated run reaches. */
  lemma StepsOfSecondRun(m0: Matrix, a: seq<Step>, b: seq<Step>)
    requires Chained(Before(m0, a, |a|), b)
    ensures forall i :: |a| <= i < |a + b| ==> IsStep(Before(m0, a + b, i), (a + b)[i])
  {
    var mid := Before(m0, a, |a|);
    forall i | |a| <= i < |a + b|
      ensures IsStep(Before(m0, a + b, i), (a + b)[i])
    {
      BeforeAppendAt(m0, a, b, i);
      StepCongruent(Before(mid, b, i - |a|), b[i - |a|], Before(m0, a + b, i), (a + b)[i]);
    }
  }

  /** A run in order followed by a run in order from where it ends is in order. */
  lemma InOrderAppend(m0: Matrix, a: seq<Step>, b: seq<Step>)
    requires InOrder(m0, a) && InOrder(Before(m0, a, |a|), b)
    ensures InOrder(m0, a + b)
  {
    var ab := a + b;
    var mid := Before(m0, a, |a|);
    BeforeAppend(m0, a, b);
    forall i | 0 <= i < |ab|
      ensures Square(Before(m0, ab, i)) && ab[i].x <= |Before(m0, ab, i)|
      ensures DoneBelow(Before(m0, ab, i), ab[i].x)
    {
      if i < |a| {
        DoneCongruent(Before(m0, a, i), a[i].x, Before(m0, ab, i), ab[i].x);
      } else {
        DoneCongruent(Before(mid, b, i - |a|), b[i - |a|].x, Before(m0, ab, i), ab[i].x);
      }
    }
  }

  /** Both fans start at x's lowest-index uncoloured edge. */
  lemma FanChoiceStart(m: Matrix, x: nat, f1: seq<nat>, f2: seq<nat>)
    requires Square(m) && x < |m| && FanChoice(m, x, f1) && FanChoice(m, x, f2)
    ensures f1[0] == f2[0]
  {
    assert m[x][f1[0]] == Uncolored && m[x][f2[0]] == Uncolored;
  }

  /** Element n of a fan extends the fan's first n elements. */
  lemma ChainExtends(m: Matrix, x: nat, f: seq<nat>, n: nat)
    requires Square(m) && x < |m| && FanChain(m, x, f) && 1 <= n <= |f|
    ensures n < |f| ==> Extends(m, x, f[..n], f[n])
  {
    if n < |f| {
      assert f[..n][n - 1] == f[n - 1];
      assert Link(m, x, f[n - 1], f[n]);
      assert forall k :: 0 <= k < n ==> f[..n][k] == f[k] != f[n];
    }
  }

  /** Two fans built by lowest choices that agree on their first n elements agree on element n. */
  lemma FanChoiceNext(m: Matrix, x: nat, f1: seq<nat>, f2: seq<nat>, n: nat)
    requires Square(m) && x < |m| && FanChoice(m, x, f1) && FanChoice(m, x, f2)
    requires 1 <= n < |f1| && n < |f2| && f1[..n] == f2[..n]
    ensures f1[n] == f2[n]
  {
    ChainExtends(m, x, f1, n);
    ChainExtends(m, x, f2, n);
    assert forall u: nat :: u < f1[n] ==> !Extends(m, x, f1[..n], u);
    assert forall u: nat :: u < f2[n] ==> !Extends(m, x, f2[..n], u);
  }

  /** There is only one fan built by lowest choices from x's lowest-index uncoloured edge. */
  lemma FanChoiceUnique(m: Matrix, x: nat, f1: seq<nat>, f2: seq<nat>)
    requires Square(m) && x < |m| && FanChoice(m, x, f1) && FanChoice(m, x, f2)
    ensures f1 == f2
  {
    var n := 1;
    FanChoiceStart(m, x, f1, f2);
    while n < |f1| && n < |f2|
      invariant 1 <= n <= |f1| && n <= |f2| && f1[..n] == f2[..n]
    {
      FanChoiceNext(m, x, f1, f2, n);
      assert f1[..n + 1] == f1[..n] + [f1[n]] && f2[..n + 1] == f2[..n] + [f2[n]];
      n := n + 1;
    }
    assert n == |f1| ==> f1[..n] == f1;
    assert n == |f2| ==> f2[..n] == f2;
    ChainExtends(m, x, f2, n);
    ChainExtends(m, x, f1, n);
    assert n == |f1| == |f2|;
    assert f1 == f1[..n] && f2 == f2[..n];
  }

  /** Vertex n of a c/d path is joined to vertex n - 1 by the colour sought there. */
  lemma PathContinues(m: Matrix, x: nat, c: nat, d: nat, p: seq<nat>, n: nat)
    requires Square(m) && AltPrefix(m, x, c, d, p) && 1 <= n <= |p|
    ensures n < |p| ==> Color(Sought(c, d, n - 1)) in m[p[n - 1]]
  {
    if n < |p| {
      assert m[p[n - 1]][p[n]] == Color(Sought(c, d, n - 1));
      assert m[p[n - 1]][p[n]] in m[p[n - 1]];
    }
  }

  /** In a proper colouring there is only one complete c/d path from x. */
  lemma CDPathUnique(m: Matrix, x: nat, c: nat, d: nat, p1: seq<nat>, p2: seq<nat>)
    requires Square(m) && Proper(m) && IsCDPath(m, x, c, d, p1) && IsCDPath(m, x, c, d, p2)
    ensures p1 == p2
  {
    var n := 1;
    while n < |p1| && n < |p2|
      invariant 1 <= n <= |p1| && n <= |p2| && p1[..n] == p2[..n]
    {
      var v := p1[n - 1];
      assert v == p1[..n][n - 1] == p2[n - 1];
      assert m[v][p1[n]] == Color(Sought(c, d, n - 1)) == m[v][p2[n]];
      assert p1[..n + 1] == p1[..n] + [p1[n]] && p2[..n + 1] == p2[..n] + [p2[n]];
      n := n + 1;
    }
    assert p1[n - 1] == p1[..n][n - 1] == p2[n - 1];
    PathContinues(m, x, c, d, p2, n);
    PathContinues(m, x, c, d, p1, n);
    assert n == |p1| == |p2|;
    assert p1 == p1[..n] && p2 == p2[..n];
  }

  /** The colours chosen for a fan are determined by the matrix. */
  lemma ColorChoiceUnique(m: Matrix, x: nat, fan: seq<nat>, c1: nat, d1: nat, c2: nat, d2: nat)
    requires Square(m) && x < |m| && |fan| > 0 && fan[|fan| - 1] < |m|
    requires ColorChoice(m, x, fan, c1, d1) && ColorChoice(m, x, fan, c2, d2)
    ensures c1 == c2 && d1 == d2
  {
  }

  /** The first fan position freeing d is determined. */
  lemma WChoiceUnique(m: Matrix, fan: seq<nat>, d: nat, w1: nat, w2: nat)
    requires forall t :: 0 <= t < |fan| ==> fan[t] < |m|
    requires WChoice(m, fan, d, w1) && WChoice(m, fan, d, w2)
    ensures w1 == w2
  {
  }

  /** Two steps from the same matrix at the same vertex use the same fan and colours. */
  lemma FanAndColorsAgree(m: Matrix, s1: Step, s2: Step)
    requires IsStep(m, s1) && IsStep(m, s2) && s1.x == s2.x
    ensures s1.fan == s2.fan && s1.c == s2.c && s1.d == s2.d
  {
    FanChoiceUnique(m, s1.x, s1.fan, s2.fan);
    ColorChoiceUnique(m, s1.x, s1.fan, s1.c, s1.d, s2.c, s2.d);
  }

  /** Two steps from the same matrix with the same fan and colours invert the same path and stop at the same w. */
  lemma PathAndWAgree(m: Matrix, s1: Step, s2: Step)
    requires IsStep(m, s1) && IsStep(m, s2) && s1.x == s2.x
    requires s1.fan == s2.fan && s1.c == s2.c && s1.d == s2.d
    ensures s1.path == s2.path && s1.wPos == s2.wPos
  {
    CDPathUnique(m, s1.x, s1.c, s1.d, s1.path, s2.path);
    WChoiceUnique(Inverted(m, s1.path, s1.c, s1.d), s1.fan, s1.d, s1.wPos, s2.wPos);
  }

  /**
   * The step the colouring loop takes at x is determined by the matrix: its
   * fan, both colours, the path, the position w and the matrix it leaves.
   */
  lemma StepUnique(m: Matrix, s1: Step, s2: Step)
    requires IsStep(m, s1) && IsStep(m, s2) && s1.x == s2.x
    ensures s1 == s2
  {
    FanAndColorsAgree(m, s1, s2);
    PathAndWAgree(m, s1, s2);
    AfterAgrees(m, s1, s2);
  }

  /** Two steps from the same matrix that make the same choices leave the same matrix. */
  lemma AfterAgrees(m: Matrix, s1: Step, s2: Step)
    requires IsStep(m, s1) && IsStep(m, s2) && s1.x == s2.x
    requires s1.fan == s2.fan && s1.c == s2.c && s1.d == s2.d && s1.path == s2.path && s1.wPos == s2.wPos
    ensures s1.after == s2.after
  {
    var inv1, inv2 := Inverted(m, s1.path, s1.c, s1.d), Inverted(m, s2.path, s2.c, s2.d);
    var pre1, pre2 := s1.fan[..s1.wPos + 1], s2.fan[..s2.wPos + 1];
    assert inv1 == inv2 && pre1 == pre2;
  }

  /** The vertex a step works at has an uncoloured edge. */
  lemma StepHasUncolored(m: Matrix, s: Step)
    requires IsStep(m, s)
    ensures s.fan[0] in UncoloredIn(m, s.x) && Uncolored in m[s.x]
  {
    assert m[s.x][s.fan[0]] == Uncolored;
  }

  /** Two steps from the same matrix, each at a vertex with no uncoloured edge below it, share their vertex. */
  lemma SameVertex(m: Matrix, s1: Step, s2: Step)
    requires IsStep(m, s1) && IsStep(m, s2) && DoneBelow(m, s1.x) && DoneBelow(m, s2.x)
    ensures s1.x == s2.x
  {
    StepHasUncolored(m, s1);
    StepHasUncolored(m, s2);
  }

  /** Two ordered runs that reach the same matrix take the same next step there. */
  lemma RunStepUnique(m0: Matrix, a: seq<Step>, b: seq<Step>, n: nat)
    requires Chained(m0, a) && InOrder(m0, a) && Chained(m0, b) && InOrder(m0, b)
    requires n < |a| && n < |b| && Before(m0, a, n) == Before(m0, b, n)
    ensures a[n] == b[n]
  {
    var m := Before(m0, a, n);
    assert IsStep(m, a[n]) && DoneBelow(m, a[n].x);
    assert IsStep(Before(m0, b, n), b[n]) && DoneBelow(Before(m0, b, n), b[n].x);
    SameVertex(m, a[n], b[n]);
    StepUnique(m, a[n], b[n]);
  }

  /** A run that continues past n leaves an uncoloured edge before step n. */
  lemma RunNotDone(m0: Matrix, a: seq<Step>, n: nat)
    requires Chained(m0, a) && n < |a|
    ensures !FullyColored(Before(m0, a, n))
  {
    assert IsStep(Before(m0, a, n), a[n]);
    StepHasUncolored(Before(m0, a, n), a[n]);
  }

  /**
   * Two runs from the same matrix that take the same step wherever they reach
   * the same matrix, and that stop exactly when every edge is coloured, are equal.
   */
  lemma RunsAgree(m0: Matrix, a: seq<Step>, b: seq<Step>)
    requires forall n :: 0 <= n < |a| && n < |b| && Before(m0, a, n) == Before(m0, b, n) ==> a[n] == b[n]
    requires forall n :: 0 <= n < |a| ==> !FullyColored(Before(m0, a, n))
    requires forall n :: 0 <= n < |b| ==> !FullyColored(Before(m0, b, n))
    requires FullyColored(Before(m0, a, |a|)) && FullyColored(Before(m0, b, |b|))
    ensures a == b
  {
    var n := 0;
    while n < |a| && n < |b|
      invariant n <= |a| && n <= |b| && forall k :: 0 <= k < n ==> a[k] == b[k]
      invariant Before(m0, a, n) == Before(m0, b, n)
    {
      assert a[n] == b[n];
      n := n + 1;
    }
    if n < |b| {
      assert false;
    } else if n < |a| {
      assert false;
    }
  }

  /**
   * Two ordered runs from the same matrix that both end with every edge
   * coloured are the same run: the colouring they leave is determined.
   */
  lemma RunUnique(m0: Matrix, a: seq<Step>, b: seq<Step>)
    requires Chained(m0, a) && InOrder(m0, a) && Chained(m0, b) && InOrder(m0, b)
    requires FullyColored(Before(m0, a, |a|)) && FullyColored(Before(m0, b, |b|))
    ensures a == b
  {
    forall n | 0 <= n < |a| && n < |b| && Before(m0, a, n) == Before(m0, b, n)
      ensures a[n] == b[n]
    {
      RunStepUnique(m0, a, b, n);
    }
    forall n | 0 <= n < |a|
      ensures !FullyColored(Before(m0, a, n))
    {
      RunNotDone(m0, a, n);
    }
    forall n | 0 <= n < |b|
      ensures !FullyColored(Before(m0, b, n))
    {
      RunNotDone(m0, b, n);
    }
    RunsAgree(m0, a, b);
  }

  /**
   * Repeats Misra–Gries steps at x until x has no uncoloured edge; edges
   * already coloured elsewhere stay coloured. The steps taken are returned
   * as a run from the matrix the loop started with: each is the step the
   * loop takes at x from the matrix the step before left, and the last one
   * leaves the final matrix.
   */
  method ColorVertex(g: array2<Cell>, x: nat, ghost m0: Matrix, ghost delta: nat)
    returns (ghost steps: seq<Step>)
    requires g.Length0 == g.Length1 && x < g.Length0
    requires Square(m0) && Simple(Snap(g)) && Proper(Snap(g)) && SameAdjacency(m0, Snap(g))
    requires ColorsBelow(Snap(g), delta + 1) && delta <= g.Length0
    requires forall v :: 0 <= v < g.Length0 ==> Degree(m0[v]) <= delta
    requires DoneBelow(Snap(g), x)
    modifies g
    ensures Simple(Snap(g)) && Proper(Snap(g)) && SameAdjacency(m0, Snap(g))
    ensures ColorsBelow(Snap(g), delta + 1)
    ensures forall v :: 0 <= v < g.Length0 ==> UncoloredIn(Snap(g), v) <= UncoloredIn(old(Snap(g)), v)
    ensures UncoloredIn(Snap(g), x) == {}
    ensures Chained(old(Snap(g)), steps) && InOrder(old(Snap(g)), steps)
    ensures Snap(g) == Before(old(Snap(g)), steps, |steps|)
    ensures forall i :: 0 <= i < |steps| ==> steps[i].x == x
  {
    steps := [];
    var changed := true;
    while changed
      invariant Simple(Snap(g)) && Proper(Snap(g)) && SameAdjacency(m0, Snap(g))
      invariant ColorsBelow(Snap(g), delta + 1)
      invariant forall v :: 0 <= v < g.Length0 ==> UncoloredIn(Snap(g), v) <= UncoloredIn(old(Snap(g)), v)
      invariant !changed ==> UncoloredIn(Snap(g), x) == {}
      invariant Chained(old(Snap(g)), steps) && InOrder(old(Snap(g)), steps)
      invariant Snap(g) == Before(old(Snap(g)), steps, |steps|)
      invariant forall i :: 0 <= i < |steps| ==> steps[i].x == x
      decreases UncoloredIn(Snap(g), x), if changed then 1 else 0
    {
      changed := false;
      var fan := MaximalFanOf(Snap(g), x, None);
      if fan.None? {
        UncoloredInEmpty(Snap(g), x);
        continue;
      }
      ghost var before := Snap(g);
      DegreesKept(m0, before, delta);
      DoneStaysBelow(old(Snap(g)), before, x);
      steps := ExtendRun(g, x, fan.value, delta, old(Snap(g)), steps);
      SubsetsCompose(old(Snap(g)), before, Snap(g));
      SameAdjacencyTrans(m0, before, Snap(g));
      changed := true;
    }
  }

  /**
   * One Misra–Gries step at x with the fan the colouring loop builds,
   * appended as a Step to the run of steps at x that led from start to the
   * current matrix.
   */
  method ExtendRun(g: array2<Cell>, x: nat, f: seq<nat>, ghost delta: nat, ghost start: Matrix, ghost steps: seq<Step>)
    returns (ghost grown: seq<Step>)
    requires g.Length0 == g.Length1 && Simple(Snap(g)) && Proper(Snap(g)) && x < g.Length0
    requires FanChoice(Snap(g), x, f) && DoneBelow(Snap(g), x)
    requires forall v :: 0 <= v < g.Length0 ==> Degree(Snap(g)[v]) <= delta
    requires delta <= g.Length0 && ColorsBelow(Snap(g), delta + 1)
    requires Chained(start, steps) && InOrder(start, steps) && Snap(g) == Before(start, steps, |steps|)
    requires forall i :: 0 <= i < |steps| ==> steps[i].x == x
    modifies g
    ensures Chained(start, grown) && InOrder(start, grown) && Snap(g) == Before(start, grown, |grown|)
    ensures forall i :: 0 <= i < |grown| ==> grown[i].x == x
    ensures Simple(Snap(g)) && Proper(Snap(g)) && SameAdjacency(old(Snap(g)), Snap(g))
    ensures ColorsBelow(Snap(g), delta + 1)
    ensures forall v :: 0 <= v < g.Length0 ==> UncoloredIn(Snap(g), v) <= UncoloredIn(old(Snap(g)), v)
    ensures UncoloredIn(Snap(g), x) < UncoloredIn(old(Snap(g)), x)
  {
    ghost var before := Snap(g);
    var c, d, path, wPos := MisraGriesStep(g, x, f, delta);
    grown := RecordStep(start, steps, before, Step(x, f, c, d, path, wPos, Snap(g)));
  }

  /** Keeping the edges twice keeps them once. */
  lemma SameAdjacencyTrans(m0: Matrix, m1: Matrix, m2: Matrix)
    requires Square(m0) && Square(m1) && Square(m2)
    requires SameAdjacency(m0, m1) && SameAdjacency(m1, m2)
    ensures SameAdjacency(m0, m2)
  {
  }

  /** Vertices without uncoloured edges stay so when no uncoloured edge is added. */
  lemma DoneStaysBelow(before: Matrix, after: Matrix, x: nat)
    requires Square(before) && Square(after) && |after| == |before| && x <= |before|
    requires DoneBelow(before, x)
    requires forall v :: 0 <= v < |before| ==> UncoloredIn(after, v) <= UncoloredIn(before, v)
    ensures DoneBelow(after, x)
  {
  }

  /** A matrix with the edges of m0 has its vertex degrees. */
  lemma DegreesKept(m0: Matrix, m: Matrix, delta: nat)
    requires Square(m0) && Square(m) && SameAdjacency(m0, m)
    requires forall v :: 0 <= v < |m0| ==> Degree(m0[v]) <= delta
    ensures forall v :: 0 <= v < |m| ==> Degree(m[v]) <= delta
  {
    forall v | 0 <= v < |m|
      ensures Degree(m[v]) <= delta
    {
      DegreeSameEdges(m0[v], m[v]);
    }
  }

  /** Shrinking the uncoloured edges twice shrinks them once. */
  lemma SubsetsCompose(m0: Matrix, m1: Matrix, m2: Matrix)
    requires Square(m0) && Square(m1) && Square(m2) && |m0| == |m1| == |m2|
    requires forall v :: 0 <= v < |m0| ==> UncoloredIn(m1, v) <= UncoloredIn(m0, v)
    requires forall v :: 0 <= v < |m0| ==> UncoloredIn(m2, v) <= UncoloredIn(m1, v)
    ensures forall v :: 0 <= v < |m0| ==> UncoloredIn(m2, v) <= UncoloredIn(m0, v)
  {
  }

  /** The cleared graph is where the colouring starts: proper, with no colour at all. */
  lemma ClearedStart(m: Matrix)
    requires Square(m) && AdjSymmetric(m) && NoLoops(m)
    ensures Simple(Cleared(m)) && Proper(Cleared(m)) && SameAdjacency(m, Cleared(m))
    ensures ColorsBelow(Cleared(m), MaxDegree(m) + 1)
    ensures MaxDegree(m) <= |m| && forall v :: 0 <= v < |m| ==> Degree(m[v]) <= MaxDegree(m)
  {
    ClearedSimple(m);
    MaxDegreeAtMostSize(m);
    MaxDegreeIsMax(m);
  }

  /** Vertices already without uncoloured edges stay so when no uncoloured edge is added. */
  lemma DoneStaysDone(before: Matrix, after: Matrix, x: nat)
    requires Square(before) && Square(after) && |after| == |before| && x < |before|
    requires forall v :: 0 <= v < x ==> UncoloredIn(before, v) == {}
    requires forall v :: 0 <= v < |before| ==> UncoloredIn(after, v) <= UncoloredIn(before, v)
    requires UncoloredIn(after, x) == {}
    ensures forall v :: 0 <= v < x + 1 ==> UncoloredIn(after, v) == {}
  {
  }

  /**
   * Once no vertex has an uncoloured edge, a proper colouring is valid in the
   * full sense and uses at most `bound` distinct colours.
   */
  lemma Finished(m: Matrix, bound: nat)
    requires Simple(m) && Proper(m) && ColorsBelow(m, bound)
    requires forall v :: 0 <= v < |m| ==> UncoloredIn(m, v) == {}
    ensures FullyColored(m)
    ensures ValidSpec(m, true, true) && ValidSpec(m, true, false)
    ensures |GraphColors(m)| <= bound
  {
    forall v | 0 <= v < |m|
      ensures Uncolored !in m[v]
    {
      UncoloredInEmpty(m, v);
    }
    ValidSpecFull(m);
    ValidSpecProper(m, true);
    ColorCountBound(m, bound);
  }

  /**
   * Colours every edge of a simple graph: first clears all colours, then
   * for each vertex x repeats Misra–Gries steps until x has no uncoloured
   * edge. The result is a proper colouring of every edge with colours below
   * the maximum degree plus one. The steps taken are returned as a run from
   * the cleared matrix, each taken at the lowest vertex that still has an
   * uncoloured edge; by RunUnique there is only one such run that ends with
   * every edge coloured, so the colouring left is the one the loop determines.
   */
  method ColorGraph(g: array2<Cell>) returns (ghost steps: seq<Step>)
    requires g.Length0 == g.Length1 && AdjSymmetric(Snap(g)) && NoLoops(Snap(g))
    modifies g
    ensures SameAdjacency(old(Snap(g)), Snap(g)) && Symmetric(Snap(g))
    ensures ValidSpec(Snap(g), true, true) && Proper(Snap(g)) && FullyColored(Snap(g))
    ensures ColorsBelow(Snap(g), MaxDegree(old(Snap(g))) + 1)
    ensures |GraphColors(Snap(g))| <= MaxDegree(old(Snap(g))) + 1
    ensures Chained(Cleared(old(Snap(g))), steps) && InOrder(Cleared(old(Snap(g))), steps)
    ensures Snap(g) == Before(Cleared(old(Snap(g))), steps, |steps|)
  {
    ghost var m0 := Snap(g);
    ghost var delta := MaxDegree(m0);
    var n := g.Length0;
    ClearGraph(g);
    ClearedStart(m0);
    ghost var start := Snap(g);
    steps := [];
    for x := 0 to n
      invariant Simple(Snap(g)) && Proper(Snap(g)) && SameAdjacency(m0, Snap(g))
      invariant ColorsBelow(Snap(g), delta + 1)
      invariant DoneBelow(Snap(g), x)
      invariant Chained(start, steps) && InOrder(start, steps)
      invariant Snap(g) == Before(start, steps, |steps|)
    {
      ghost var before := Snap(g);
      var vertexSteps := ColorVertex(g, x, m0, delta);
      DoneStaysDone(before, Snap(g), x);
      ChainedAppend(start, steps, vertexSteps);
      steps := steps + vertexSteps;
    }
    Finished(Snap(g), delta + 1);
  }
}
