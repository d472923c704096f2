/**
 * FanRotator: shifting the colours of a fan's edges one place to the left,
 * so that the edge (x, fan[t]) takes the colour of (x, fan[t+1]) and the
 * last edge takes the colour of the first.
 */
module FanRotator {
  import opened Cells
  import opened Counting

  /** The position after t in a cyclic sequence of length len. */
  function Succ(t: nat, len: nat): nat
  {
    if t + 1 < len then t + 1 else 0
  }

  /** The first element moves to the end. */
  function ShiftLeft<T>(s: seq<T>): (r: seq<T>)
    requires |s| > 0
    ensures |r| == |s| && forall t :: 0 <= t < |s| ==> r[t] == s[Succ(t, |s|)]
    ensures multiset(r) == multiset(s)
  {
    assert s == [s[0]] + s[1..];
    s[1..] + [s[0]]
  }

  /** The cells of the edges from x to the fan, in fan order. */
  function FanColors(m: Matrix, x: nat, fan: seq<nat>): (r: seq<Cell>)
    requires Square(m) && x < |m| && forall t :: 0 <= t < |fan| ==> fan[t] < |m|
    ensures |r| == |fan| && forall t :: 0 <= t < |fan| ==> r[t] == m[x][fan[t]]
  {
    seq(|fan|, t requires 0 <= t < |fan| => m[x][fan[t]])
  }

  /** The first position of v in s. */
  ghost function PosIn(s: seq<nat>, v: nat): (r: nat)
    requires v in s
    ensures r < |s| && s[r] == v
  {
    if s[0] == v then 0 else 1 + PosIn(s[1..], v)
  }

  /** Precondition shared by the rotation: distinct fan vertices of the graph, none of them x. */
  ghost predicate FanOf(m: Matrix, x: nat, fan: seq<nat>)
  {
    x < |m| && Distinct(fan) && x !in fan && forall t :: 0 <= t < |fan| ==> fan[t] < |m|
  }

  /** m after the edges (x, fan[t]) for t < upTo have been given the cells colors[t]. */
  ghost function EdgesSet(m: Matrix, x: nat, fan: seq<nat>, colors: seq<Cell>, upTo: nat): (r: Matrix)
    requires Square(m) && FanOf(m, x, fan) && upTo <= |fan| == |colors|
    ensures Square(r) && |r| == |m|
  {
    seq(|m|, a requires 0 <= a < |m| =>
      seq(|m|, b requires 0 <= b < |m| =>
        if a == x && b in fan[..upTo] then colors[PosIn(fan, b)]
        else if b == x && a in fan[..upTo] then colors[PosIn(fan, a)]
        else m[a][b]))
  }

  lemma EdgesSetNone(m: Matrix, x: nat, fan: seq<nat>, colors: seq<Cell>)
    requires Square(m) && FanOf(m, x, fan) && |fan| == |colors|
    ensures EdgesSet(m, x, fan, colors, 0) == m
  {
    MatrixExt(EdgesSet(m, x, fan, colors, 0), m);
  }

  /** Setting one more fan edge is one edge write. */
  lemma EdgesSetStep(m: Matrix, x: nat, fan: seq<nat>, colors: seq<Cell>, i: nat)
    requires Square(m) && FanOf(m, x, fan) && i < |fan| == |colors|
    ensures EdgesSet(m, x, fan, colors, i + 1) == SetEdge(EdgesSet(m, x, fan, colors, i), x, fan[i], colors[i])
  {
    var after := EdgesSet(m, x, fan, colors, i + 1);
    var step := SetEdge(EdgesSet(m, x, fan, colors, i), x, fan[i], colors[i]);
    assert fan[..i + 1] == fan[..i] + [fan[i]];
    assert PosIn(fan, fan[i]) == i;
    MatrixExt(after, step);
  }

  /** The matrix after the rotation: each fan edge takes the cell of the next one, cyclically. */
  ghost function Rotated(m: Matrix, x: nat, fan: seq<nat>): (r: Matrix)
    requires Square(m) && FanOf(m, x, fan) && |fan| > 0
    ensures Square(r) && |r| == |m|
    ensures forall t :: 0 <= t < |fan| ==>
      r[x][fan[t]] == m[x][fan[Succ(t, |fan|)]] && r[fan[t]][x] == m[x][fan[Succ(t, |fan|)]]
    ensures forall a, b :: 0 <= a < |m| && 0 <= b < |m| && !(a == x && b in fan) && !(b == x && a in fan) ==>
      r[a][b] == m[a][b]
  {
    var r := EdgesSet(m, x, fan, ShiftLeft(FanColors(m, x, fan)), |fan|);
    assert fan[..|fan|] == fan;
    assert forall t :: 0 <= t < |fan| ==> PosIn(fan, fan[t]) == t;
    r
  }

  /**
   * Left-shifts the colours of the fan's edges, writing both directions of
   * each edge.
   */
  method RotateFan(g: array2<Cell>, x: nat, fan: seq<nat>)
    requires g.Length0 == g.Length1 && FanOf(Snap(g), x, fan) && |fan| > 0
    modifies g
    ensures Snap(g) == Rotated(old(Snap(g)), x, fan)
  {
    ghost var m0 := Snap(g);
    var colors := FanColors(Snap(g), x, fan);
    colors := ShiftLeft(colors);
    EdgesSetNone(m0, x, fan, colors);
    for i := 0 to |fan|
      invariant Snap(g) == EdgesSet(m0, x, fan, colors, i)
    {
      EdgesSetStep(m0, x, fan, colors, i);
      WriteEdge(g, x, fan[i], colors[i]);
    }
    assert fan[..|fan|] == fan;
  }

  /** Read along the fan, the rotated colours are the old ones shifted left by one. */
  lemma RotatedIsShift(m: Matrix, x: nat, fan: seq<nat>)
    requires Square(m) && FanOf(m, x, fan) && |fan| > 0
    ensures FanColors(Rotated(m, x, fan), x, fan) == ShiftLeft(FanColors(m, x, fan))
  {
  }

  /** The rotation keeps a symmetric matrix symmetric and changes no adjacency. */
  lemma RotatedSymmetric(m: Matrix, x: nat, fan: seq<nat>)
    requires Simple(m) && FanOf(m, x, fan) && |fan| > 0
    requires forall t :: 0 <= t < |fan| ==> m[x][fan[t]] != NotAdj
    ensures Simple(Rotated(m, x, fan)) && SameAdjacency(m, Rotated(m, x, fan))
  {
    var r := Rotated(m, x, fan);
    forall a: nat, b: nat | a < |m| && b < |m|
      ensures r[a][b] == r[b][a] && (r[a][b] == NotAdj <==> m[a][b] == NotAdj)
    {
      if a == x && b in fan {
        var t := PosIn(fan, b);
      } else if b == x && a in fan {
        var t := PosIn(fan, a);
      }
    }
  }
}
