/**
 * FanBuilder: the maximal fan of a vertex X. A fan is a sequence of distinct
 * neighbours of X whose first edge to X is uncoloured and where the colour
 * of each later edge (X, F[i]) is free at the previous element F[i-1].
 */
module FanBuilder {
  import opened Cells
  import opened Counting
  import opened GraphModel

  /**
   * v may follow prev in a fan of X: a neighbour of X joined by a coloured
   * edge whose colour is one of the free colours of prev.
   */
  ghost predicate Link(m: Matrix, x: nat, prev: nat, v: nat)
    requires Square(m) && x < |m| && prev < |m|
  {
    v < |m| && m[x][v].Color? && m[x][v].k < |m| + 1 && Free(m, prev, m[x][v].k)
  }

  /** v may extend F: it follows F's last element and is not yet in F. */
  ghost predicate Extends(m: Matrix, x: nat, fan: seq<nat>, v: nat)
    requires Square(m) && x < |m| && |fan| > 0 && fan[|fan| - 1] < |m|
  {
    Link(m, x, fan[|fan| - 1], v) && v !in fan
  }

  /** Distinct vertices, each after the first following the one before it. */
  ghost predicate FanChain(m: Matrix, x: nat, fan: seq<nat>)
    requires Square(m) && x < |m|
  {
    |fan| > 0 && Distinct(fan) &&
    (forall i :: 0 <= i < |fan| ==> fan[i] < |m|) &&
    (forall i :: 1 <= i < |fan| ==> Link(m, x, fan[i - 1], fan[i]))
  }

  /** A fan of x: a chain whose first edge to x is uncoloured. */
  ghost predicate IsFan(m: Matrix, x: nat, fan: seq<nat>)
    requires Square(m) && x < |m|
  {
    FanChain(m, x, fan) && m[x][fan[0]] == Uncolored
  }

  /** No vertex extends the fan any further. */
  ghost predicate Maximal(m: Matrix, x: nat, fan: seq<nat>)
    requires Square(m) && x < |m| && |fan| > 0 && fan[|fan| - 1] < |m|
  {
    forall v: nat :: !Extends(m, x, fan, v)
  }

  function FirstFromBFrom(m: Matrix, x: nat, fan: seq<nat>, free: seq<nat>, v: nat): (r: Option<nat>)
    requires Square(m) && x < |m| && v <= |m|
    decreases |m| - v
    ensures r.Some? ==> v <= r.value < |m| && m[x][r.value].Color? && r.value !in fan && m[x][r.value].k in free
    ensures forall u :: v <= u < |m| && (r.Some? ==> u < r.value) ==>
      !(m[x][u].Color? && u !in fan && m[x][u].k in free)
  {
    if v == |m| then None
    else if m[x][v] == NotAdj then FirstFromBFrom(m, x, fan, free, v + 1)
    else if m[x][v] == Uncolored then FirstFromBFrom(m, x, fan, free, v + 1)
    else if v in fan then FirstFromBFrom(m, x, fan, free, v + 1)
    else if m[x][v].k !in free then FirstFromBFrom(m, x, fan, free, v + 1)
    else Some(v)
  }

  /** The lowest-index vertex that extends the fan, if there is one. */
  function FirstFromB(m: Matrix, x: nat, fan: seq<nat>): (r: Option<nat>)
    requires Square(m) && x < |m| && |fan| > 0 && fan[|fan| - 1] < |m|
    ensures r.Some? ==> Extends(m, x, fan, r.value) && forall u: nat :: u < r.value ==> !Extends(m, x, fan, u)
    ensures r.None? ==> Maximal(m, x, fan)
  {
    var free := FreeColorsOf(m, fan[|fan| - 1], []);
    FirstFromBFrom(m, x, fan, free, 0)
  }

  /** Each element after the first is the lowest-index vertex extending the elements before it. */
  ghost predicate LowestChoices(m: Matrix, x: nat, fan: seq<nat>)
    requires Square(m) && x < |m| && FanChain(m, x, fan)
  {
    forall i, u: nat :: 1 <= i < |fan| && u < fan[i] ==> !Extends(m, x, fan[..i], u)
  }

  /** Appending the lowest-index extending vertex keeps a chain built by lowest choices. */
  lemma ChainGrows(m: Matrix, x: nat, chain: seq<nat>, v: nat)
    requires Square(m) && x < |m| && FanChain(m, x, chain) && LowestChoices(m, x, chain)
    requires Extends(m, x, chain, v) && forall u: nat :: u < v ==> !Extends(m, x, chain, u)
    ensures FanChain(m, x, chain + [v]) && LowestChoices(m, x, chain + [v])
  {
    var grown := chain + [v];
    assert grown[..|chain|] == chain;
    assert forall i :: 1 <= i < |chain| ==> grown[..i] == chain[..i];
    assert grown[|chain| - 1] == chain[|chain| - 1];
  }

  /**
   * Builds the maximal fan of x. Without a seed, the fan starts at x's
   * lowest-index uncoloured edge, and there is no fan when x has none.
   * Each further element is the lowest-index vertex extending the fan so far.
   */
  method MaximalFanOf(m: Matrix, x: nat, f: Option<nat>) returns (fan: Option<seq<nat>>)
    requires Square(m) && x < |m|
    requires f.Some? ==> f.value < |m|
    ensures f.None? ==> (fan.None? <==> Uncolored !in m[x])
    ensures f.None? && fan.Some? ==>
      IsFan(m, x, fan.value) && forall j :: 0 <= j < fan.value[0] ==> m[x][j] != Uncolored
    ensures f.Some? ==> fan.Some? && |fan.value| > 0 && fan.value[0] == f.value
    ensures fan.Some? ==> FanChain(m, x, fan.value) && Maximal(m, x, fan.value) && |fan.value| <= |m|
    ensures fan.Some? ==> LowestChoices(m, x, fan.value)
  {
    var first := f;
    if f.None? {
      var v := 0;
      while v < |m|
        invariant v <= |m| && first.None?
        invariant forall j :: 0 <= j < v ==> m[x][j] != Uncolored
      {
        if m[x][v] == Uncolored {
          first := Some(v);
          break;
        }
        v := v + 1;
      }
    }
    if first.None? {
      return None;
    }
    var chain := [first.value];
    var next := FirstFromB(m, x, chain);
    while next.Some?
      invariant FanChain(m, x, chain) && chain[0] == first.value
      invariant next == FirstFromB(m, x, chain)
      invariant LowestChoices(m, x, chain)
      decreases |m| - |chain|
    {
      var grown := chain + [next.value];
      ChainGrows(m, x, chain, next.value);
      DistinctBounded(grown, |m|);
      chain := grown;
      next := FirstFromB(m, x, chain);
    }
    DistinctBounded(chain, |m|);
    fan := Some(chain);
  }

  /** Fan elements are neighbours of x, so (without self-loops) never x itself. */
  lemma FanAvoidsCentre(m: Matrix, x: nat, fan: seq<nat>)
    requires Square(m) && NoLoops(m) && x < |m| && FanChain(m, x, fan)
    requires m[x][fan[0]] != NotAdj
    ensures forall i :: 0 <= i < |fan| ==> m[x][fan[i]] != NotAdj && fan[i] != x
  {
    forall i | 1 <= i < |fan|
      ensures m[x][fan[i]] != NotAdj
    {
      assert Link(m, x, fan[i - 1], fan[i]);
    }
  }

  /** Every non-empty prefix of a fan is a fan. */
  lemma FanPrefix(m: Matrix, x: nat, fan: seq<nat>, len: nat)
    requires Square(m) && x < |m| && IsFan(m, x, fan) && 1 <= len <= |fan|
    ensures IsFan(m, x, fan[..len])
  {
  }

  /** The defining property of a fan, stated on consecutive elements. */
  lemma FanColorsChain(m: Matrix, x: nat, fan: seq<nat>, i: nat)
    requires Square(m) && x < |m| && FanChain(m, x, fan) && 1 <= i < |fan|
    ensures m[x][fan[i]].Color? && Free(m, fan[i - 1], m[x][fan[i]].k)
  {
  }
}
