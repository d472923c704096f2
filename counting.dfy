/**
 * Pigeonhole facts about finite sets and sequences of naturals, used to
 * show that a free colour exists and that fans and paths are bounded by
 * the number of vertices.
 */
module Counting {

  /** No value occurs twice in s. */
  predicate Distinct(s: seq<nat>)
  {
    forall i, j :: 0 <= i < j < |s| ==> s[i] != s[j]
  }

  /** Every element is smaller than the next one. */
  predicate Increasing(s: seq<nat>)
  {
    forall i, j :: 0 <= i < j < |s| ==> s[i] < s[j]
  }

  /** The naturals below `bound`. */
  ghost function Range(bound: nat): (r: set<nat>)
    ensures forall k: nat :: k in r <==> k < bound
    ensures |r| == bound
  {
    if bound == 0 then {} else Range(bound - 1) + {bound - 1}
  }

  lemma {:induction false} SubsetCard<T>(a: set<T>, b: set<T>)
    requires a <= b
    ensures |a| <= |b|
  {
    if a != {} {
      var x :| x in a;
      SubsetCard(a - {x}, b - {x});
    }
  }

  /** A set of fewer than `bound` naturals misses some value below `bound`. */
  lemma MissingBelow(e: set<nat>, bound: nat)
    requires |e| < bound
    ensures exists k: nat :: k < bound && k !in e
  {
    if forall k: nat :: k < bound ==> k in e {
      SubsetCard(Range(bound), e);
    }
  }

  /** The set of values of s. */
  ghost function Elems(s: seq<nat>): set<nat>
  {
    set x | x in s
  }

  lemma {:induction false} DistinctSetCard(s: seq<nat>)
    requires Distinct(s)
    ensures |Elems(s)| == |s|
  {
    if s != [] {
      var t := s[..|s| - 1];
      assert Distinct(t);
      DistinctSetCard(t);
      assert Elems(s) == Elems(t) + {s[|s| - 1]};
      assert s[|s| - 1] !in Elems(t);
    }
  }

  lemma {:induction false} ElemsCard(s: seq<nat>)
    ensures |Elems(s)| <= |s|
  {
    if s != [] {
      var t := s[..|s| - 1];
      ElemsCard(t);
      assert Elems(s) == Elems(t) + {s[|s| - 1]};
    }
  }

  /** A sequence of distinct naturals below n has at most n elements. */
  lemma DistinctBounded(s: seq<nat>, n: nat)
    requires Distinct(s)
    requires forall i :: 0 <= i < |s| ==> s[i] < n
    ensures |s| <= n
  {
    DistinctSetCard(s);
    SubsetCard(Elems(s), Range(n));
  }
}
