/** Sizes of finite sets of numbers, and the pigeonhole argument. */
module Finite {

  ghost function Below(n: nat): (numbers: set<nat>)
    ensures forall i: nat :: i in numbers <==> i < n
    ensures |numbers| == n
  {
    if n == 0 then {} else Below(n - 1) + {n - 1}
  }

  ghost function Elements(s: seq<nat>): (elements: set<nat>)
    ensures forall x :: x in elements <==> x in s
    ensures |elements| <= |s|
  {
    if s == [] then {} else {s[0]} + Elements(s[1..])
  }

  lemma {:induction false} DistinctElements(s: seq<nat>)
    requires forall i, j | 0 <= i < j < |s| :: s[i] != s[j]
    ensures |Elements(s)| == |s|
  {
    if s != [] {
      assert s[0] !in s[1..];
      DistinctElements(s[1..]);
    }
  }

  /** Distinct numbers of a set are no more than its elements. */
  lemma DistinctWithin(s: seq<nat>, within: set<nat>)
    requires forall i, j | 0 <= i < j < |s| :: s[i] != s[j]
    requires forall i | 0 <= i < |s| :: s[i] in within
    ensures |s| <= |within|
  {
    DistinctElements(s);
    SubsetSize(Elements(s), within);
  }

  lemma SubsetSize(a: set<nat>, b: set<nat>)
    requires a <= b
    ensures |a| <= |b|
    decreases a
  {
    if a != {} {
      var x :| x in a;
      SubsetSize(a - {x}, b - {x});
    }
  }
}
