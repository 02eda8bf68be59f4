/** Cardinality facts behind the capacity arguments. */
module Counting {

  ghost predicate Distinct<T>(s: seq<T>) {
    forall i, j :: 0 <= i < j < |s| ==> s[i] != s[j]
  }

  /** Pigeonhole: pairwise distinct members of a set are no more than the set holds. */
  lemma {:induction false} DistinctFits<T>(s: seq<T>, S: set<T>)
    requires Distinct(s)
    requires forall x :: x in s ==> x in S
    ensures |s| <= |S|
  {
    if s != [] {
      var last := s[|s| - 1];
      forall x | x in s[..|s| - 1] ensures x in S - {last} {
        var i :| 0 <= i < |s| - 1 && s[i] == x;
      }
      DistinctFits(s[..|s| - 1], S - {last});
    }
  }

  ghost function Below(n: nat): (below: set<nat>)
    ensures forall x: nat :: x in below <==> x < n
    ensures |below| == n
  {
    if n == 0 then {} else Below(n - 1) + {n - 1}
  }

  /** Pairwise distinct numbers below a bound are no more than the bound. */
  lemma DistinctBelow(s: seq<int>, n: nat)
    requires Distinct(s)
    requires forall i :: 0 <= i < |s| ==> 0 <= s[i] < n
    ensures |s| <= n
  {
    DistinctFits(s, Below(n));
  }

  /** A sequence holds at most as many different elements as it is long. */
  lemma {:induction false} ElementsFit<T>(s: seq<T>)
    ensures |set x | x in s| <= |s|
  {
    if s != [] {
      ElementsFit(s[1..]);
      assert (set x | x in s) == (set x | x in s[1..]) + {s[0]};
    }
  }

  lemma {:induction false} SubsetCount<T>(a: set<T>, b: set<T>)
    requires a <= b
    ensures |a| <= |b|
  {
    if a != {} {
      var x :| x in a;
      SubsetCount(a - {x}, b - {x});
    }
  }

  /** A sequence shorter than a bound misses some number below it. */
  lemma MissesOne(s: seq<nat>, n: nat) returns (x: nat)
    requires |s| < n
    ensures x < n && x !in s
  {
    var elements := set y | y in s;
    ElementsFit(s);
    if Below(n) <= elements {
      SubsetCount(Below(n), elements);
    }
    x :| x in Below(n) && x !in elements;
  }

  lemma FirstIsElement<T>(s: seq<T>)
    ensures s != [] ==> s[0] in s
  {
  }
}
