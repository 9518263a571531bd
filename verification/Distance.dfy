/**
 Comparing feature vectors (mrf::unique_features, mrf::distance and mrf::radiance on vectors, src/lsh/mrf.cpp): a merge
 of two sorted vectors computes the size of their symmetric difference, which is a metric.
 */
module Distance {
  import opened Wrappers
  import opened Sorting

  type Features = seq<nat>

  ghost predicate Sorted(s: Features) {
    SortedBy(s, NatAtMost)
  }

  lemma NumbersAreOrdered()
    ensures TotalOrder(NatAtMost)
  {
  }

  /** The number of features the two have in common, with multiplicity. */
  function Common(a: Features, b: Features): (c: nat) {
    |multiset(a) * multiset(b)|
  }

  /** The number of features that only one of the two has, with multiplicity. */
  function Difference(a: Features, b: Features): (d: nat) {
    |multiset(a) - multiset(b)| + |multiset(b) - multiset(a)|
  }

  lemma SplitMultiset(x: multiset<nat>, y: multiset<nat>)
    ensures |x| == |x * y| + |x - y|
  {
    assert x == x * y + (x - y);
  }

  lemma DifferenceFromCommon(a: Features, b: Features)
    ensures Difference(a, b) == |a| + |b| - 2 * Common(a, b)
  {
    SplitMultiset(multiset(a), multiset(b));
    SplitMultiset(multiset(b), multiset(a));
    assert multiset(b) * multiset(a) == multiset(a) * multiset(b);
    assert |multiset(a)| == |a| && |multiset(b)| == |b|;
  }

  // ----- The merge -----

  function HashCompare(a: nat, b: nat): (c: int) {
    if a < b then -1 else if a > b then 1 else 0
  }

  lemma FirstAndRest(s: Features)
    requires |s| > 0
    ensures multiset(s) == multiset{s[0]} + multiset(s[1..])
  {
    assert s == [s[0]] + s[1..];
  }

  /** The first of b is below all of a: it is in nothing common. */
  lemma SkipSmaller(a: Features, b: Features)
    requires Sorted(a) && |b| > 0 && (|a| > 0 ==> b[0] < a[0])
    ensures Common(a, b) == Common(a, b[1..]) && Common(b, a) == Common(b[1..], a)
  {
    FirstAndRest(b);
    assert b[0] !in a;
    assert b[0] !in multiset(a);
    assert multiset(a) * multiset(b) == multiset(a) * multiset(b[1..]);
    assert multiset(b) * multiset(a) == multiset(b[1..]) * multiset(a);
  }

  lemma MatchFirst(a: Features, b: Features)
    requires |a| > 0 && |b| > 0 && a[0] == b[0]
    ensures Common(a, b) == 1 + Common(a[1..], b[1..])
  {
    FirstAndRest(a);
    FirstAndRest(b);
    assert multiset(a) * multiset(b) == multiset{a[0]} + multiset(a[1..]) * multiset(b[1..]);
  }

  lemma CommonWithNothing(a: Features, b: Features)
    requires |a| == 0 || |b| == 0
    ensures Common(a, b) == 0
  {
  }

  lemma TailSorted(a: Features, i: nat)
    requires Sorted(a) && i <= |a|
    ensures Sorted(a[i..])
  {
  }

  /** The out-of-range access that a non-empty vector against an empty one makes. */
  datatype Error = OutOfRange

  datatype Comparison = Comparison(distance: nat, common: nat)

  method MergeDistance(a: Features, b: Features) returns (r: Result<Comparison, Error>)
    requires Sorted(a) && Sorted(b)
    ensures r.Failure? <==> |a| > 0 && |b| == 0
    ensures r.Success? ==> r.value == Comparison(Difference(a, b), Common(a, b))
  {
    hide Common, Difference, SortedBy;
    var common, i, j := 0, 0, 0;
    assert a[0..] == a && b[0..] == b;
    while i < |a|
      invariant 0 <= i <= |a| && 0 <= j <= |b|
      invariant common + Common(a[i..], b[j..]) == Common(a, b)
      invariant i < |a| ==> j < |b| || (j == 0 && i == 0)
      invariant i > 0 || j > 0 ==> |b| > 0
      decreases |a| - i + |b| - j
    {
      if j >= |b| {
        return Failure(OutOfRange);
      }
      ghost var x, y := a[i..], b[j..];
      TailSorted(a, i);
      TailSorted(b, j);
      assert x[1..] == a[i + 1..] && y[1..] == b[j + 1..];
      var cmp := HashCompare(a[i], b[j]);
      if cmp > 0 {
        SkipSmaller(x, y);
        j := j + 1;
        if j >= |b| {
          break;
        }
      } else if cmp < 0 {
        SkipSmaller(y, x);
        i := i + 1;
      } else {
        MatchFirst(x, y);
        common := common + 1;
        i := i + 1;
        j := j + 1;
        if j >= |b| {
          break;
        }
      }
    }
    CommonWithNothing(a[i..], b[j..]);
    DifferenceFromCommon(a, b);
    var foundOnlyInSet1 := |a| - common;
    var foundOnlyInSet2 := |b| - common;
    r := Success(Comparison(foundOnlyInSet1 + foundOnlyInSet2, common));
  }

  const EPSILON: real := 0.000001

  /** common_features * common_features wraps at 32 bits. */
  function Radiance(c: Comparison): (r: real) {
    (((c.common * c.common) % 0x1_0000_0000) as real) / (c.distance as real + EPSILON)
  }

  lemma RadianceMeans(c: Comparison)
    ensures Radiance(c) * (c.distance as real + 0.000001) == ((c.common * c.common) % 4294967296) as real
  {
    var x, y := ((c.common * c.common) % 4294967296) as real, c.distance as real + 0.000001;
    assert x / y * y == x;
  }

  method MergeRadiance(a: Features, b: Features) returns (r: Result<real, Error>)
    requires Sorted(a) && Sorted(b)
    ensures r.Failure? <==> |a| > 0 && |b| == 0
    ensures r.Success? ==> r.value == Radiance(Comparison(Difference(a, b), Common(a, b)))
  {
    var c := MergeDistance(a, b);
    match c {
      case Failure(e) => return Failure(e);
      case Success(v) => return Success(Radiance(v));
    }
  }

  // ----- The distance is a metric -----

  lemma DifferenceIsSymmetric(a: Features, b: Features)
    ensures Difference(a, b) == Difference(b, a) && Common(a, b) == Common(b, a)
  {
    assert multiset(a) * multiset(b) == multiset(b) * multiset(a);
  }

  /** Only equal sorted vectors are at distance zero. */
  lemma DifferenceSeparates(a: Features, b: Features)
    requires Sorted(a) && Sorted(b)
    ensures Difference(a, b) == 0 <==> a == b
  {
    var x, y := multiset(a), multiset(b);
    if Difference(a, b) == 0 {
      assert x - y == multiset{} && y - x == multiset{};
      assert x == (x * y) + (x - y) && y == (y * x) + (y - x);
      assert x * y == y * x;
      NumbersAreOrdered();
      SortedUnique(a, b, NatAtMost);
    }
  }

  lemma SubsetSize(x: multiset<nat>, y: multiset<nat>)
    requires x <= y
    ensures |x| <= |y|
  {
    assert y == x + (y - x);
  }

  lemma TriangleInequality(a: Features, b: Features, c: Features)
    ensures Difference(a, c) <= Difference(a, b) + Difference(b, c)
  {
    var x, y, z := multiset(a), multiset(b), multiset(c);
    SubsetSize(x * y + y * z, y + x * z);
    DifferenceFromCommon(a, c);
    DifferenceFromCommon(a, b);
    DifferenceFromCommon(b, c);
    assert |y| == |b|;
  }

  // ----- Without repetitions -----

  /** Runs of equal features reduced to one. */
  function Dedup(s: Features): (r: Features)
    ensures |s| > 0 ==> |r| > 0 && r[|r| - 1] == s[|s| - 1]
    ensures |r| <= |s|
  {
    if |s| <= 1 then s
    else
      var r := Dedup(s[..|s| - 1]);
      if s[|s| - 1] == s[|s| - 2] then r else r + [s[|s| - 1]]
  }

  lemma DedupStep(s: Features, i: nat)
    requires 0 < i < |s|
    ensures Dedup(s[..i + 1]) == if s[i] == s[i - 1] then Dedup(s[..i]) else Dedup(s[..i]) + [s[i]]
  {
    assert s[..i + 1][..i] == s[..i];
  }

  lemma DedupStart(s: Features)
    ensures Dedup(s[..0]) == [] && (|s| > 0 ==> Dedup(s[..1]) == [s[0]]) && (|s| == 1 ==> Dedup(s) == s)
  {
  }

  /** unique_features, as a loop within a loop over the same position. */
  method UniqueFeatures(sortedFeatures: Features) returns (r: Features)
    ensures r == Dedup(sortedFeatures)
  {
    hide Dedup;
    var s := sortedFeatures;
    DedupStart(s);
    if |s| == 1 {
      return s;
    }
    r := [];
    var i := 0;
    while i < |s|
      invariant 0 <= i <= |s| && r == Dedup(s[..i])
      invariant 0 < i < |s| ==> s[i] != s[i - 1]
    {
      var feat := s[i];
      if i > 0 {
        DedupStep(s, i);
      }
      r := r + [feat];
      i := i + 1;
      while i < |s| && s[i] == feat
        invariant 0 < i <= |s| && s[i - 1] == feat && r == Dedup(s[..i])
      {
        DedupStep(s, i);
        i := i + 1;
      }
    }
    assert s[..i] == s;
  }

  ghost predicate StrictlySorted(s: Features) {
    forall i, j :: 0 <= i < j < |s| ==> s[i] < s[j]
  }

  lemma {:induction false} DedupOfSorted(s: Features)
    requires Sorted(s)
    ensures StrictlySorted(Dedup(s))
    ensures forall x :: x in Dedup(s) <==> x in s
  {
    if |s| > 1 {
      var n := |s| - 1;
      DedupOfSorted(s[..n]);
      assert s == s[..n] + [s[n]];
      assert s[n - 1] in s[..n];
      var r := Dedup(s[..n]);
      forall i | 0 <= i < |r|
        ensures r[i] <= r[|r| - 1]
      {
      }
    }
  }

  function ToSet(s: Features): (r: set<nat>) {
    set x | x in s
  }

  lemma {:induction false} StrictlySortedIsSet(s: Features)
    requires StrictlySorted(s)
    ensures multiset(s) == multiset(ToSet(s)) && |s| == |ToSet(s)|
  {
    if |s| > 0 {
      var n := |s| - 1;
      StrictlySortedIsSet(s[..n]);
      assert s == s[..n] + [s[n]];
      assert ToSet(s) == ToSet(s[..n]) + {s[n]};
      assert s[n] !in s[..n];
    }
  }

  /** On deduplicated vectors the comparison is about sets: the common elements, and those in one set only. */
  lemma ComparisonOfSets(a: Features, b: Features)
    requires Sorted(a) && Sorted(b)
    ensures Common(Dedup(a), Dedup(b)) == |ToSet(a) * ToSet(b)|
    ensures Difference(Dedup(a), Dedup(b)) == |ToSet(a) - ToSet(b)| + |ToSet(b) - ToSet(a)|
  {
    hide Dedup, ToSet, SortedBy;
    DedupAsSet(a);
    DedupAsSet(b);
    SetsAsMultisets(ToSet(a), ToSet(b));
    SetsAsMultisets(ToSet(b), ToSet(a));
  }

  lemma DedupAsSet(a: Features)
    requires Sorted(a)
    ensures multiset(Dedup(a)) == multiset(ToSet(a))
  {
    DedupOfSorted(a);
    StrictlySortedIsSet(Dedup(a));
    hide Dedup;
    assert ToSet(Dedup(a)) == ToSet(a);
  }

  lemma SetsAsMultisets(x: set<nat>, y: set<nat>)
    ensures |multiset(x) * multiset(y)| == |x * y|
    ensures |multiset(x) - multiset(y)| == |x - y|
  {
    assert multiset(x) * multiset(y) == multiset(x * y);
    assert multiset(x) - multiset(y) == multiset(x - y);
    SetSize(x * y);
    SetSize(x - y);
  }

  lemma {:induction false} SetSize(s: set<nat>)
    ensures |multiset(s)| == |s|
  {
    if s != {} {
      var x :| x in s;
      SetSize(s - {x});
      assert multiset(s) == multiset(s - {x}) + multiset{x};
    }
  }
}
