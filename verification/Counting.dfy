/**
 How often the elements occur in the buckets that a lookup finds: the counting in
 BucketOperations::LunionWithProbabilities (src/lsh/BucketOperations.h).
 */
module Counting {
  import opened Buckets
  import opened Index

  /** The number of sets that have x. */
  function Occurrences<T(==)>(ss: seq<set<T>>, x: T): (n: nat) {
    if |ss| == 0 then 0 else Occurrences(ss[..|ss| - 1], x) + if x in ss[|ss| - 1] then 1 else 0
  }

  function TotalSize<T>(ss: seq<set<T>>): (n: nat) {
    if |ss| == 0 then 0 else TotalSize(ss[..|ss| - 1]) + |ss[|ss| - 1]|
  }

  lemma {:induction false} OccursInUnion<T>(ss: seq<set<T>>, x: T)
    ensures Occurrences(ss, x) > 0 <==> x in UnionOf(ss)
  {
    if |ss| > 0 {
      OccursInUnion(ss[..|ss| - 1], x);
    }
  }

  /** The counts for the buckets before, and for the part of one more bucket that is done. */
  ghost predicate Counted<T>(counts: map<T, nat>, before: seq<set<T>>, done: set<T>) {
    && (forall x :: x in counts ==> x in UnionOf(before) || x in done)
    && (forall x :: x in UnionOf(before) ==> x in counts)
    && (forall x :: x in done ==> x in counts)
    && (forall x :: x in counts ==> counts[x] == Occurrences(before, x) + if x in done then 1 else 0)
  }

  lemma NothingCounted<T>()
    ensures Counted<T>(map[], [], {})
  {
  }

  lemma CountOne<T>(counts: map<T, nat>, before: seq<set<T>>, done: set<T>, x: T)
    requires Counted(counts, before, done) && x !in done
    ensures Counted(counts[x := if x in counts then counts[x] + 1 else 1], before, done + {x})
  {
    OccursInUnion(before, x);
  }

  lemma BucketCounted<T>(counts: map<T, nat>, before: seq<set<T>>, chain: set<T>)
    requires Counted(counts, before, chain)
    ensures Counted(counts, before + [chain], {})
  {
    var after := before + [chain];
    assert after[..|after| - 1] == before;
    forall x | x in counts
      ensures Occurrences(after, x) == Occurrences(before, x) + if x in chain then 1 else 0
    {
    }
  }

  /** The elements of one bucket, in whatever order. */
  method CountBucket<T(==)>(chain: set<T>, known: map<T, nat>, ghost before: seq<set<T>>)
    returns (counts: map<T, nat>, steps: nat)
    requires Counted(known, before, {})
    ensures Counted(counts, before + [chain], {}) && steps == |chain|
  {
    hide Counted;
    counts, steps := known, 0;
    var rest := chain;
    ghost var done: set<T> := {};
    while rest != {}
      invariant Counted(counts, before, done) && steps + |rest| == |chain|
      invariant forall x :: x in rest ==> x !in done
      invariant forall x :: x in chain <==> x in done || x in rest
      decreases |rest|
    {
      var x :| x in rest;
      CountOne(counts, before, done, x);
      steps := steps + 1;
      if x in counts {
        counts := counts[x := counts[x] + 1];
      } else {
        counts := counts[x := 1];
      }
      done, rest := done + {x}, rest - {x};
    }
    assert done == chain;
    BucketCounted(counts, before, chain);
  }

  /** Every element of the buckets is counted once for each bucket it is in; total is the number of steps. */
  method CountElements<T(==)>(vec: seq<Bucket<T>>, ghost ss: seq<set<T>>) returns (counts: map<T, nat>, total: nat)
    requires |vec| == |ss| && forall i :: 0 <= i < |vec| ==> vec[i].chain == ss[i]
    ensures forall x :: x in counts <==> x in UnionOf(ss)
    ensures forall x :: x in counts ==> counts[x] == Occurrences(ss, x)
    ensures total == TotalSize(ss)
  {
    counts, total := map[], 0;
    NothingCounted<T>();
    for i := 0 to |vec|
      invariant total == TotalSize(ss[..i]) && Counted(counts, ss[..i], {})
    {
      hide Counted, UnionOf, Occurrences;
      assert ss[..i + 1] == ss[..i] + [ss[i]] && ss[..i + 1][..i] == ss[..i];
      var steps;
      counts, steps := CountBucket(vec[i].chain, counts, ss[..i]);
      total := total + steps;
    }
    assert ss[..|ss|] == ss;
  }

  // ----- The counts add up, so that dividing by the total gives probabilities -----

  ghost function SumOver<T>(s: set<T>, ss: seq<set<T>>): (n: nat) {
    if s == {} then 0
    else
      var x :| x in s;
      Occurrences(ss, x) + SumOver(s - {x}, ss)
  }

  lemma {:induction false} SumPick<T>(s: set<T>, ss: seq<set<T>>, x: T)
    requires x in s
    ensures SumOver(s, ss) == Occurrences(ss, x) + SumOver(s - {x}, ss)
  {
    var y :| y in s && SumOver(s, ss) == Occurrences(ss, y) + SumOver(s - {y}, ss);
    if x != y {
      SumPick(s - {y}, ss, x);
      SumPick(s - {x}, ss, y);
      assert s - {y} - {x} == s - {x} - {y};
    }
  }

  lemma LastSet<T>(ss: seq<set<T>>, x: T)
    requires |ss| > 0
    ensures Occurrences(ss, x) == Occurrences(ss[..|ss| - 1], x) + if x in ss[|ss| - 1] then 1 else 0
  {
  }

  lemma {:induction false} OneMoreSet<T>(s: set<T>, ss: seq<set<T>>)
    requires |ss| > 0
    ensures SumOver(s, ss) == SumOver(s, ss[..|ss| - 1]) + |s * ss[|ss| - 1]|
  {
    hide Occurrences;
    if s != {} {
      var x :| x in s;
      var t := ss[|ss| - 1];
      LastSet(ss, x);
      SumPick(s, ss, x);
      SumPick(s, ss[..|ss| - 1], x);
      OneMoreSet(s - {x}, ss);
      CommonWithout(s, t, x);
    }
  }

  lemma CommonWithout<T>(s: set<T>, t: set<T>, x: T)
    requires x in s
    ensures |s * t| == |(s - {x}) * t| + if x in t then 1 else 0
  {
    if x in t {
      assert (s - {x}) * t == s * t - {x};
    } else {
      assert (s - {x}) * t == s * t;
    }
  }

  lemma {:induction false} NoSets<T>(s: set<T>)
    ensures SumOver(s, []) == 0
  {
    if s != {} {
      var none: seq<set<T>> := [];
      var x :| x in s;
      SumPick(s, none, x);
      NoSets(s - {x});
    }
  }

  lemma {:induction false} CountsAddUp<T>(s: set<T>, ss: seq<set<T>>)
    requires forall i :: 0 <= i < |ss| ==> ss[i] <= s
    ensures SumOver(s, ss) == TotalSize(ss)
  {
    if |ss| == 0 {
      NoSets(s);
      assert ss == [];
    } else {
      var n := |ss| - 1;
      CountsAddUp(s, ss[..n]);
      OneMoreSet(s, ss);
      assert s * ss[n] == ss[n];
    }
  }
}
