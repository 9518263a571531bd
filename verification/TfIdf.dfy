/**
 The tf-idf pass over bags of features (mrf::compute_tf_idf, src/lsh/mrf.cpp). It rewrites the bags one after the other,
 in place, while it still needs the document frequencies of the bags it was given. Weights are reals here, and the
 logarithm is any function that is zero at one and positive above.
 */
module TfIdf {
  type Weights = map<nat, real>

  /** One bag of weighted features: the source passes a vector of pointers to such maps. */
  class Bag {
    var weights: Weights

    constructor (weights: Weights)
      ensures this.weights == weights
    {
      this.weights := weights;
    }
  }

  ghost predicate Holds(bags: seq<Bag>, c: seq<Weights>)
    reads bags
  {
    |bags| == |c| && forall i :: 0 <= i < |c| ==> bags[i].weights == c[i]
  }

  ghost function Contents(bags: seq<Bag>): (c: seq<Weights>)
    reads bags
    ensures Holds(bags, c)
  {
    seq(|bags|, i requires 0 <= i < |bags| reads bags => bags[i].weights)
  }

  ghost predicate Distinct(bags: seq<Bag>) {
    forall i, j :: 0 <= i < j < |bags| ==> bags[i] != bags[j]
  }

  predicate Present(w: Weights, f: nat) {
    f in w && w[f] != 0.0
  }

  /** The bags among the first n in which the feature has a weight. */
  function Having(c: seq<Weights>, f: nat, n: nat): (s: set<nat>)
    requires n <= |c|
  {
    set i: nat | i < n && Present(c[i], f)
  }

  /** Document frequency. */
  function Df(c: seq<Weights>, f: nat): (n: nat)
    ensures n <= |c|
  {
    HavingAtMost(c, f, |c|);
    |Having(c, f, |c|)|
  }

  lemma HavingStep(c: seq<Weights>, f: nat, n: nat)
    requires n < |c|
    ensures |Having(c, f, n + 1)| == |Having(c, f, n)| + (if Present(c[n], f) then 1 else 0)
  {
    assert Having(c, f, n + 1) == Having(c, f, n) + (if Present(c[n], f) then {n} else {});
  }

  lemma {:induction false} HavingAtMost(c: seq<Weights>, f: nat, n: nat)
    requires n <= |c|
    ensures |Having(c, f, n)| <= n
    ensures |Having(c, f, n)| == n <==> forall i :: 0 <= i < n ==> Present(c[i], f)
  {
    if n > 0 {
      HavingAtMost(c, f, n - 1);
      HavingStep(c, f, n - 1);
    }
  }

  /** Every feature of every bag has a weight somewhere; so it is when all weights are positive. */
  ghost predicate Weighted(c: seq<Weights>) {
    forall i, f :: 0 <= i < |c| && f in c[i] ==> Df(c, f) > 0
  }

  lemma PositiveIsWeighted(c: seq<Weights>)
    requires forall i, f :: 0 <= i < |c| && f in c[i] ==> c[i][f] > 0.0
    ensures Weighted(c)
  {
    forall i, f | 0 <= i < |c| && f in c[i]
      ensures Df(c, f) > 0
    {
      assert i in Having(c, f, |c|);
    }
  }

  function Idf(c: seq<Weights>, f: nat, log: real -> real): (r: real)
    requires Df(c, f) > 0
  {
    log(Ratio(|c|, Df(c, f)))
  }

  function Ratio(n: nat, d: nat): (r: real)
    requires d > 0
  {
    n as real / d as real
  }

  function Weigh(weight: real, idf: real): (r: real) {
    weight * idf
  }

  /** Weight by inverse document frequency, both of the bags c. */
  ghost function Rated(c: seq<Weights>, i: nat, log: real -> real): (r: Weights)
    requires i < |c| && Weighted(c)
  {
    map f | f in c[i] :: Weigh(c[i][f], Idf(c, f, log))
  }

  lemma RatedAt(c: seq<Weights>, i: nat, log: real -> real, f: nat)
    requires i < |c| && Weighted(c) && f in c[i]
    ensures Df(c, f) > 0 && f in Rated(c, i, log)
    ensures Rated(c, i, log)[f] == Weigh(c[i][f], log(Ratio(|c|, Df(c, f))))
  {
  }

  lemma RatedKeys(c: seq<Weights>, i: nat, log: real -> real)
    requires i < |c| && Weighted(c)
    ensures Rated(c, i, log).Keys == c[i].Keys
  {
  }

  // ----- Sums over the features of a bag, in whatever order -----

  ghost function Sum(s: set<nat>, w: Weights): (r: real)
    requires s <= w.Keys
  {
    if s == {} then 0.0
    else
      var f :| f in s;
      w[f] + Sum(s - {f}, w)
  }

  lemma {:induction false} SumPick(s: set<nat>, w: Weights, f: nat)
    requires s <= w.Keys && f in s
    ensures Sum(s, w) == w[f] + Sum(s - {f}, w)
  {
    var g :| g in s && Sum(s, w) == w[g] + Sum(s - {g}, w);
    if f != g {
      SumPick(s - {g}, w, f);
      SumPick(s - {f}, w, g);
      assert s - {g} - {f} == s - {f} - {g};
    }
  }

  ghost function Total(w: Weights): (r: real) {
    Sum(w.Keys, w)
  }

  /** Divided by their sum, unless that is zero. */
  ghost function Normalised(w: Weights): (r: Weights) {
    if Total(w) == 0.0 then w else map f | f in w :: w[f] / Total(w)
  }

  // ----- The pass -----

  type Cache = map<nat, nat>

  ghost predicate Right(cache: Cache, c: seq<Weights>) {
    forall f :: f in cache ==> cache[f] == Df(c, f)
  }

  /** What is cached is right, and all features of the first n bags are cached. */
  ghost predicate Covers(cache: Cache, c: seq<Weights>, n: nat)
    requires n <= |c|
  {
    Right(cache, c) && forall i :: 0 <= i < n ==> c[i].Keys <= cache.Keys
  }

  /** Counting in the bags as they are now is right for a feature that no rewritten weight belongs to. */
  method CountDf(bags: seq<Bag>, f: nat, ghost c: seq<Weights>) returns (df: nat)
    requires |bags| == |c| && forall j :: 0 <= j < |c| ==> Present(bags[j].weights, f) == Present(c[j], f)
    ensures df == Df(c, f)
  {
    df := 0;
    for j := 0 to |bags|
      invariant df == |Having(c, f, j)|
    {
      HavingStep(c, f, j);
      if f in bags[j].weights && bags[j].weights[f] != 0.0 {
        df := df + 1;
      }
    }
  }

  method FindDf(bags: seq<Bag>, f: nat, known: Cache, ghost c: seq<Weights>) returns (df: nat, cache: Cache)
    requires Right(known, c) && |bags| == |c|
    requires f !in known ==> forall j :: 0 <= j < |c| ==> Present(bags[j].weights, f) == Present(c[j], f)
    ensures df == Df(c, f) && Right(cache, c) && cache.Keys == known.Keys + {f}
  {
    hide Df;
    cache := known;
    if f in cache {
      df := cache[f];
    } else {
      df := CountDf(bags, f, c);
      cache := cache[f := df];
    }
  }

  /** The bags before i are rewritten, with the same features; the others are as they were. */
  ghost predicate Upto(bags: seq<Bag>, c: seq<Weights>, i: nat)
    reads bags
  {
    && |bags| == |c|
    && (forall j :: 0 <= j < |c| && j < i ==> bags[j].weights.Keys == c[j].Keys)
    && (forall j :: i <= j < |c| ==> bags[j].weights == c[j])
  }

  /** A bag in the making: rest is still to be rated. */
  ghost predicate Partly(now: Weights, before: Weights, after: Weights, rest: set<nat>) {
    && rest <= before.Keys == now.Keys == after.Keys
    && forall f :: f in before ==> now[f] == if f in rest then before[f] else after[f]
  }

  lemma PartlyStep(now: Weights, before: Weights, after: Weights, rest: set<nat>, f: nat)
    requires Partly(now, before, after, rest) && f in rest
    ensures f in now && now[f] == before[f]
    ensures f in after && Partly(now[f := after[f]], before, after, rest - {f})
  {
  }

  ghost predicate Splits(done: set<nat>, rest: set<nat>, all: set<nat>) {
    done !! rest && done + rest == all
  }

  lemma SplitsAll(all: set<nat>)
    ensures Splits({}, all, all)
  {
  }

  lemma SplitsNone(done: set<nat>, all: set<nat>)
    requires Splits(done, {}, all)
    ensures done == all
  {
  }

  lemma MoveOne(done: set<nat>, rest: set<nat>, all: set<nat>, f: nat)
    requires Splits(done, rest, all) && f in rest
    ensures Splits(done + {f}, rest - {f}, all)
    ensures done + {f} - {f} == done && done + {f} <= all
  {
  }

  lemma PartlyNone(before: Weights, after: Weights)
    requires before.Keys == after.Keys
    ensures Partly(before, before, after, before.Keys)
  {
  }

  lemma PartlyAll(now: Weights, before: Weights, after: Weights)
    requires Partly(now, before, after, {})
    ensures now == after
  {
  }

  lemma NotRewritten(bags: seq<Bag>, c: seq<Weights>, i: nat, cache: Cache, rated: Weights, rest: set<nat>, f: nat)
    requires i < |bags| == |c| && Partly(bags[i].weights, c[i], rated, rest)
    requires forall j :: 0 <= j < i ==> bags[j].weights.Keys == c[j].Keys
    requires forall j :: i < j < |c| ==> bags[j].weights == c[j]
    requires Covers(cache, c, i) && f in rest && f !in cache
    ensures forall j :: 0 <= j < |c| ==> Present(bags[j].weights, f) == Present(c[j], f)
  {
    hide Right;
    forall j | 0 <= j < |c|
      ensures Present(bags[j].weights, f) == Present(c[j], f)
    {
      if j < i {
        assert c[j].Keys <= cache.Keys;
      }
    }
  }

  method RateBag(bags: seq<Bag>, i: nat, known: Cache, log: real -> real, ghost c: seq<Weights>)
    returns (norm: real, cache: Cache)
    requires i < |bags| && Distinct(bags) && Weighted(c) && Upto(bags, c, i) && Covers(known, c, i)
    modifies bags[i]
    ensures bags[i].weights == Rated(c, i, log) && norm == Total(bags[i].weights)
    ensures Covers(cache, c, i + 1)
  {
    hide Df, Sum, Rated, Weigh, Present, Right, Weighted, Ratio, Partly, Total, Splits;
    ghost var rated := Rated(c, i, log);
    RatedKeys(c, i, log);
    var rest := bags[i].weights.Keys;
    ghost var done: set<nat> := {};
    norm, cache := 0.0, known;
    PartlyNone(c[i], rated);
    SplitsAll(rest);
    NoSum(rated);
    while rest != {}
      invariant Partly(bags[i].weights, c[i], rated, rest)
      invariant Splits(done, rest, c[i].Keys) && done <= rated.Keys == c[i].Keys && rest <= c[i].Keys
      invariant Covers(cache, c, i) && done <= cache.Keys
      invariant norm == Sum(done, rated)
      decreases |rest|
    {
      var f :| f in rest;
      if f !in cache {
        NotRewritten(bags, c, i, cache, rated, rest, f);
      }
      RatedAt(c, i, log, f);
      PartlyStep(bags[i].weights, c[i], rated, rest, f);
      var df;
      df, cache := FindDf(bags, f, cache, c);
      var idf := log(Ratio(|bags|, df));
      bags[i].weights := bags[i].weights[f := Weigh(bags[i].weights[f], idf)];
      norm := norm + bags[i].weights[f];
      MoveOne(done, rest, c[i].Keys, f);
      SumPick(done + {f}, rated, f);
      done, rest := done + {f}, rest - {f};
    }
    SplitsNone(done, c[i].Keys);
    PartlyAll(bags[i].weights, c[i], rated);
    TotalIsSum(rated);
  }

  lemma NoSum(w: Weights)
    ensures Sum({}, w) == 0.0
  {
  }

  lemma TotalIsSum(w: Weights)
    ensures Total(w) == Sum(w.Keys, w)
  {
  }

  method NormaliseBag(bag: Bag, norm: real)
    requires norm == Total(bag.weights) != 0.0
    modifies bag
    ensures bag.weights == Normalised(old(bag.weights))
  {
    ghost var w := bag.weights;
    var rest := bag.weights.Keys;
    while rest != {}
      invariant rest <= w.Keys == bag.weights.Keys
      invariant forall f :: f in w ==> bag.weights[f] == if f in rest then w[f] else w[f] / norm
      decreases |rest|
    {
      var f :| f in rest;
      bag.weights := bag.weights[f := bag.weights[f] / norm];
      rest := rest - {f};
    }
    assert bag.weights == Normalised(w);
  }

  lemma NothingCached(c: seq<Weights>)
    ensures Covers(map[], c, 0)
  {
  }

  lemma NormalisedKeys(w: Weights)
    ensures Normalised(w).Keys == w.Keys
    ensures Total(w) == 0.0 ==> Normalised(w) == w
  {
  }

  /** The whole pass: every bag ends as its own weights by the idf of the bags that were passed in, normalised. */
  method ComputeTfIdf(bags: seq<Bag>, log: real -> real)
    requires Distinct(bags) && Weighted(Contents(bags))
    modifies bags
    ensures forall i :: 0 <= i < |bags| ==> bags[i].weights == Normalised(Rated(old(Contents(bags)), i, log))
  {
    hide Df, Sum, Rated, Normalised, Present, Right, Weighted, Total, Covers;
    ghost var c := Contents(bags);
    NothingCached(c);
    var cache: Cache := map[];
    for i := 0 to |bags|
      invariant Upto(bags, c, i) && Covers(cache, c, i)
      invariant forall j :: 0 <= j < i ==> bags[j].weights == Normalised(Rated(c, j, log))
    {
      var norm;
      RatedKeys(c, i, log);
      norm, cache := RateBag(bags, i, cache, log, c);
      NormalisedKeys(Rated(c, i, log));
      if norm != 0.0 {
        NormaliseBag(bags[i], norm);
      }
    }
  }

  // ----- What the weights are worth -----

  ghost predicate IsLog(log: real -> real) {
    log(1.0) == 0.0 && forall x :: x > 1.0 ==> log(x) > 0.0
  }

  ghost predicate Positive(w: Weights) {
    forall f :: f in w ==> w[f] > 0.0
  }

  ghost predicate NonNegative(w: Weights) {
    forall f :: f in w ==> w[f] >= 0.0
  }

  lemma {:induction false} SumOfNonNegative(s: set<nat>, w: Weights)
    requires s <= w.Keys && NonNegative(w)
    ensures Sum(s, w) >= 0.0
    ensures Sum(s, w) == 0.0 <==> forall f :: f in s ==> w[f] == 0.0
  {
    if s != {} {
      var f :| f in s && Sum(s, w) == w[f] + Sum(s - {f}, w);
      SumOfNonNegative(s - {f}, w);
      assert forall g :: g in s <==> g == f || g in s - {f};
    }
  }

  lemma Quotients(x: real, y: real, norm: real)
    requires norm != 0.0
    ensures (x + y) / norm == x / norm + y / norm
  {
  }

  lemma {:induction false} SumScales(s: set<nat>, w: Weights, v: Weights, norm: real)
    requires s <= w.Keys == v.Keys && norm != 0.0 && forall f :: f in w ==> v[f] == w[f] / norm
    ensures Sum(s, v) == Sum(s, w) / norm
  {
    if s != {} {
      var f :| f in s;
      SumPick(s, w, f);
      SumPick(s, v, f);
      SumScales(s - {f}, w, v, norm);
      hide Sum;
      Quotients(w[f], Sum(s - {f}, w), norm);
    }
  }

  /** Idf is positive, except for a feature of every bag, where it is zero. */
  lemma IdfSign(c: seq<Weights>, f: nat, log: real -> real)
    requires IsLog(log) && Df(c, f) > 0
    ensures Idf(c, f, log) >= 0.0
    ensures Idf(c, f, log) == 0.0 <==> forall i :: 0 <= i < |c| ==> Present(c[i], f)
  {
    HavingAtMost(c, f, |c|);
    hide Df;
    RatioAboveOne(|c|, Df(c, f));
  }

  lemma RatioAboveOne(n: nat, d: nat)
    requires n >= d > 0
    ensures n == d ==> Ratio(n, d) == 1.0
    ensures n > d ==> Ratio(n, d) > 1.0
  {
    var q := Ratio(n, d);
    assert q * d as real == n as real;
    if q <= 1.0 {
      assert (1.0 - q) * d as real >= 0.0;
    }
  }

  /** With positive weights a rewritten bag either sums to one, or is all zero; the latter exactly when each of its
      features is in every bag. */
  lemma RatedSumsToOne(c: seq<Weights>, i: nat, log: real -> real)
    requires IsLog(log) && i < |c| && Weighted(c) && forall j :: 0 <= j < |c| ==> Positive(c[j])
    ensures NonNegative(Normalised(Rated(c, i, log)))
    ensures if forall f :: f in c[i] ==> InAll(c, f)
            then forall f :: f in c[i] ==> Normalised(Rated(c, i, log))[f] == 0.0
            else Total(Normalised(Rated(c, i, log))) == 1.0
  {
    hide Sum, Df, Weigh, Idf;
    var w := Rated(c, i, log);
    forall f | f in w
      ensures w[f] >= 0.0 && (w[f] == 0.0 <==> InAll(c, f))
    {
      RatedSign(c, i, log, f);
    }
    SumOfNonNegative(w.Keys, w);
    if Total(w) != 0.0 {
      SumsToOne(w);
    }
  }

  lemma RatedSign(c: seq<Weights>, i: nat, log: real -> real, f: nat)
    requires IsLog(log) && i < |c| && Weighted(c) && f in c[i] && forall j :: 0 <= j < |c| ==> Positive(c[j])
    ensures Rated(c, i, log)[f] >= 0.0
    ensures Rated(c, i, log)[f] == 0.0 <==> InAll(c, f)
  {
    IdfSign(c, f, log);
    hide Df, Idf;
    Product(c[i][f], Idf(c, f, log));
  }

  lemma Product(weight: real, idf: real)
    requires weight > 0.0 && idf >= 0.0
    ensures Weigh(weight, idf) >= 0.0
    ensures Weigh(weight, idf) == 0.0 <==> idf == 0.0
  {
  }

  lemma SumsToOne(w: Weights)
    requires NonNegative(w) && Total(w) > 0.0
    ensures NonNegative(Normalised(w)) && Total(Normalised(w)) == 1.0
  {
    hide Sum;
    var v := Normalised(w);
    assert Total(w) / Total(w) == 1.0;
    SumScales(w.Keys, w, v, Total(w));
    assert v.Keys == w.Keys;
    forall f | f in v
      ensures v[f] >= 0.0
    {
      SignOfQuotient(w[f], Total(w));
    }
  }

  lemma SignOfQuotient(x: real, y: real)
    requires x >= 0.0 && y > 0.0
    ensures x / y >= 0.0
  {
  }

  lemma ProductAt(c: seq<Weights>, i: nat, log: real -> real, f: nat)
    requires i < |c| && Weighted(c) && f in c[i]
    ensures Df(c, f) > 0 && f in Rated(c, i, log)
    ensures Rated(c, i, log)[f] == c[i][f] * log((|c| as real) / (Df(c, f) as real))
  {
    hide Df, Rated;
    RatedAt(c, i, log, f);
  }

  /**
   The weights themselves: each is the original one by the logarithm of the number of bags over the document frequency,
   divided by the sum of all these in the bag, unless that is zero.
   */
  lemma WeightsAreProducts(c: seq<Weights>, i: nat, log: real -> real, products: Weights, f: nat)
    requires i < |c| && Weighted(c) && f in c[i] && products.Keys == c[i].Keys
    requires forall h :: h in c[i] ==> products[h] == c[i][h] * log((|c| as real) / (Df(c, h) as real))
    ensures Df(c, f) == |set j: nat | j < |c| && f in c[j] && c[j][f] != 0.0|
    ensures var final, sum := Normalised(Rated(c, i, log)), Sum(c[i].Keys, products);
            && final.Keys == c[i].Keys
            && if sum == 0.0 then final[f] == products[f] else final[f] * sum == products[f]
  {
    DfMeans(c, f);
    hide Df, Normalised, Rated, Sum, Total;
    RatedIsProducts(c, i, log, products);
    NormalisedAt(products, f);
    TotalIsSum(products);
  }

  lemma DfMeans(c: seq<Weights>, f: nat)
    ensures Df(c, f) == |set j: nat | j < |c| && f in c[j] && c[j][f] != 0.0|
  {
    assert (set j: nat | j < |c| && f in c[j] && c[j][f] != 0.0) == Having(c, f, |c|);
  }

  /** The sum over a bag adds one feature after the other, in any order. */
  lemma SumMeans(s: set<nat>, w: Weights, f: nat)
    requires s <= w.Keys && f in s
    ensures Sum({}, w) == 0.0 && Sum(s, w) == w[f] + Sum(s - {f}, w)
  {
    SumPick(s, w, f);
  }

  lemma RatedIsProducts(c: seq<Weights>, i: nat, log: real -> real, products: Weights)
    requires i < |c| && Weighted(c) && products.Keys == c[i].Keys
    requires forall h :: h in c[i] ==> products[h] == c[i][h] * log((|c| as real) / (Df(c, h) as real))
    ensures Rated(c, i, log) == products
  {
    hide Df, Rated;
    RatedKeys(c, i, log);
    forall h | h in c[i]
      ensures Rated(c, i, log)[h] == products[h]
    {
      ProductAt(c, i, log, h);
    }
  }

  lemma NormalisedAt(w: Weights, f: nat)
    requires f in w
    ensures Normalised(w).Keys == w.Keys
    ensures if Total(w) == 0.0 then Normalised(w)[f] == w[f] else Normalised(w)[f] * Total(w) == w[f]
  {
    hide Total;
    NormalisedKeys(w);
  }

  /** Two features of one bag with the same document frequency keep the proportion of their weights. */
  lemma ProportionKept(c: seq<Weights>, i: nat, log: real -> real, f: nat, h: nat)
    requires i < |c| && Weighted(c) && f in c[i] && h in c[i] && Df(c, f) == Df(c, h)
    ensures var final := Normalised(Rated(c, i, log));
            f in final && h in final && final[f] * c[i][h] == final[h] * c[i][f]
  {
    hide Rated, Df, Normalised, Total;
    var rated := Rated(c, i, log);
    RatedKeys(c, i, log);
    ProductAt(c, i, log, f);
    ProductAt(c, i, log, h);
    NormalisedAt(rated, f);
    NormalisedAt(rated, h);
    var factor := if Total(rated) == 0.0 then 1.0 else Total(rated);
    Proportion(Normalised(rated)[f], Normalised(rated)[h], c[i][f], c[i][h],
               log((|c| as real) / (Df(c, f) as real)), factor);
  }

  lemma Proportion(a: real, b: real, x: real, y: real, idf: real, total: real)
    requires total != 0.0 && a * total == x * idf && b * total == y * idf
    ensures a * y == b * x
  {
    assert (a * y) * total == (a * total) * y;
    assert (b * x) * total == (b * total) * x;
    assert (a * y - b * x) * total == 0.0;
  }

  ghost predicate InAll(c: seq<Weights>, f: nat) {
    forall j :: 0 <= j < |c| ==> f in c[j]
  }

  /** Counting again after the first bag is rewritten gives another answer: without the cache the pass would be wrong. */
  lemma RecountDiffers(log: real -> real)
    requires IsLog(log)
    ensures var c := [map[7 := 1.0], map[7 := 1.0]];
            Weighted(c) && Df(c, 7) == 2 && Df([Normalised(Rated(c, 0, log)), c[1]], 7) == 1
  {
    hide Rated, Normalised, Weighted;
    var c: seq<Weights> := [map[7 := 1.0], map[7 := 1.0]];
    PositiveIsWeighted(c);
    HavingAtMost(c, 7, 2);
    RatedSumsToOne(c, 0, log);
    assert Present(c[0], 7) && Present(c[1], 7) && InAll(c, 7);
    var d := [Normalised(Rated(c, 0, log)), c[1]];
    HavingStep(d, 7, 1);
    HavingStep(d, 7, 0);
    assert Having(d, 7, 0) == {};
  }
}
