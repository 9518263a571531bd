/**
 The hashes of a query (mrf_features_query, src/lsh/mrf.h, and src/lsh/qprocess.cpp): every suffix of the token list is
 expanded as a window, each feature becomes a key filed under its radius, and long queries are cut to radius zero.
 RIPEMD-160 is a parameter.
 */
module Query {
  import opened Binary
  import opened Chains
  import opened Masks
  import opened Mrf
  import opened Tokenizer
  import opened KeyText
  import RingKey

  const WINDOW_LENGTH: nat := 5
  const LONG_QUERY: nat := 14

  /** A 160-bit feature: the digest of a chain's text, and the chain's radius. */
  datatype Feature160 = Feature160(digest: seq<Byte>, radius: int)

  /** The smaller of the number of tokens and the default, as ints: 2^31 as an int is negative, so it stays. */
  function QueryWindow(n: nat, windowLengthDefault: Window): (w: Window) {
    if n <= windowLengthDefault < 0x8000_0000 then n else windowLengthDefault
  }

  /** The features of a token list, then of its tail, and so on; the window length stays that of the whole list. */
  function QueryFeatures<F>(tokens: seq<string>, b: Bounds, feat: Chain -> F): (fs: seq<F>)
    requires b.window <= 0x8000_0000
  {
    if |tokens| == 0 then [] else WindowFeatures(tokens, b, feat) + QueryFeatures(tokens[1..], b, feat)
  }

  lemma QueryStep<F>(out: seq<F>, tokens: seq<string>, b: Bounds, feat: Chain -> F)
    requires b.window <= 0x8000_0000 && |tokens| > 0
    ensures out + QueryFeatures(tokens, b, feat)
         == (out + WindowFeatures(tokens, b, feat)) + QueryFeatures(tokens[1..], b, feat)
  {
  }

  method MrfFeaturesQuery<F>(str: string, features: seq<F>, minRadius: int, maxRadius: int, delims: string,
                             windowLengthDefault: Window, feat: Chain -> F)
    returns (out: seq<F>)
    ensures var ts := Tokens(str, delims);
            var w := QueryWindow(|ts|, windowLengthDefault);
            out == features + QueryFeatures(ts, Bounds(minRadius, maxRadius, w), feat)
  {
    var tokens := Tokenize(str, [], delims);
    var b := Bounds(minRadius, maxRadius, QueryWindow(|tokens|, windowLengthDefault));
    out := features;
    ghost var all := tokens;
    assert tokens == Tokens(str, delims);
    while |tokens| > 0
      invariant features + QueryFeatures(all, b, feat) == out + QueryFeatures(tokens, b, feat)
      decreases |tokens|
    {
      QueryStep(out, tokens, b, feat);
      out := MrfBuild(tokens, out, b, feat);
      tokens := tokens[1..];
    }
  }

  // ----- How many features a query has -----

  /** At most 2^(w-1) for each suffix of at least w tokens, and half as many for each token less. */
  lemma {:induction false} SuffixCount<F>(tokens: seq<string>, b: Bounds, feat: Chain -> F)
    requires 0 < b.window <= 0x8000_0000
    ensures |tokens| <= b.window ==> |QueryFeatures(tokens, b, feat)| <= Pow2(|tokens|) - 1
    ensures |tokens| >= b.window ==>
              |QueryFeatures(tokens, b, feat)| <= (|tokens| - b.window + 2) * Pow2(b.window - 1) - 1
  {
    if |tokens| > 0 {
      SuffixCount(tokens[1..], b, feat);
      EmittedBound(Span(|tokens|, b.window), b);
      var n, w, p := |tokens|, b.window, Pow2(b.window - 1);
      if n > w {
        assert (n - w + 2) * p == (n - 1 - w + 2) * p + p;
      }
    }
  }

  /** Exactly so many when the bounds admit every radius. */
  lemma {:induction false} SuffixCountAll<F>(tokens: seq<string>, b: Bounds, feat: Chain -> F)
    requires 0 < b.window <= 0x8000_0000 && b.minRadius <= 0 && b.window - 1 <= b.maxRadius
    ensures |tokens| <= b.window ==> |QueryFeatures(tokens, b, feat)| == Pow2(|tokens|) - 1
    ensures |tokens| >= b.window ==>
              |QueryFeatures(tokens, b, feat)| == (|tokens| - b.window + 2) * Pow2(b.window - 1) - 1
  {
    hide WindowFeatures;
    if |tokens| > 0 {
      SuffixCountAll(tokens[1..], b, feat);
      WindowCount(tokens, b, feat);
      var n, w, p := |tokens|, b.window, Pow2(b.window - 1);
      if n > w {
        assert (n - w + 2) * p == (n - 1 - w + 2) * p + p;
      }
    }
  }

  lemma SmallPowers()
    ensures Pow2(0) == 1 && Pow2(1) == 2 && Pow2(2) == 4 && Pow2(3) == 8 && Pow2(4) == 16
  {
  }

  /**
   A query of n tokens has at most (n - w + 2) * 2^(w-1) - 1 features, w the smaller of n and the default: at most 175 for
   the default of five and up to 14 tokens.
   */
  lemma QueryCount<F>(tokens: seq<string>, minRadius: int, maxRadius: int, windowLengthDefault: Window, feat: Chain -> F)
    requires |tokens| > 0 && 0 < windowLengthDefault < 0x8000_0000
    ensures var w := QueryWindow(|tokens|, windowLengthDefault);
            var fs := QueryFeatures(tokens, Bounds(minRadius, maxRadius, w), feat);
            && |fs| <= (|tokens| - w + 2) * Pow2(w - 1) - 1
            && (windowLengthDefault == 5 && |tokens| <= 14 ==> |fs| <= 175)
  {
    var n, w := |tokens|, QueryWindow(|tokens|, windowLengthDefault);
    hide QueryFeatures, Pow2;
    SuffixCount(tokens, Bounds(minRadius, maxRadius, w), feat);
    if n <= LONG_QUERY && windowLengthDefault == WINDOW_LENGTH {
      AtMost175(n, w);
    }
  }

  lemma AtMost175(n: nat, w: nat)
    requires 0 < w <= n <= LONG_QUERY && w <= WINDOW_LENGTH && (w < WINDOW_LENGTH ==> n == w)
    ensures (n - w + 2) * Pow2(w - 1) - 1 <= 175
  {
    SmallPowers();
    hide Pow2;
    if w < WINDOW_LENGTH {
      assert n - w + 2 == 2;
    }
  }

  /** The feature of one full window at radius zero: the chain of its tokens. */
  function FullWindowFeature<F>(tokens: seq<string>, window: nat, feat: Chain -> F): (f: F)
    requires 0 < window <= |tokens|
  {
    feat(MakeChain(tokens[..window], 0))
  }

  lemma {:induction false} RenderAllTokens(tokens: seq<string>, n: nat)
    requires n <= |tokens|
    ensures RenderTokens(AllTokens(n), tokens) == tokens[..n] && Count(AllTokens(n)) == n
  {
    TruesAll(AllTokens(n));
    forall i | 0 <= i < n
      ensures RenderTokens(AllTokens(n), tokens)[i] == tokens[i]
    {
      RenderTokensAt(AllTokens(n), tokens, i);
    }
  }

  /** At radius zero a window has the feature of its tokens if it is full, else none. */
  lemma ZeroRadiusWindow<F>(tokens: seq<string>, window: Window, feat: Chain -> F)
    requires window > 0 && |tokens| > 0
    ensures WindowFeatures(tokens, Bounds(0, 0, window), feat)
         == if |tokens| < window then [] else [FullWindowFeature(tokens, window, feat)]
  {
    ZeroRadiusEmitsOnce(Span(|tokens|, window), Bounds(0, 0, window));
    if |tokens| >= window {
      RenderAllTokens(tokens, window);
    }
  }

  /** At radius zero a query has exactly one feature for each position where a full window starts. */
  lemma {:induction false} ZeroRadiusFeatures<F>(tokens: seq<string>, window: Window, feat: Chain -> F)
    requires window > 0
    ensures var fs := QueryFeatures(tokens, Bounds(0, 0, window), feat);
            && |fs| == (if |tokens| < window then 0 else |tokens| - window + 1)
            && forall i :: 0 <= i < |fs| ==> fs[i] == FullWindowFeature(tokens[i..], window, feat)
  {
    hide WindowFeatures, FullWindowFeature;
    if |tokens| > 0 {
      ZeroRadiusFeatures(tokens[1..], window, feat);
      ZeroRadiusWindow(tokens, window, feat);
      var rest := QueryFeatures(tokens[1..], Bounds(0, 0, window), feat);
      assert tokens[0..] == tokens;
      forall i | 0 <= i < |rest|
        ensures rest[i] == FullWindowFeature(tokens[i + 1..], window, feat)
      {
        assert tokens[1..][i..] == tokens[i + 1..];
      }
    }
  }

  // ----- The keys of a query -----

  /** What hash_multimap<uint32_t, DHTKey> holds: keys filed under their radius. */
  type KeyBag = multiset<(nat, RingKey.Key)>

  /** The C++ conversion of an int radius to the uint32_t it is filed under. */
  function FiledUnder(radius: int): (r: nat) {
    radius % 0x1_0000_0000
  }

  function Filed(f: Feature160): (entry: (nat, RingKey.Key)) {
    (FiledUnder(f.radius), KeyOfHash(f.digest))
  }

  function FileAll(fs: seq<Feature160>): (m: KeyBag)
    ensures |m| == |fs|
  {
    if |fs| == 0 then multiset{} else FileAll(fs[..|fs| - 1]) + multiset{Filed(fs[|fs| - 1])}
  }

  /** mrf_hash_c<f160r>, with the digest as a parameter. */
  function Hasher(rmd: string -> seq<Byte>): (feat: Chain -> Feature160) {
    (c: Chain) => Feature160(rmd(Join(Ranked(c))), c.radius)
  }

  /** A digest is filed as its number, under its radius; a radius below zero counts down from 2^32. */
  lemma FiledMeans(f: Feature160)
    requires -0x8000_0000 <= f.radius < 0x8000_0000
    ensures Filed(f).0 == if f.radius >= 0 then f.radius else f.radius + 0x1_0000_0000
    ensures |Filed(f).1| == 8 * |f.digest| && Val(Filed(f).1) == Number(f.digest, 8)
  {
    NumberBound(f.digest, 8);
  }

  /** What is hashed is the chain's text: its tokens, sorted if it has no skip, with single spaces between. */
  lemma HasherMeans(c: Chain, rmd: string -> seq<Byte>)
    ensures Hasher(rmd)(c).radius == c.radius
    ensures c.skip ==> Hasher(rmd)(c).digest == rmd(Join(c.tokens))
    ensures !c.skip ==> exists ts :: && multiset(ts) == multiset(c.tokens)
                                     && (forall i, j :: 0 <= i < j < |ts| ==> AtMost(ts[i], ts[j]))
                                     && Hasher(rmd)(c).digest == rmd(Join(ts))
  {
    RankedMeans(c);
  }

  lemma FileAllPrefix(fs: seq<Feature160>, i: nat)
    requires i < |fs|
    ensures FileAll(fs[..i + 1]) == FileAll(fs[..i]) + multiset{Filed(fs[i])}
  {
    assert fs[..i + 1][..i] == fs[..i];
  }

  /** The loop of mrf_query_160: each digest becomes a key filed under its radius. */
  method FileFeatures(charFeatures: seq<Feature160>, features: KeyBag) returns (out: KeyBag)
    ensures out == features + FileAll(charFeatures)
  {
    out := features;
    var n := |charFeatures|;
    for i := 0 to n
      invariant out == features + FileAll(charFeatures[..i])
    {
      FileAllPrefix(charFeatures, i);
      var key := Convert(charFeatures[i].digest);
      assert Filed(charFeatures[i]) == (FiledUnder(charFeatures[i].radius), key);
      out := out + multiset{(FiledUnder(charFeatures[i].radius), key)};
    }
    assert charFeatures[..n] == charFeatures;
  }

  method MrfQuery160(query: string, features: KeyBag, minRadius: int, maxRadius: int, delims: string,
                     rmd: string -> seq<Byte>)
    returns (out: KeyBag)
    ensures var ts := Tokens(query, delims);
            var b := Bounds(minRadius, maxRadius, QueryWindow(|ts|, WINDOW_LENGTH));
            out == features + FileAll(QueryFeatures(ts, b, Hasher(rmd)))
  {
    var none: seq<Feature160> := [];
    var charFeatures := MrfFeaturesQuery(query, none, minRadius, maxRadius, delims, WINDOW_LENGTH, Hasher(rmd));
    assert charFeatures == QueryFeatures(Tokens(query, delims),
                                         Bounds(minRadius, maxRadius, QueryWindow(|Tokens(query, delims)|, WINDOW_LENGTH)),
                                         Hasher(rmd));
    out := FileFeatures(charFeatures, features);
  }

  /** The largest radius after the protection against long queries. */
  function ProtectedRadius(maxRadius: int, n: nat, protection: bool): (r: int) {
    if protection && n > LONG_QUERY then 0 else maxRadius
  }

  /** The hashes of one compiled query. */
  function QueryHashes(query: string, minRadius: int, maxRadius: int, protection: bool, delims: string,
                       rmd: string -> seq<Byte>): (m: KeyBag)
  {
    var ts := Tokens(query, delims);
    var b := Bounds(minRadius, ProtectedRadius(maxRadius, |ts|, protection), QueryWindow(|ts|, WINDOW_LENGTH));
    FileAll(QueryFeatures(ts, b, Hasher(rmd)))
  }

  function AllHashes(queries: seq<string>, minRadius: int, maxRadius: int, protection: bool, delims: string,
                     rmd: string -> seq<Byte>): (m: KeyBag)
  {
    if |queries| == 0 then multiset{}
    else
      var n := |queries| - 1;
      AllHashes(queries[..n], minRadius, maxRadius, protection, delims, rmd)
      + QueryHashes(queries[n], minRadius, maxRadius, protection, delims, rmd)
  }

  /** One round of generate_query_hashes: with the protection on, a long query is hashed at radius zero only. */
  method HashOneQuery(query: string, minRadius: int, maxRadius: int, protection: bool, delims: string,
                      rmd: string -> seq<Byte>, features: KeyBag)
    returns (out: KeyBag)
    ensures out == features + QueryHashes(query, minRadius, maxRadius, protection, delims, rmd)
  {
    var cMaxRadius := maxRadius;
    if protection {
      var tokens := Tokenize(query, [], delims);
      assert tokens == Tokens(query, delims);
      if |tokens| > LONG_QUERY {
        cMaxRadius := 0;
      }
    }
    out := MrfQuery160(query, features, minRadius, cMaxRadius, delims, rmd);
  }

  lemma AllHashesPrefix(queries: seq<string>, i: nat, minRadius: int, maxRadius: int, protection: bool, delims: string,
                        rmd: string -> seq<Byte>)
    requires i < |queries|
    ensures AllHashes(queries[..0], minRadius, maxRadius, protection, delims, rmd) == multiset{}
    ensures AllHashes(queries[..i + 1], minRadius, maxRadius, protection, delims, rmd)
         == AllHashes(queries[..i], minRadius, maxRadius, protection, delims, rmd)
            + QueryHashes(queries[i], minRadius, maxRadius, protection, delims, rmd)
  {
    hide QueryHashes;
    assert queries[..i + 1][..i] == queries[..i];
  }

  /** generate_query_hashes over the queries that compile_query produced. */
  method GenerateQueryHashes(queries: seq<string>, minRadius: int, maxRadius: int, protection: bool, delims: string,
                             rmd: string -> seq<Byte>, features: KeyBag)
    returns (out: KeyBag)
    ensures out == features + AllHashes(queries, minRadius, maxRadius, protection, delims, rmd)
  {
    hide QueryHashes;
    out := features;
    for i := 0 to |queries|
      invariant out == features + AllHashes(queries[..i], minRadius, maxRadius, protection, delims, rmd)
    {
      AllHashesPrefix(queries, i, minRadius, maxRadius, protection, delims, rmd);
      out := HashOneQuery(queries[i], minRadius, maxRadius, protection, delims, rmd, out);
    }
    assert queries[..|queries|] == queries;
  }

  /** Up to 14 tokens a query has at most 175 hashes; a longer one, protected, has one for each full window, radius 0. */
  lemma HashesOfQuery(query: string, minRadius: int, maxRadius: int, protection: bool, delims: string,
                      rmd: string -> seq<Byte>)
    ensures var n := |Tokens(query, delims)|;
            var m := QueryHashes(query, minRadius, maxRadius, protection, delims, rmd);
            && (n <= 14 ==> |m| <= 175)
            && (n > 14 && protection && minRadius == 0 ==>
                  |m| == n - 4 && forall r, k :: (r, k) in m ==> r == 0)
  {
    var ts := Tokens(query, delims);
    var n, w := |ts|, QueryWindow(|ts|, WINDOW_LENGTH);
    var feat := Hasher(rmd);
    if 0 < n <= LONG_QUERY {
      QueryCount(ts, minRadius, ProtectedRadius(maxRadius, n, protection), WINDOW_LENGTH, feat);
    } else if n > LONG_QUERY && protection && minRadius == 0 {
      ZeroRadiusHashes(ts, w, rmd);
    }
  }

  /** At radius zero only, a query of up to five tokens has one hash, a longer one a hash for each full window. */
  lemma HashesAtZero(query: string, protection: bool, delims: string, rmd: string -> seq<Byte>)
    ensures var n := |Tokens(query, delims)|;
            var m := QueryHashes(query, 0, 0, protection, delims, rmd);
            && |m| == (if n == 0 then 0 else if n <= 5 then 1 else n - 4)
            && forall r, k :: (r, k) in m ==> r == 0
  {
    hide Tokens, QueryFeatures, FileAll;
    var ts := Tokens(query, delims);
    var w := QueryWindow(|ts|, WINDOW_LENGTH);
    var feat := Hasher(rmd);
    if |ts| > 0 {
      ZeroRadiusHashes(ts, w, rmd);
    } else {
      NoFeatures(ts, Bounds(0, 0, w), feat);
      FiledAtZero(QueryFeatures(ts, Bounds(0, 0, w), feat));
    }
  }

  lemma ZeroRadiusHashes(ts: seq<string>, w: Window, rmd: string -> seq<Byte>)
    requires 0 < w <= |ts|
    ensures var fs := QueryFeatures(ts, Bounds(0, 0, w), Hasher(rmd));
            |fs| == |ts| - w + 1 && forall r, k :: (r, k) in FileAll(fs) ==> r == 0
  {
    hide QueryFeatures, FileAll;
    var feat := Hasher(rmd);
    var fs := QueryFeatures(ts, Bounds(0, 0, w), feat);
    ZeroRadiusFeatures(ts, w, feat);
    forall i | 0 <= i < |fs|
      ensures fs[i].radius == 0
    {
      assert fs[i] == feat(MakeChain(ts[i..][..w], 0));
    }
    FiledAtZero(fs);
  }

  /** With every radius admitted and no protection at work, the number of hashes is exact. */
  lemma HashesOfAllRadii(query: string, minRadius: int, maxRadius: int, protection: bool, delims: string,
                         rmd: string -> seq<Byte>)
    requires minRadius <= 0 && 4 <= maxRadius && (|Tokens(query, delims)| <= 14 || !protection)
    ensures var n := |Tokens(query, delims)|;
            |QueryHashes(query, minRadius, maxRadius, protection, delims, rmd)|
            == if n == 0 then 0 else if n == 1 then 1 else if n == 2 then 3 else if n == 3 then 7 else if n == 4 then 15
               else 16 * (n - 3) - 1
  {
    hide Tokens, QueryFeatures, Hasher, Pow2;
    var ts := Tokens(query, delims);
    var n, w := |ts|, QueryWindow(|ts|, WINDOW_LENGTH);
    if n > 0 {
      SuffixCountAll(ts, Bounds(minRadius, maxRadius, w), Hasher(rmd));
      AllRadiiCount(n, w);
    } else {
      NoFeatures(ts, Bounds(minRadius, maxRadius, w), Hasher(rmd));
    }
  }

  lemma NoFeatures<F>(tokens: seq<string>, b: Bounds, feat: Chain -> F)
    requires b.window <= 0x8000_0000 && |tokens| == 0
    ensures |QueryFeatures(tokens, b, feat)| == 0
  {
  }

  lemma AllRadiiCount(n: nat, w: nat)
    requires 0 < w <= n && w <= WINDOW_LENGTH && (w < WINDOW_LENGTH ==> n == w)
    ensures (n - w + 2) * Pow2(w - 1) - 1
         == if n == 1 then 1 else if n == 2 then 3 else if n == 3 then 7 else if n == 4 then 15 else 16 * (n - 3) - 1
  {
    SmallPowers();
    hide Pow2;
    if w < WINDOW_LENGTH {
      assert n - w + 2 == 2;
    }
  }

  lemma {:induction false} FiledAtZero(fs: seq<Feature160>)
    requires forall i :: 0 <= i < |fs| ==> fs[i].radius == 0
    ensures forall r, k :: (r, k) in FileAll(fs) ==> r == 0
  {
    if |fs| > 0 {
      FiledAtZero(fs[..|fs| - 1]);
    }
  }
}
