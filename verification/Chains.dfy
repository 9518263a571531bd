/**
 Chains of tokens and their canonical hash text (class str_chain and mrf_hash_c, src/lsh/mrf.h and src/lsh/mrf.cpp).
 */
module Chains {
  import opened Sorting

  const SKIP: string := "<skip>"

  /** The value of a str_chain object. */
  datatype Chain = Chain(tokens: seq<string>, radius: int, skip: bool)

  /** Some token is a skip. */
  predicate HasSkip(tokens: seq<string>) {
    |tokens| > 0 && (tokens[|tokens| - 1] == SKIP || HasSkip(tokens[..|tokens| - 1]))
  }

  lemma {:induction false} HasSkipMeansContains(tokens: seq<string>)
    ensures HasSkip(tokens) <==> SKIP in tokens
  {
    if |tokens| > 0 {
      HasSkipMeansContains(tokens[..|tokens| - 1]);
    }
  }

  lemma HasSkipSnoc(tokens: seq<string>, t: string)
    ensures HasSkip(tokens + [t]) <==> HasSkip(tokens) || t == SKIP
  {
    assert (tokens + [t])[..|tokens|] == tokens;
  }

  function MakeChain(tokens: seq<string>, radius: int): (c: Chain) {
    Chain(tokens, radius, HasSkip(tokens))
  }

  /** std::string's operator<= : lexicographic, shorter first. */
  predicate AtMost(a: string, b: string) {
    |a| == 0 || (|b| > 0 && (a[0] < b[0] || (a[0] == b[0] && AtMost(a[1..], b[1..]))))
  }

  /** The order of a dictionary: the first difference decides, and a text comes before its continuations. */
  lemma {:induction false} DictionaryOrder(a: string, b: string)
    ensures AtMost(a, b) <==>
            exists i: nat :: && i <= |a| && i <= |b| && a[..i] == b[..i]
                             && (i == |a| || (i < |b| && a[i] < b[i]))
  {
    if |a| > 0 && |b| > 0 && a[0] == b[0] {
      DictionaryOrder(a[1..], b[1..]);
      if i: nat :| i <= |a| && i <= |b| && a[..i] == b[..i] && (i == |a| || (i < |b| && a[i] < b[i])) {
        assert a[1..][..i - 1] == a[..i][1..] && b[1..][..i - 1] == b[..i][1..];
      }
      if i: nat :| i < |a| && i < |b| && a[1..][..i] == b[1..][..i] && (i == |a| - 1 || (i < |b| - 1 && a[1..][i] < b[1..][i])) {
        assert a[..i + 1] == [a[0]] + a[1..][..i] && b[..i + 1] == [b[0]] + b[1..][..i];
      }
    } else {
      assert a[..0] == b[..0];
    }
  }

  lemma {:induction false} AtMostTotal(a: string, b: string)
    ensures AtMost(a, b) || AtMost(b, a)
    ensures AtMost(a, b) && AtMost(b, a) ==> a == b
  {
    if |a| > 0 && |b| > 0 {
      AtMostTotal(a[1..], b[1..]);
      assert a == [a[0]] + a[1..] && b == [b[0]] + b[1..];
    }
  }

  lemma {:induction false} AtMostTransitive(a: string, b: string, c: string)
    requires AtMost(a, b) && AtMost(b, c)
    ensures AtMost(a, c)
  {
    if |a| > 0 && a[0] == b[0] == c[0] {
      AtMostTransitive(a[1..], b[1..], c[1..]);
    }
  }

  lemma StringsAreOrdered()
    ensures TotalOrder(AtMost)
  {
    forall a: string, b: string
      ensures AtMost(a, b) || AtMost(b, a)
      ensures AtMost(a, b) && AtMost(b, a) ==> a == b
    {
      AtMostTotal(a, b);
    }
    forall a: string, b: string, c: string | AtMost(a, b) && AtMost(b, c)
      ensures AtMost(a, c)
    {
      AtMostTransitive(a, b, c);
    }
  }

  class StrChain {
    var chain: seq<string>
    var radius: int
    var skip: bool

    function Value(): (c: Chain)
      reads this
    {
      Chain(chain, radius, skip)
    }

    /** The flag means what has_skip's callers take it to mean: some token is a skip. */
    ghost predicate Valid()
      reads this
    {
      skip == (SKIP in chain)
    }

    constructor (str: string, radius: int)
      ensures Value() == MakeChain([str], radius)
    {
      HasSkipSnoc([], str);
      assert [] + [str] == [str];
      this.chain := [str];
      this.radius := radius;
      this.skip := str == SKIP;
    }

    constructor Copy(sc: StrChain)
      ensures Value() == sc.Value()
    {
      this.chain := sc.chain;
      this.radius := sc.radius;
      this.skip := sc.skip;
    }

    method AddToken(str: string)
      modifies this
      ensures Value() == Chain(old(chain) + [str], old(radius), old(skip) || str == SKIP)
      ensures old(Valid()) ==> Valid()
    {
      chain := chain + [str];
      if str == SKIP {
        skip := true;
      }
    }

    /** Whatever the flag was, scanning makes it right. */
    method CheckSkip()
      modifies this
      ensures Value() == MakeChain(old(chain), old(radius))
      ensures Valid()
    {
      HasSkipMeansContains(chain);
      var i := 0;
      while i < |chain|
        invariant 0 <= i <= |chain|
        invariant SKIP !in chain[..i]
        invariant chain == old(chain) && radius == old(radius)
      {
        if chain[i] == SKIP {
          skip := true;
          return;
        }
        i := i + 1;
      }
      skip := false;
    }

    /** An index past the end is ignored. */
    method RemoveToken(i: nat)
      requires Valid()
      modifies this
      ensures Valid() && radius == old(radius)
      ensures chain == if i < |old(chain)| then old(chain)[..i] + old(chain)[i + 1..] else old(chain)
    {
      if i >= |chain| {
        return;
      }
      if chain[i] == SKIP {
        skip := false;
      }
      ghost var gone := chain[i];
      ghost var before := chain;
      chain := chain[..i] + chain[i + 1..];
      assert forall t :: t in before <==> t in chain || t == gone by {
        assert before == before[..i] + [gone] + before[i + 1..];
      }
      if !skip {
        CheckSkip();
      }
    }

    method DecrRadius()
      modifies this
      ensures Value() == Chain(old(chain), old(radius) - 1, old(skip))
    {
      radius := radius - 1;
    }

    method RankAlpha() returns (r: StrChain)
      ensures fresh(r) && r.Value() == Chain(Sort(chain, AtMost), radius, skip)
    {
      r := new StrChain.Copy(this);
      r.chain := Sort(r.chain, AtMost);
    }
  }

  // ----- The canonical form -----

  /** Chains without a skip are ranked, the others keep their order. */
  function Ranked(c: Chain): (ts: seq<string>) {
    if c.skip then c.tokens else Sort(c.tokens, AtMost)
  }

  function Join(ts: seq<string>): (s: string) {
    if |ts| == 0 then "" else if |ts| == 1 then ts[0] else ts[0] + " " + Join(ts[1..])
  }

  lemma {:induction false} JoinSnoc(ts: seq<string>, t: string)
    ensures Join(ts + [t]) == if |ts| == 0 then t else Join(ts) + " " + t
  {
    if |ts| > 0 {
      JoinSnoc(ts[1..], t);
      assert (ts + [t])[1..] == ts[1..] + [t];
      if |ts| > 1 {
        assert Join(ts) == ts[0] + " " + Join(ts[1..]);
      }
    }
  }

  /** The text after i rounds of the loop below. */
  function TextSoFar(ts: seq<string>, i: nat): (s: string)
    requires i <= |ts|
  {
    Join(ts[..i]) + if 0 < i < |ts| then " " else ""
  }

  lemma TextGrows(ts: seq<string>, i: nat)
    requires i < |ts|
    ensures TextSoFar(ts, i + 1) == TextSoFar(ts, i) + ts[i] + if i != |ts| - 1 then " " else ""
  {
    assert Join(ts[..0]) == "";
    hide Join;
    assert ts[..i + 1] == ts[..i] + [ts[i]];
    JoinSnoc(ts[..i], ts[i]);
  }

  /** The text mrf_hash_c<f160r> hashes: the ranked tokens with single spaces between. */
  method CanonicalText(c: StrChain) returns (fchain: string)
    ensures fchain == Join(Ranked(c.Value()))
  {
    var cchain := new StrChain.Copy(c);
    if !c.skip {
      cchain := c.RankAlpha();
    }
    fchain := "";
    var ts := cchain.chain;
    var csize := |ts|;
    var i := 0;
    while i < csize
      invariant 0 <= i <= csize
      invariant fchain == TextSoFar(ts, i)
    {
      TextGrows(ts, i);
      fchain := fchain + ts[i];
      if i != csize - 1 {
        fchain := fchain + " ";
      }
      i := i + 1;
    }
    assert ts[..i] == ts;
  }

  /** Tokens as the tokenizer makes them when a space is among its delimiters. */
  predicate Wordy(ts: seq<string>) {
    forall i :: 0 <= i < |ts| ==> ts[i] != "" && ' ' !in ts[i]
  }

  function FirstSpace(s: string): (i: nat)
    ensures i <= |s|
  {
    if |s| == 0 || s[0] == ' ' then 0 else 1 + FirstSpace(s[1..])
  }

  lemma {:induction false} FirstSpaceAt(s: string, n: nat)
    requires n <= |s| && forall i :: 0 <= i < n ==> s[i] != ' '
    requires n == |s| || s[n] == ' '
    ensures FirstSpace(s) == n
  {
    if n > 0 {
      FirstSpaceAt(s[1..], n - 1);
    }
  }

  lemma FirstWord(a: seq<string>)
    requires Wordy(a) && |a| > 0
    ensures FirstSpace(Join(a)) == |a[0]| > 0 && Join(a)[..|a[0]|] == a[0]
    ensures |a| == 1 <==> |Join(a)| == |a[0]|
    ensures |a| > 1 ==> |Join(a)| > |a[0]| && Join(a)[|a[0]| + 1..] == Join(a[1..])
  {
    assert forall i :: 0 <= i < |a[0]| ==> Join(a)[i] == a[0][i] && a[0][i] in a[0];
    FirstSpaceAt(Join(a), |a[0]|);
  }

  /** The space-separated text of words determines the words. */
  lemma {:induction false} JoinInjective(a: seq<string>, b: seq<string>)
    requires Wordy(a) && Wordy(b) && Join(a) == Join(b)
    ensures a == b
  {
    if |a| > 0 {
      FirstWord(a);
    }
    if |b| > 0 {
      FirstWord(b);
    }
    if |a| > 1 {
      JoinInjective(a[1..], b[1..]);
      assert a == [a[0]] + a[1..] && b == [b[0]] + b[1..];
    }
  }

  /** Two chains share a hash text exactly when they are the same bag of tokens or, with skips, the same sequence. */
  lemma TextIsCanonical(a: Chain, b: Chain)
    requires a == MakeChain(a.tokens, a.radius) && b == MakeChain(b.tokens, b.radius)
    requires Wordy(a.tokens) && Wordy(b.tokens)
    ensures Join(Ranked(a)) == Join(Ranked(b)) <==>
            a.skip == b.skip && if a.skip then a.tokens == b.tokens else multiset(a.tokens) == multiset(b.tokens)
  {
    StringsAreOrdered();
    HasSkipMeansContains(a.tokens);
    HasSkipMeansContains(b.tokens);
    RankedSameBag(a);
    RankedSameBag(b);
    SortIsCanonical(a.tokens, b.tokens, AtMost);
    if Join(Ranked(a)) == Join(Ranked(b)) {
      JoinInjective(Ranked(a), Ranked(b));
    }
  }

  /** A chain with a skip keeps its tokens as they are, one without has them in dictionary order. */
  lemma RankedMeans(c: Chain)
    ensures c.skip ==> Ranked(c) == c.tokens
    ensures !c.skip ==> multiset(Ranked(c)) == multiset(c.tokens)
    ensures !c.skip ==> forall i, j :: 0 <= i < j < |Ranked(c)| ==> AtMost(Ranked(c)[i], Ranked(c)[j])
  {
    StringsAreOrdered();
    SortSorted(c.tokens, AtMost);
  }

  lemma RankedSameBag(c: Chain)
    ensures multiset(Ranked(c)) == multiset(c.tokens)
    ensures SKIP in Ranked(c) <==> SKIP in c.tokens
    ensures Wordy(c.tokens) ==> Wordy(Ranked(c))
  {
    assert forall t :: t in Ranked(c) <==> t in multiset(Ranked(c));
    assert forall t :: t in c.tokens <==> t in multiset(c.tokens);
    if Wordy(c.tokens) {
      forall i | 0 <= i < |Ranked(c)|
        ensures Ranked(c)[i] != "" && ' ' !in Ranked(c)[i]
      {
        assert Ranked(c)[i] in c.tokens;
      }
    }
  }

  // ----- The 32-bit hash -----

  const HCTABLE: seq<nat> := [1, 3, 5, 11, 23, 47, 97, 197, 397, 797]
  const SKIP_TOKEN_32: nat := 0xDEADBEEF
  const TWO_32: nat := 0x1_0000_0000

  function TokenHash(t: string, superFastHash: string -> nat): (h: nat) {
    if t == SKIP then SKIP_TOKEN_32 else superFastHash(t)
  }

  /** The weighted sum of the first n token hashes, modulo 2^32. */
  function WeightedSum(ts: seq<string>, n: nat, superFastHash: string -> nat): (h: nat)
    requires n <= |ts| && n <= |HCTABLE|
  {
    if n == 0 then 0
    else AddTerm(WeightedSum(ts, n - 1, superFastHash), TokenHash(ts[n - 1], superFastHash), n - 1)
  }

  /** h += hashed_token * hctable[i] on 32 bits. */
  function AddTerm(h: nat, hashedToken: nat, i: nat): (r: nat)
    requires i < |HCTABLE|
  {
    (h + hashedToken * HCTABLE[i]) % TWO_32
  }

  /** Each token adds its hash times the weight of its position, on 32 bits; a skip has a hash of its own. */
  lemma WeightedSumMeans(ts: seq<string>, n: nat, superFastHash: string -> nat)
    requires n < |ts| && n < 10
    ensures WeightedSum(ts, 0, superFastHash) == 0
    ensures WeightedSum(ts, n + 1, superFastHash)
         == (WeightedSum(ts, n, superFastHash)
             + (if ts[n] == "<skip>" then 3735928559 else superFastHash(ts[n]))
               * [1, 3, 5, 11, 23, 47, 97, 197, 397, 797][n]) % 4294967296
  {
  }

  function Min(a: int, b: int): int {
    if a <= b then a else b
  }

  /** mrf_hash_c<uint32_t>: only the first ten tokens count, the weight table has no more. */
  method HashChain32(c: StrChain, superFastHash: string -> nat) returns (h: nat)
    ensures var ts := Ranked(c.Value()); h == WeightedSum(ts, if |ts| < 10 then |ts| else 10, superFastHash)
  {
    var cchain := new StrChain.Copy(c);
    if !c.skip {
      cchain := c.RankAlpha();
    }
    h := 0;
    var ts := cchain.chain;
    var csize := Min(10, |ts|);
    for i := 0 to csize
      invariant h == WeightedSum(ts, i, superFastHash)
    {
      var token := ts[i];
      var hashedToken := SKIP_TOKEN_32;
      if token != SKIP {
        hashedToken := superFastHash(token);
      }
      h := AddTerm(h, hashedToken, i);
    }
  }

  function Hash32(c: Chain, superFastHash: string -> nat): (h: nat) {
    WeightedSum(Ranked(c), if |Ranked(c)| < 10 then |Ranked(c)| else 10, superFastHash)
  }

  /** Permuting a chain without skips does not change its hash. */
  lemma HashIgnoresOrder(a: Chain, b: Chain, superFastHash: string -> nat)
    requires !a.skip && !b.skip && multiset(a.tokens) == multiset(b.tokens)
    ensures Hash32(a, superFastHash) == Hash32(b, superFastHash)
  {
    StringsAreOrdered();
    SortIsCanonical(a.tokens, b.tokens, AtMost);
  }
}
