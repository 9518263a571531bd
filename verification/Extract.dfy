/**
 The two feature extractors of src/lsh/mrf.cpp: mrf_features walks a whole token list, tokenize_and_mrf_features keeps
 only a window of tokens while it reads the text. When do they agree?
 */
module Extract {
  import opened Sorting
  import opened Chains
  import opened Masks
  import opened Mrf
  import opened Tokenizer

  type Int32 = x: int | -0x8000_0000 <= x <= 0x7fff_ffff

  function Drop<T>(s: seq<T>, step: nat): (r: seq<T>) {
    if |s| > step then s[step..] else []
  }

  function Features(tokens: seq<string>, maxRadius: int, window: Window, feat: Chain -> nat): (fs: seq<nat>) {
    WindowFeatures(tokens, Bounds(0, maxRadius, window), feat)
  }

  /** The features of a window are those of the chains with a radius from 0 to the largest, one for each subset. */
  lemma FeaturesMean(tokens: seq<string>, maxRadius: int, window: Window, feat: Chain -> nat)
    returns (sel: seq<set<nat>>, chains: seq<Chain>)
    requires |tokens| > 0
    ensures |sel| == |chains| == |Features(tokens, maxRadius, window, feat)|
    ensures forall i :: 0 <= i < |sel| ==>
              Features(tokens, maxRadius, window, feat)[i] == feat(chains[i]) && IsChainAt(chains[i], tokens, window, sel[i])
    ensures forall i, j :: 0 <= i < j < |sel| ==> sel[i] != sel[j]
    ensures forall s: set<nat> :: s in sel <==>
              && 0 in s && (forall p :: p in s ==> p < |tokens| && (p < window || p == window == 0))
              && 0 <= window - |s| <= maxRadius
  {
    hide WindowFeatures;
    sel, chains := WindowSelections(tokens, Bounds(0, maxRadius, window), feat);
  }

  // ----- The batch extractor -----

  /** The features of a list: those of its first window, and those of the list without the tokens of one step. */
  lemma BatchMeans(tokens: seq<string>, maxRadius: int, step: nat, window: Window, feat: Chain -> nat)
    requires step > 0
    ensures |tokens| == 0 ==> Batch(tokens, maxRadius, step, window, feat) == []
    ensures |tokens| > 0 ==>
              Batch(tokens, maxRadius, step, window, feat)
              == Features(tokens, maxRadius, window, feat)
                 + Batch(tokens[if step < |tokens| then step else |tokens|..], maxRadius, step, window, feat)
  {
    if 0 < |tokens| <= step {
      assert tokens[|tokens|..] == [];
    }
  }

  /** The features of the windows at positions 0, step, 2 * step, ... */
  function Batch(tokens: seq<string>, maxRadius: int, step: nat, window: Window, feat: Chain -> nat): (fs: seq<nat>)
    requires step > 0
    decreases |tokens|
  {
    if |tokens| == 0 then []
    else Features(tokens, maxRadius, window, feat) + Batch(Drop(tokens, step), maxRadius, step, window, feat)
  }

  /** mrf_features; with a step below one the loop would not end. */
  method BatchFeatures(tokens: seq<string>, features: seq<nat>, maxRadius: int, step: nat, window: Window,
                       feat: Chain -> nat)
    returns (out: seq<nat>)
    requires step > 0
    ensures out == Sort(features + Batch(tokens, maxRadius, step, window, feat), NatAtMost)
  {
    var rest := tokens;
    out := features;
    while |rest| > 0
      invariant features + Batch(tokens, maxRadius, step, window, feat)
             == out + Batch(rest, maxRadius, step, window, feat)
      decreases |rest|
    {
      BatchStep(out, rest, maxRadius, step, window, feat);
      out := MrfBuild(rest, out, Bounds(0, maxRadius, window), feat);
      if |rest| > step {
        rest := rest[step..];
      } else {
        rest := [];
      }
    }
    assert out + [] == out;
    out := Sort(out, NatAtMost);
  }

  lemma BatchStep(out: seq<nat>, rest: seq<string>, maxRadius: int, step: nat, window: Window, feat: Chain -> nat)
    requires step > 0 && |rest| > 0
    ensures out + Batch(rest, maxRadius, step, window, feat)
         == (out + Features(rest, maxRadius, window, feat)) + Batch(Drop(rest, step), maxRadius, step, window, feat)
  {
  }

  // ----- The streaming extractor -----

  function Prefix<T>(s: seq<T>, n: nat): (r: seq<T>) {
    if |s| <= n then s else s[..n]
  }

  /** window_length_default - max_radius in 32-bit unsigned arithmetic. */
  function Threshold(maxRadius: Int32, window: Window): (t: nat) {
    (window - maxRadius) % 0x1_0000_0000
  }

  /** The features of the text whose unconsumed tokens are ts, buffered or not yet read. */
  function Stream(ts: seq<string>, maxRadius: Int32, step: nat, window: Window, feat: Chain -> nat): (fs: seq<nat>)
    requires step > 0
    decreases |ts|
  {
    var buffer := Prefix(ts, window);
    if |buffer| == 0 || |buffer| < Threshold(maxRadius, window) then []
    else
      Features(buffer, maxRadius, window, feat)
      + Stream(Drop(buffer, step) + ts[|buffer|..], maxRadius, step, window, feat)
  }

  lemma StreamStep(out: seq<nat>, ts: seq<string>, maxRadius: Int32, step: nat, window: Window, feat: Chain -> nat)
    requires step > 0
    ensures var buffer := Prefix(ts, window);
            out + Stream(ts, maxRadius, step, window, feat)
            == if |buffer| == 0 || |buffer| < Threshold(maxRadius, window) then out
               else (out + Features(buffer, maxRadius, window, feat))
                    + Stream(Drop(buffer, step) + ts[|buffer|..], maxRadius, step, window, feat)
  {
  }

  /**
   The windows the streaming extractor sees: as many tokens as the window holds, if there are any and no fewer than window
   less largest radius, on 32 bits without a sign; then a step of what is buffered is dropped and the buffer filled again.
   */
  lemma StreamMeans(ts: seq<string>, maxRadius: Int32, step: nat, window: Window, feat: Chain -> nat)
    requires step > 0
    ensures var n := if |ts| < window then |ts| else window;
            Stream(ts, maxRadius, step, window, feat)
            == if n == 0 || n < (window - maxRadius) % 0x1_0000_0000 then []
               else Features(ts[..n], maxRadius, window, feat)
                    + Stream(if step < n then ts[step..] else ts[n..], maxRadius, step, window, feat)
  {
    hide Stream, Features;
    var buffer := Prefix(ts, window);
    KeptTokens(ts, step, window);
    StreamStep([], ts, maxRadius, step, window, feat);
    assert [] + Stream(ts, maxRadius, step, window, feat) == Stream(ts, maxRadius, step, window, feat);
    assert [] + Features(buffer, maxRadius, window, feat) == Features(buffer, maxRadius, window, feat);
  }

  lemma KeptTokens(ts: seq<string>, step: nat, window: Window)
    ensures var n := if |ts| < window then |ts| else window;
            && Prefix(ts, window) == ts[..n]
            && Drop(ts[..n], step) + ts[n..] == if step < n then ts[step..] else ts[n..]
  {
  }

  /** tokenize_and_mrf_features */
  method StreamFeatures(str: string, delim: string, features: seq<nat>, maxRadius: Int32, step: nat, window: Window,
                        feat: Chain -> nat)
    returns (out: seq<nat>)
    requires step > 0
    ensures out == Sort(features + Stream(Tokens(str, delim), maxRadius, step, window, feat), NatAtMost)
  {
    var lastPos := FindFirstNotOf(str, delim, At(0));
    var pos := FindFirstOf(str, delim, lastPos);
    var tokens := [];
    out := features;
    ghost var first := true;
    assert Drop(tokens, step) + TokensFrom(str, delim, lastPos) == Tokens(str, delim);
    while true
      invariant StartsToken(str, delim, lastPos) && pos == FindFirstOf(str, delim, lastPos)
      invariant (first || |tokens| > 0) && |tokens| <= window
      invariant features + Stream(Tokens(str, delim), maxRadius, step, window, feat)
             == out + Stream(Drop(tokens, step) + TokensFrom(str, delim, lastPos), maxRadius, step, window, feat)
      decreases first, |tokens| + |TokensFrom(str, delim, lastPos)|
    {
      ghost var left := Drop(tokens, step) + TokensFrom(str, delim, lastPos);
      if |tokens| > step {
        tokens := tokens[step..];
      } else {
        tokens := [];
      }
      while (pos != NPos || lastPos != NPos) && |tokens| < window
        invariant StartsToken(str, delim, lastPos) && pos == FindFirstOf(str, delim, lastPos)
        invariant left == tokens + TokensFrom(str, delim, lastPos)
        invariant |tokens| <= window
        decreases if lastPos.At? then |str| - lastPos.i else 0
      {
        TokensStep(tokens, str, delim, lastPos);
        tokens := tokens + [Substr(str, lastPos.i, pos)];
        lastPos := FindFirstNotOf(str, delim, pos);
        pos := FindFirstOf(str, delim, lastPos);
      }
      assert tokens == Prefix(left, window) && TokensFrom(str, delim, lastPos) == left[|tokens|..];
      StreamStep(out, left, maxRadius, step, window, feat);
      if |tokens| == 0 || |tokens| < Threshold(maxRadius, window) {
        break;
      }
      out := MrfBuild(tokens, out, Bounds(0, maxRadius, window), feat);
      first := false;
    }
    out := Sort(out, NatAtMost);
  }

  // ----- When the two agree -----

  /** The parameters a caller must choose for the streaming extractor to miss nothing and repeat nothing. */
  predicate Compatible(maxRadius: int, step: nat, window: nat) {
    window == 0 || maxRadius < 0 || (maxRadius <= window && step <= window)
  }

  /** Windows of n tokens or fewer have no feature of radius between 0 and maxRadius. */
  predicate Barren(n: nat, maxRadius: int, window: nat) {
    window == 0 || maxRadius < 0 || n < window - maxRadius
  }

  lemma FeaturesOfBarren(ts: seq<string>, maxRadius: int, window: Window, feat: Chain -> nat)
    requires |ts| > 0 && Barren(|ts|, maxRadius, window)
    ensures Features(ts, maxRadius, window, feat) == []
  {
    NothingEmitted(Span(|ts|, window), Bounds(0, maxRadius, window));
  }

  lemma {:induction false} BatchOfBarren(ts: seq<string>, maxRadius: int, step: nat, window: Window,
                                         feat: Chain -> nat)
    requires step > 0 && Barren(|ts|, maxRadius, window)
    ensures Batch(ts, maxRadius, step, window, feat) == []
    decreases |ts|
  {
    if |ts| > 0 {
      FeaturesOfBarren(ts, maxRadius, window, feat);
      BatchOfBarren(Drop(ts, step), maxRadius, step, window, feat);
    }
  }

  lemma {:induction false} StreamOfNegativeRadius(ts: seq<string>, maxRadius: Int32, step: nat, window: Window,
                                                  feat: Chain -> nat)
    requires step > 0 && maxRadius < 0
    ensures Stream(ts, maxRadius, step, window, feat) == []
    decreases |ts|
  {
    var buffer := Prefix(ts, window);
    if |buffer| > 0 {
      FeaturesOfBarren(buffer, maxRadius, window, feat);
      StreamOfNegativeRadius(Drop(buffer, step) + ts[|buffer|..], maxRadius, step, window, feat);
    }
  }

  /** The windows the streaming extractor sees are the batch windows, and where it stops early nothing is left. */
  lemma {:induction false} StreamIsBatch(ts: seq<string>, maxRadius: Int32, step: nat, window: Window,
                                         feat: Chain -> nat)
    requires step > 0 && Compatible(maxRadius, step, window)
    ensures Stream(ts, maxRadius, step, window, feat) == Batch(ts, maxRadius, step, window, feat)
    decreases |ts|
  {
    var buffer := Prefix(ts, window);
    if window == 0 || maxRadius < 0 {
      BatchOfBarren(ts, maxRadius, step, window, feat);
      if window > 0 {
        StreamOfNegativeRadius(ts, maxRadius, step, window, feat);
      }
    } else if |ts| > 0 {
      assert Threshold(maxRadius, window) == window - maxRadius;
      if |buffer| < window - maxRadius {
        BatchOfBarren(ts, maxRadius, step, window, feat);
      } else {
        assert Drop(buffer, step) + ts[|buffer|..] == Drop(ts, step);
        WindowIsPrefix(ts, |buffer|, Bounds(0, maxRadius, window), feat);
        assert ts[..|buffer|] == buffer;
        StreamIsBatch(Drop(ts, step), maxRadius, step, window, feat);
      }
    }
  }

  function Repeat(t: string, n: nat): (ts: seq<string>)
    ensures |ts| == n && forall i :: 0 <= i < n ==> ts[i] == t
  {
    seq(n, i => t)
  }

  /** A token list on which incompatible parameters give a different number of features. */
  function Witness(t: string, maxRadius: int, window: nat): (ts: seq<string>) {
    if maxRadius > window then [t] else Repeat(t, 2 * window)
  }

  /** A largest radius above the window wraps around to a threshold no window reaches. */
  lemma WideRadiusStopsAtOnce(t: string, maxRadius: Int32, step: nat, window: Window, feat: Chain -> nat)
    requires step > 0 && maxRadius > window > 0
    ensures Stream([t], maxRadius, step, window, feat) == []
    ensures |Batch([t], maxRadius, step, window, feat)| > 0
  {
    assert Threshold(maxRadius, window) == window - maxRadius + 0x1_0000_0000;
    var b := Bounds(0, maxRadius, window);
    var x := AllTokens(1);
    EmittedOnce(1, b, x);
    assert x in multiset(Emitted(1, b));
  }

  /** A step beyond the window skips tokens the buffer never dropped. */
  lemma LongStepSkips(t: string, maxRadius: Int32, step: nat, window: Window, feat: Chain -> nat)
    requires 0 <= maxRadius <= window < step && window > 0
    ensures var ts := Repeat(t, 2 * window);
            |Stream(ts, maxRadius, step, window, feat)| > |Batch(ts, maxRadius, step, window, feat)|
  {
    var ts, b := Repeat(t, 2 * window), Bounds(0, maxRadius, window);
    var e := |Emitted(window, b)|;
    var half := ts[window..];
    assert Threshold(maxRadius, window) == window - maxRadius;
    assert Drop(Prefix(ts, window), step) + half == half;
    assert Drop(Prefix(half, window), step) + half[window..] == [];
    assert |Stream(half, maxRadius, step, window, feat)| == e;
    assert |Stream(ts, maxRadius, step, window, feat)| == 2 * e;
    var rest := Drop(ts, step);
    assert Drop(rest, step) == [];
    FullWindowEmitsMore(|rest|, b);
    assert |Batch(rest, maxRadius, step, window, feat)| < e;
  }

  /**
   The streaming extractor gives the sorted feature vector of tokenizing first and extracting then, for every text,
   exactly when the parameters are compatible. The separator and letter only serve to write the differing text.
   */
  lemma ExtractorsAgree(delim: string, letter: char, maxRadius: Int32, step: nat, window: Window, feat: Chain -> nat)
    requires step > 0 && ' ' in delim && letter !in delim
    ensures Compatible(maxRadius, step, window) <==>
            forall str: string ::
              Sort(Stream(Tokens(str, delim), maxRadius, step, window, feat), NatAtMost)
              == Sort(Batch(Tokens(str, delim), maxRadius, step, window, feat), NatAtMost)
  {
    if Compatible(maxRadius, step, window) {
      forall str: string
        ensures Stream(Tokens(str, delim), maxRadius, step, window, feat)
             == Batch(Tokens(str, delim), maxRadius, step, window, feat)
      {
        StreamIsBatch(Tokens(str, delim), maxRadius, step, window, feat);
      }
    } else {
      var ts := Witness([letter], maxRadius, window);
      var str := Join(ts);
      TokensOfJoin(ts, delim);
      if maxRadius > window {
        WideRadiusStopsAtOnce([letter], maxRadius, step, window, feat);
      } else {
        LongStepSkips([letter], maxRadius, step, window, feat);
      }
      assert |Sort(Stream(Tokens(str, delim), maxRadius, step, window, feat), NatAtMost)|
          != |Sort(Batch(Tokens(str, delim), maxRadius, step, window, feat), NatAtMost)|;
    }
  }
}
