/**
 Window features (mrf::mrf_build, src/lsh/mrf.h): the breadth-first expansion of a token window into chains of tokens
 and skips. The hash of a chain is a parameter.
 */
module Mrf {
  import opened Chains
  import opened Binary
  import opened Masks

  /** A window length for which the radius window_length - 1 fits an int; 0 gives the radius -1. */
  type Window = x: int | 0 <= x <= 0x8000_0000

  /** Tokens where the mask is set, skips elsewhere. */
  function RenderTokens(x: Mask, tokens: seq<string>): (ts: seq<string>)
    ensures |ts| == |x|
  {
    if |x| == 0 then []
    else
      var n := |x| - 1;
      RenderTokens(x[..n], tokens) + [if x[n] && n < |tokens| then tokens[n] else SKIP]
  }

  lemma {:induction false} RenderTokensAt(x: Mask, tokens: seq<string>, i: nat)
    requires i < |x| <= |tokens|
    ensures RenderTokens(x, tokens)[i] == if x[i] then tokens[i] else SKIP
  {
    if i < |x| - 1 {
      RenderTokensAt(x[..|x| - 1], tokens, i);
    }
  }

  /** The chain a mask stands for; each token after the first costs one step of radius. */
  function Render(x: Mask, tokens: seq<string>, window: Window): (c: Chain) {
    MakeChain(RenderTokens(x, tokens), window - Count(x))
  }

  function RenderAll<F>(xs: seq<Mask>, tokens: seq<string>, window: Window, feat: Chain -> F): (fs: seq<F>)
    ensures |fs| == |xs|
    ensures forall i :: 0 <= i < |xs| ==> fs[i] == feat(Render(xs[i], tokens, window))
  {
    seq(|xs|, i requires 0 <= i < |xs| => feat(Render(xs[i], tokens, window)))
  }

  /** How many positions of the window chains may use: a window length of zero still starts one chain. */
  function Span(count: nat, window: Window): (m: nat) {
    if window == 0 then 1 else if count <= window then count else window
  }

  /** The features of one window: one for each emitted mask, in order. */
  function WindowFeatures<F>(tokens: seq<string>, b: Bounds, feat: Chain -> F): (fs: seq<F>)
    requires b.window <= 0x8000_0000
  {
    RenderAll(Emitted(Span(|tokens|, b.window), b), tokens, b.window, feat)
  }

  // ----- The feature vector, round by round -----

  /** The feature vector after the chains of one level. */
  function AddLevel<F>(fs: seq<F>, xs: seq<Mask>, tokens: seq<string>, b: Bounds, feat: Chain -> F): (r: seq<F>)
    requires b.window <= 0x8000_0000
  {
    if |xs| == 0 then fs
    else
      var n := |xs| - 1;
      var before := AddLevel(fs, xs[..n], tokens, b, feat);
      if Emits(xs[n], b) then before + [feat(Render(xs[n], tokens, b.window))] else before
  }

  /** The feature vector after all chains of more than k positions, level by level. */
  function AddFrom<F>(fs: seq<F>, k: nat, tokens: seq<string>, b: Bounds, feat: Chain -> F): (r: seq<F>)
    requires b.window <= 0x8000_0000
    decreases Span(|tokens|, b.window) - k
  {
    if k >= Span(|tokens|, b.window) then fs
    else AddFrom(AddLevel(fs, Level(k), tokens, b, feat), k + 1, tokens, b, feat)
  }

  lemma {:induction false} AddLevelRender<F>(fs: seq<F>, xs: seq<Mask>, tokens: seq<string>, b: Bounds,
                                             feat: Chain -> F)
    requires b.window <= 0x8000_0000
    ensures AddLevel(fs, xs, tokens, b, feat) == fs + RenderAll(Keep(xs, b), tokens, b.window, feat)
  {
    if |xs| > 0 {
      AddLevelRender(fs, xs[..|xs| - 1], tokens, b, feat);
    }
  }

  lemma {:induction false} AddFromRender<F>(fs: seq<F>, k: nat, tokens: seq<string>, b: Bounds, feat: Chain -> F)
    requires b.window <= 0x8000_0000
    ensures AddFrom(fs, k, tokens, b, feat)
         == fs + RenderAll(EmittedFrom(k, Span(|tokens|, b.window), b), tokens, b.window, feat)
    decreases Span(|tokens|, b.window) - k
  {
    var m := Span(|tokens|, b.window);
    if k < m {
      var kept, rest := Keep(Level(k), b), EmittedFrom(k + 1, m, b);
      AddLevelRender(fs, Level(k), tokens, b, feat);
      AddFromRender(AddLevel(fs, Level(k), tokens, b, feat), k + 1, tokens, b, feat);
      AppendRendered(fs, kept, rest, tokens, b.window, feat);
      assert EmittedFrom(k, m, b) == kept + rest;
    }
  }

  lemma AppendRendered<F>(fs: seq<F>, xs: seq<Mask>, ys: seq<Mask>, tokens: seq<string>, window: Window,
                          feat: Chain -> F)
    ensures (fs + RenderAll(xs, tokens, window, feat)) + RenderAll(ys, tokens, window, feat)
         == fs + RenderAll(xs + ys, tokens, window, feat)
  {
  }

  lemma AddFromUnfold<F>(fs: seq<F>, k: nat, tokens: seq<string>, b: Bounds, feat: Chain -> F)
    requires b.window <= 0x8000_0000 && k < Span(|tokens|, b.window)
    ensures AddFrom(fs, k, tokens, b, feat) == AddFrom(AddLevel(fs, Level(k), tokens, b, feat), k + 1, tokens, b, feat)
  {
  }

  lemma LevelAndEnd<F>(fs: seq<F>, k: nat, tokens: seq<string>, b: Bounds, feat: Chain -> F)
    requires b.window <= 0x8000_0000
    ensures Level(k + 1) == Grow(Level(k))
    ensures k + 1 >= Span(|tokens|, b.window) ==> AddFrom(fs, k + 1, tokens, b, feat) == fs
  {
  }

  lemma AddLevelSnoc<F>(fs: seq<F>, xs: seq<Mask>, x: Mask, tokens: seq<string>, b: Bounds, feat: Chain -> F)
    requires b.window <= 0x8000_0000
    ensures AddLevel(fs, xs + [x], tokens, b, feat)
         == AddLevel(fs, xs, tokens, b, feat) + if Emits(x, b) then [feat(Render(x, tokens, b.window))] else []
  {
    assert (xs + [x])[..|xs|] == xs;
  }

  lemma GrowAt(xs: seq<Mask>, i: nat)
    requires i < |xs|
    ensures Grow(xs[..i + 1]) == Grow(xs[..i]) + [xs[i] + [true], xs[i] + [false]]
  {
    GrowSnoc(xs[..i], xs[i]);
    assert xs[..i + 1] == xs[..i] + [xs[i]];
  }

  lemma NothingGrown<F>(fs: seq<F>, xs: seq<Mask>, tokens: seq<string>, b: Bounds, feat: Chain -> F)
    requires b.window <= 0x8000_0000
    ensures Grow(xs[..0]) == [] && AddLevel(fs, Grow(xs[..0]), tokens, b, feat) == fs
  {
  }

  /** Of the two chains grown from one, only the one that ends on a token can be emitted. */
  lemma AddLevelGrow<F>(fs: seq<F>, xs: seq<Mask>, i: nat, tokens: seq<string>, b: Bounds, feat: Chain -> F)
    requires i < |xs| && b.window <= 0x8000_0000
    ensures var c := Render(xs[i] + [true], tokens, b.window);
            AddLevel(fs, Grow(xs[..i + 1]), tokens, b, feat) == AddLevel(fs, Grow(xs[..i]), tokens, b, feat)
            + if b.minRadius <= c.radius <= b.maxRadius then [feat(c)] else []
  {
    var g, p, q := Grow(xs[..i]), xs[i] + [true], xs[i] + [false];
    GrowAt(xs, i);
    assert g + [p, q] == (g + [p]) + [q];
    AddLevelSnoc(fs, g + [p], q, tokens, b, feat);
    AddLevelSnoc(fs, g, p, tokens, b, feat);
  }

  // ----- The queue -----

  /** The queue holds the chains of these masks, in order. */
  ghost predicate Holds(chains: seq<StrChain>, xs: seq<Mask>, tokens: seq<string>, window: Window)
    reads chains
  {
    && |chains| == |xs|
    && forall i :: 0 <= i < |xs| ==> chains[i].Value() == Render(xs[i], tokens, window)
  }

  lemma RenderTokensSnoc(x: Mask, p: bool, tokens: seq<string>)
    requires |x| < |tokens|
    ensures RenderTokens(x + [p], tokens) == RenderTokens(x, tokens) + [if p then tokens[|x|] else SKIP]
  {
    assert (x + [p])[..|x|] == x;
  }

  /** Appending a token to a chain, or a skip. */
  lemma RenderSnoc(x: Mask, p: bool, tokens: seq<string>, window: Window)
    requires |x| < |tokens|
    ensures var t, c := if p then tokens[|x|] else SKIP, Render(x, tokens, window);
            Render(x + [p], tokens, window)
            == Chain(c.tokens + [t], c.radius - if p then 1 else 0, c.skip || t == SKIP)
  {
    RenderTokensSnoc(x, p, tokens);
    TruesSnoc(x, p);
    HasSkipSnoc(RenderTokens(x, tokens), if p then tokens[|x|] else SKIP);
  }

  lemma HoldsTwoMore(chains: seq<StrChain>, xs: seq<Mask>, i: nat, c1: StrChain, c2: StrChain,
                     tokens: seq<string>, window: Window)
    requires i < |xs| && Holds(chains, Grow(xs[..i]), tokens, window)
    requires c1.Value() == Render(xs[i] + [true], tokens, window)
    requires c2.Value() == Render(xs[i] + [false], tokens, window)
    ensures Holds(chains + [c1, c2], Grow(xs[..i + 1]), tokens, window)
  {
    GrowAt(xs, i);
  }

  lemma HoldsOne(c: StrChain, tokens: seq<string>, window: Window)
    requires c.Value() == Render([true], tokens, window)
    ensures Holds([c], Level(0), tokens, window)
  {
    var xs := [[true]];
    assert Level(0) == xs && xs[0] == [true];
  }

  lemma FirstChain<F>(fs: seq<F>, tokens: seq<string>, b: Bounds, feat: Chain -> F)
    requires |tokens| > 0 && b.window <= 0x8000_0000
    ensures Render([true], tokens, b.window) == MakeChain([tokens[0]], b.window - 1)
    ensures AddLevel(fs, [[true]], tokens, b, feat)
         == fs + if b.minRadius <= b.window - 1 <= b.maxRadius then [feat(MakeChain([tokens[0]], b.window - 1))] else []
  {
    assert [[true]][..0] == [] && [true][..0] == [];
    assert RenderTokens([true], tokens) == [tokens[0]];
    assert Count([true]) == 1;
  }

  // ----- mrf_build -----

  /** The chain of the first token, emitted if its radius window - 1 is within the bounds. */
  method StartChain<F>(tokens: seq<string>, tok: nat, features: seq<F>, b: Bounds, feat: Chain -> F)
    returns (chain: StrChain, out: seq<F>)
    requires b.window <= 0x8000_0000 && |tokens| > 0 && tok == 0
    ensures Holds([chain], Level(tok), tokens, b.window)
    ensures out == AddLevel(features, Level(tok), tokens, b, feat)
  {
    var radiusChain := b.window - 1;
    chain := new StrChain(tokens[tok], radiusChain);
    FirstChain(features, tokens, b, feat);
    out := features;
    if radiusChain >= b.minRadius && radiusChain <= b.maxRadius {
      out := out + [feat(chain.Value())];
    }
    HoldsOne(chain, tokens, b.window);
  }

  /** The two chains made from one: with the next token and one step less radius, and with a skip. */
  method GrowChain(chain: StrChain, token: string, ghost x: Mask, ghost tokens: seq<string>, ghost window: Window)
    returns (chain1: StrChain, chain2: StrChain)
    requires chain.Value() == Render(x, tokens, window)
    requires |x| < |tokens| && token == tokens[|x|]
    ensures fresh(chain1) && fresh(chain2)
    ensures chain1.Value() == Render(x + [true], tokens, window)
    ensures chain2.Value() == Render(x + [false], tokens, window)
  {
    RenderSnoc(x, true, tokens, window);
    RenderSnoc(x, false, tokens, window);
    chain1 := new StrChain.Copy(chain);
    chain1.AddToken(token);
    chain1.DecrRadius();
    chain2 := new StrChain.Copy(chain);
    chain2.AddToken(SKIP);
  }

  /**
   One round over the queue: while the window has another token, every chain grows by it and by a skip; after the last
   token the queue just runs empty.
   */
  method GrowChains<F>(tokens: seq<string>, tok: nat, chains: seq<StrChain>, ghost xs: seq<Mask>, features: seq<F>,
                       b: Bounds, feat: Chain -> F)
    returns (nchains: seq<StrChain>, out: seq<F>)
    requires b.window <= 0x8000_0000 && Holds(chains, xs, tokens, b.window)
    requires forall i :: 0 <= i < |xs| ==> |xs[i]| == tok
    requires 0 < tok <= Span(|tokens|, b.window) && |tokens| > 0
    ensures tok == Span(|tokens|, b.window) ==> nchains == [] && out == features
    ensures tok < Span(|tokens|, b.window) ==>
              Holds(nchains, Grow(xs), tokens, b.window)
              && out == AddLevel(features, Grow(xs), tokens, b, feat)
  {
    hide AddLevel, Grow, RenderTokens;
    NothingGrown(features, xs, tokens, b, feat);
    var queue := chains;
    nchains, out := [], features;
    ghost var i := 0;
    while |queue| > 0
      invariant 0 <= i <= |chains| && queue == chains[i..]
      invariant Holds(chains, xs, tokens, b.window)
      invariant tok == Span(|tokens|, b.window) ==> nchains == [] && out == features
      invariant tok < Span(|tokens|, b.window) ==> Holds(nchains, Grow(xs[..i]), tokens, b.window)
      invariant tok < Span(|tokens|, b.window) ==>
                  out == AddLevel(features, Grow(xs[..i]), tokens, b, feat)
    {
      var chain := queue[0];
      queue := queue[1..];
      if |chain.chain| < Min(|tokens|, b.window) {
        AddLevelGrow(features, xs, i, tokens, b, feat);
        var chain1, chain2 := GrowChain(chain, tokens[tok], xs[i], tokens, b.window);
        if b.minRadius <= chain1.radius && chain1.radius <= b.maxRadius {
          out := out + [feat(chain1.Value())];
        }
        HoldsTwoMore(nchains, xs, i, chain1, chain2, tokens, b.window);
        nchains := nchains + [chain1, chain2];
      }
      i := i + 1;
    }
    assert xs[..i] == xs;
  }

  /** The recursion: an empty queue starts the first chain, any other queue runs one round and recurs on what it grew. */
  method BuildFrom<F>(tokens: seq<string>, tok: nat, chains: seq<StrChain>, features: seq<F>, b: Bounds,
                      feat: Chain -> F)
    returns (out: seq<F>)
    requires b.window <= 0x8000_0000 && |tokens| > 0 && tok < Span(|tokens|, b.window)
    requires |chains| == 0 ==> tok == 0
    requires |chains| > 0 ==> Holds(chains, Level(tok), tokens, b.window)
    ensures |chains| == 0 ==> out == AddFrom(features, tok, tokens, b, feat)
    ensures |chains| > 0 ==> out == AddFrom(features, tok + 1, tokens, b, feat)
    decreases Span(|tokens|, b.window) - tok, |chains| == 0
  {
    hide AddFrom, AddLevel, Level, Grow, Render, RenderTokens;
    if |chains| == 0 {
      AddFromUnfold(features, tok, tokens, b, feat);
      var chain;
      chain, out := StartChain(tokens, tok, features, b, feat);
      out := BuildFrom(tokens, tok, [chain], out, b, feat);
    } else {
      var nchains;
      nchains, out := GrowChains(tokens, tok + 1, chains, Level(tok), features, b, feat);
      LevelAndEnd(features, tok, tokens, b, feat);
      if |nchains| > 0 {
        AddFromUnfold(features, tok + 1, tokens, b, feat);
        out := BuildFrom(tokens, tok + 1, nchains, out, b, feat);
      }
    }
  }

  /** mrf_build: tokens.at never throws when there is a token. */
  method MrfBuild<F>(tokens: seq<string>, features: seq<F>, b: Bounds, feat: Chain -> F) returns (out: seq<F>)
    requires |tokens| > 0 && b.window <= 0x8000_0000
    ensures out == features + WindowFeatures(tokens, b, feat)
  {
    out := BuildFrom(tokens, 0, [], features, b, feat);
    AddFromRender(features, 0, tokens, b, feat);
  }

  // ----- What the features are -----

  /** The tokens at s and skips in the gaps, up to the last position in s. */
  ghost predicate IsSelectionChain(c: Chain, tokens: seq<string>, window: nat, s: set<nat>) {
    && c == MakeChain(c.tokens, window - |s|)
    && 0 < |c.tokens| <= |tokens|
    && |c.tokens| - 1 in s
    && (forall p :: p in s ==> p < |c.tokens|)
    && (forall p: nat :: p < |c.tokens| ==> c.tokens[p] == if p in s then tokens[p] else SKIP)
  }

  ghost predicate IsFeatureOf<F>(f: F, tokens: seq<string>, b: Bounds, feat: Chain -> F, s: set<nat>) {
    exists c: Chain :: IsSelectionChain(c, tokens, b.window, s) && f == feat(c)
  }

  /**
   Each subset of the window's positions that holds the first one and meets the bounds gives one feature: that of the
   chain with the tokens at those positions and skips between them, of radius window less the number of tokens.
   */
  lemma SelectionFeature<F>(tokens: seq<string>, b: Bounds, feat: Chain -> F, s: set<nat>)
    requires |tokens| > 0 && b.window <= 0x8000_0000
    requires IsSelection(s, Span(|tokens|, b.window), b)
    ensures exists i :: 0 <= i < |WindowFeatures(tokens, b, feat)|
                        && Positions(Emitted(Span(|tokens|, b.window), b)[i]) == s
                        && IsFeatureOf(WindowFeatures(tokens, b, feat)[i], tokens, b, feat, s)
  {
    var m := Span(|tokens|, b.window);
    SelectionsAreEmittedOnce(m, b, s);
    var i :| 0 <= i < |Emitted(m, b)| && Positions(Emitted(m, b)[i]) == s;
    FeatureIsSelection(tokens, b, feat, i);
  }

  /** The converse: every feature of a window comes from such a subset. */
  lemma FeatureIsSelection<F>(tokens: seq<string>, b: Bounds, feat: Chain -> F, i: nat)
    requires |tokens| > 0 && b.window <= 0x8000_0000
    requires i < |WindowFeatures(tokens, b, feat)|
    ensures var m := Span(|tokens|, b.window);
            var s := Positions(Emitted(m, b)[i]);
            IsSelection(s, m, b) && IsFeatureOf(WindowFeatures(tokens, b, feat)[i], tokens, b, feat, s)
  {
    var m := Span(|tokens|, b.window);
    var x := Emitted(m, b)[i];
    EmittedAreSelections(m, b, i);
    EmittedLength(m, b, i);
    hide Emitted, IsSelection, IsSelectionChain, Render, Positions;
    RenderIsSelectionChain(x, tokens, b.window);
    assert WindowFeatures(tokens, b, feat)[i] == feat(Render(x, tokens, b.window));
  }

  lemma EmittedLength(m: nat, b: Bounds, i: nat)
    requires i < |Emitted(m, b)|
    ensures 0 < |Emitted(m, b)[i]| <= m
  {
    var x := Emitted(m, b)[i];
    EmittedOnce(m, b, x);
    assert x in multiset(Emitted(m, b));
  }

  lemma RenderIsSelectionChain(x: Mask, tokens: seq<string>, window: Window)
    requires 0 < |x| <= |tokens| && x[|x| - 1]
    ensures IsSelectionChain(Render(x, tokens, window), tokens, window, Positions(x))
  {
    TruesIsCardinality(x);
    hide Count, RenderTokens;
    var c := Render(x, tokens, window);
    forall p: nat | p < |x|
      ensures c.tokens[p] == if p in Positions(x) then tokens[p] else SKIP
    {
      RenderTokensAt(x, tokens, p);
    }
  }

  /**
   All of it: the features of a window are, one for one, those of the chains of the subsets of its positions that hold
   the first one and whose size meets the bounds. Beyond the window there are no positions; a window length of zero has
   the first.
   */
  lemma WindowSelections<F>(tokens: seq<string>, b: Bounds, feat: Chain -> F)
    returns (sel: seq<set<nat>>, chains: seq<Chain>)
    requires |tokens| > 0 && b.window <= 0x8000_0000
    ensures |sel| == |chains| == |WindowFeatures(tokens, b, feat)|
    ensures forall i :: 0 <= i < |chains| ==> WindowFeatures(tokens, b, feat)[i] == feat(chains[i])
    ensures forall i, j :: 0 <= i < j < |sel| ==> sel[i] != sel[j]
    ensures forall s: set<nat> :: s in sel <==>
              && 0 in s && (forall p :: p in s ==> p < |tokens| && (p < b.window || p == b.window == 0))
              && b.minRadius <= b.window - |s| <= b.maxRadius
    ensures forall i :: 0 <= i < |sel| ==>
              && chains[i].radius == b.window - |sel[i]| && (chains[i].skip <==> "<skip>" in chains[i].tokens)
              && 0 < |chains[i].tokens| <= |tokens| && |chains[i].tokens| - 1 in sel[i]
              && (forall p :: p in sel[i] ==> p < |chains[i].tokens|)
              && forall p: nat :: p < |chains[i].tokens| ==>
                   chains[i].tokens[p] == if p in sel[i] then tokens[p] else "<skip>"
  {
    hide Emitted, Positions, Render;
    var m := Span(|tokens|, b.window);
    var e := Emitted(m, b);
    sel := seq(|e|, i requires 0 <= i < |e| => Positions(e[i]));
    chains := seq(|e|, i requires 0 <= i < |e| => Render(e[i], tokens, b.window));
    forall s: set<nat>
      ensures s in sel <==> IsSelection(s, m, b)
    {
      SelectionListed(m, b, s, sel);
    }
    forall i, j | 0 <= i < j < |sel|
      ensures sel[i] != sel[j]
    {
      SelectionsDiffer(m, b, i, j);
    }
    forall i | 0 <= i < |sel|
      ensures IsChainAt(chains[i], tokens, b.window, sel[i])
    {
      EmittedAreSelections(m, b, i);
      EmittedLength(m, b, i);
      ChainOfMask(e[i], tokens, b.window);
    }
  }

  ghost predicate IsChainAt(c: Chain, tokens: seq<string>, window: nat, s: set<nat>) {
    && c.radius == window - |s| && (c.skip <==> "<skip>" in c.tokens)
    && 0 < |c.tokens| <= |tokens| && |c.tokens| - 1 in s
    && (forall p :: p in s ==> p < |c.tokens|)
    && forall p: nat :: p < |c.tokens| ==> c.tokens[p] == if p in s then tokens[p] else "<skip>"
  }

  lemma ChainOfMask(x: Mask, tokens: seq<string>, window: Window)
    requires 0 < |x| <= |tokens| && x[|x| - 1]
    ensures IsChainAt(Render(x, tokens, window), tokens, window, Positions(x))
  {
    hide Render, Positions;
    RenderIsSelectionChain(x, tokens, window);
    HasSkipMeansContains(Render(x, tokens, window).tokens);
  }

  lemma SelectionsDiffer(m: nat, b: Bounds, i: nat, j: nat)
    requires i < j < |Emitted(m, b)|
    ensures Positions(Emitted(m, b)[i]) != Positions(Emitted(m, b)[j])
  {
    hide Emitted, Positions, IsSelection;
    EmittedAreSelections(m, b, i);
    SelectionsAreEmittedOnce(m, b, Positions(Emitted(m, b)[i]));
  }

  lemma SelectionListed(m: nat, b: Bounds, s: set<nat>, sel: seq<set<nat>>)
    requires |sel| == |Emitted(m, b)| && forall i :: 0 <= i < |sel| ==> sel[i] == Positions(Emitted(m, b)[i])
    ensures s in sel <==> IsSelection(s, m, b)
  {
    hide Emitted, Positions, IsSelection;
    if IsSelection(s, m, b) {
      SelectionsAreEmittedOnce(m, b, s);
    }
    if s in sel {
      var i :| 0 <= i < |sel| && sel[i] == s;
      EmittedAreSelections(m, b, i);
    }
  }

  /** When the bounds admit every radius, there are 2^(m-1) features, m the smaller of token count and window. */
  lemma WindowCount<F>(tokens: seq<string>, b: Bounds, feat: Chain -> F)
    requires |tokens| > 0 && 0 < b.window <= 0x8000_0000 && b.minRadius <= 0 && b.window - 1 <= b.maxRadius
    ensures |WindowFeatures(tokens, b, feat)| == Pow2((if |tokens| < b.window then |tokens| else b.window) - 1)
  {
    EmittedAll(Span(|tokens|, b.window), b);
  }

  /** Only the first window tokens matter. */
  lemma WindowIsPrefix<F>(tokens: seq<string>, k: nat, b: Bounds, feat: Chain -> F)
    requires |tokens| > 0 && b.window <= 0x8000_0000
    requires k <= |tokens| && Span(|tokens|, b.window) <= k
    ensures WindowFeatures(tokens, b, feat) == WindowFeatures(tokens[..k], b, feat)
  {
    var m := Span(|tokens|, b.window);
    assert Span(k, b.window) == m;
    forall i | 0 <= i < |Emitted(m, b)|
      ensures Render(Emitted(m, b)[i], tokens, b.window) == Render(Emitted(m, b)[i], tokens[..k], b.window)
    {
      var x := Emitted(m, b)[i];
      EmittedOnce(m, b, x);
      assert x in multiset(Emitted(m, b));
      RenderPrefix(x, tokens, k);
    }
  }

  lemma {:induction false} RenderPrefix(x: Mask, tokens: seq<string>, k: nat)
    requires |x| <= k <= |tokens|
    ensures RenderTokens(x, tokens) == RenderTokens(x, tokens[..k])
  {
    if |x| > 0 {
      RenderPrefix(x[..|x| - 1], tokens, k);
    }
  }
}
