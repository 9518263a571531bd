/**
 The combinatorics behind a window's features: which positions of the window a chain keeps. A mask says, position by
 position, whether the chain holds the token or a skip.
 */
module Masks {
  import opened Binary

  type Mask = seq<bool>

  lemma TruesSnoc(m: Mask, p: bool)
    ensures Count(m + [p]) == Count(m) + if p then 1 else 0
  {
    assert (m + [p])[..|m|] == m;
  }

  /** Each chain grows by the next token, then by a skip. */
  function Grow(ms: seq<Mask>): (r: seq<Mask>)
    ensures |r| == 2 * |ms|
  {
    if |ms| == 0 then [] else Grow(ms[..|ms| - 1]) + [ms[|ms| - 1] + [true], ms[|ms| - 1] + [false]]
  }

  lemma GrowSnoc(ms: seq<Mask>, m: Mask)
    ensures Grow(ms + [m]) == Grow(ms) + [m + [true], m + [false]]
  {
    assert (ms + [m])[..|ms|] == ms;
  }

  /** The chains of length k + 1 in the order the queue holds them. */
  function Level(k: nat): (r: seq<Mask>)
    ensures forall i :: 0 <= i < |r| ==> |r[i]| == k + 1
  {
    if k == 0 then [[true]]
    else
      GrowLengths(Level(k - 1), k);
      Grow(Level(k - 1))
  }

  lemma {:induction false} GrowLengths(ms: seq<Mask>, k: nat)
    requires forall i :: 0 <= i < |ms| ==> |ms[i]| == k
    ensures forall i :: 0 <= i < |Grow(ms)| ==> |Grow(ms)[i]| == k + 1
  {
    if |ms| > 0 {
      GrowLengths(ms[..|ms| - 1], k);
    }
  }

  /** The radius bounds a feature must meet, in a window of length w. */
  datatype Bounds = Bounds(minRadius: int, maxRadius: int, window: nat)

  predicate Emits(m: Mask, b: Bounds) {
    |m| > 0 && m[|m| - 1] && b.minRadius <= b.window - Count(m) <= b.maxRadius
  }

  function Keep(ms: seq<Mask>, b: Bounds): (r: seq<Mask>) {
    if |ms| == 0 then []
    else Keep(ms[..|ms| - 1], b) + if Emits(ms[|ms| - 1], b) then [ms[|ms| - 1]] else []
  }

  /** What a window of m tokens emits from chain length k + 1 on, in order. */
  function EmittedFrom(k: nat, m: nat, b: Bounds): (r: seq<Mask>)
    decreases m - k
  {
    if k >= m then [] else Keep(Level(k), b) + EmittedFrom(k + 1, m, b)
  }

  function Emitted(m: nat, b: Bounds): (r: seq<Mask>) {
    EmittedFrom(0, m, b)
  }

  // ----- Every subset once -----

  function Indicator(p: bool): nat {
    if p then 1 else 0
  }

  lemma PairCount(p: Mask, x: Mask)
    ensures multiset([p + [true], p + [false]])[x] == Indicator(|x| > 0 && x[..|x| - 1] == p)
  {
    var a, b := p + [true], p + [false];
    assert a[|p|] != b[|p|];
    assert a[..|p|] == p == b[..|p|];
    assert multiset([a, b]) == multiset{a} + multiset{b};
    if |x| > 0 && x[..|x| - 1] == p {
      if x[|x| - 1] {
        assert x == a;
      } else {
        assert x == b;
      }
    }
  }

  lemma LastCount(ms: seq<Mask>, x: Mask)
    requires |ms| > 0
    ensures multiset(ms)[x] == multiset(ms[..|ms| - 1])[x] + Indicator(ms[|ms| - 1] == x)
  {
    assert ms == ms[..|ms| - 1] + [ms[|ms| - 1]];
  }

  lemma LastCounts(ms: seq<Mask>, pair: seq<Mask>, x: Mask)
    ensures multiset(ms + pair)[x] == multiset(ms)[x] + multiset(pair)[x]
  {
  }

  lemma {:induction false} GrowCounts(ms: seq<Mask>, x: Mask)
    ensures multiset(Grow(ms))[x] == if |x| == 0 then 0 else multiset(ms)[x[..|x| - 1]]
  {
    if |ms| > 0 {
      var n := |ms| - 1;
      GrowCounts(ms[..n], x);
      PairCount(ms[n], x);
      LastCount(ms, if |x| == 0 then x else x[..|x| - 1]);
      hide Indicator;
      LastCounts(Grow(ms[..n]), [ms[n] + [true], ms[n] + [false]], x);
    }
  }

  /** Each level holds every mask of its length that starts with a token, once. */
  lemma {:induction false} LevelCounts(k: nat, x: Mask)
    ensures multiset(Level(k))[x] == Indicator(|x| == k + 1 && x[0])
  {
    if k == 0 {
      FirstLevelCount(x);
    } else {
      GrowCounts(Level(k - 1), x);
      if |x| > 0 {
        var y := x[..|x| - 1];
        LevelCounts(k - 1, y);
        assert |y| > 0 ==> y[0] == x[0];
      }
    }
  }

  lemma FirstLevelCount(x: Mask)
    ensures multiset([[true]])[x] == Indicator(|x| == 1 && x[0])
  {
    if |x| == 1 && x[0] {
      assert x == [true];
    }
  }

  lemma {:induction false} KeepCounts(ms: seq<Mask>, b: Bounds, x: Mask)
    ensures multiset(Keep(ms, b))[x] == if Emits(x, b) then multiset(ms)[x] else 0
  {
    if |ms| > 0 {
      KeepCounts(ms[..|ms| - 1], b, x);
      assert ms == ms[..|ms| - 1] + [ms[|ms| - 1]];
    }
  }

  lemma {:induction false} EmittedFromCounts(k: nat, m: nat, b: Bounds, x: Mask)
    ensures multiset(EmittedFrom(k, m, b))[x] == Indicator(k < |x| <= m && x[0] && Emits(x, b))
    decreases m - k
  {
    hide EmittedFrom, Keep, Level, Emits;
    EmittedFromUnfold(k, m, b, x);
    if k < m {
      EmittedFromCounts(k + 1, m, b, x);
      KeepCounts(Level(k), b, x);
      LevelCounts(k, x);
    }
  }

  lemma EmittedFromUnfold(k: nat, m: nat, b: Bounds, x: Mask)
    ensures multiset(EmittedFrom(k, m, b))[x]
         == if k < m then multiset(Keep(Level(k), b))[x] + multiset(EmittedFrom(k + 1, m, b))[x] else 0
  {
    if k < m {
      LastCounts(Keep(Level(k), b), EmittedFrom(k + 1, m, b), x);
    }
  }

  /** A chain of the window of m tokens is emitted once if it starts and ends on a token within the bounds, else not. */
  lemma EmittedOnce(m: nat, b: Bounds, x: Mask)
    ensures multiset(Emitted(m, b))[x] == Indicator(0 < |x| <= m && x[0] && Emits(x, b))
  {
    EmittedFromCounts(0, m, b, x);
  }

  // ----- Masks as sets of positions -----

  function Positions(x: Mask): (s: set<nat>) {
    set i: nat | i < |x| && x[i]
  }

  lemma {:induction false} TruesIsCardinality(x: Mask)
    ensures |Positions(x)| == Count(x)
  {
    if |x| > 0 {
      var n := |x| - 1;
      TruesIsCardinality(x[..n]);
      if x[n] {
        assert Positions(x) == Positions(x[..n]) + {n};
      } else {
        assert Positions(x) == Positions(x[..n]);
      }
    }
  }

  /** The mask whose tokens stand at s, up to the last one. */
  function MaskOf(s: set<nat>, m: nat): (x: Mask)
    requires forall i :: i in s ==> i < m
    ensures |x| <= m && Positions(x) == s
    ensures |x| > 0 ==> x[|x| - 1]
    decreases m
  {
    if m == 0 then []
    else if m - 1 in s then seq(m, i => i in s)
    else MaskOf(s, m - 1)
  }

  lemma LastTrueDetermines(x: Mask, y: Mask)
    requires Positions(x) == Positions(y)
    requires |x| > 0 ==> x[|x| - 1]
    requires |y| > 0 ==> y[|y| - 1]
    ensures x == y
  {
    assert |x| > 0 ==> |x| - 1 in Positions(x);
    assert |y| > 0 ==> |y| - 1 in Positions(y);
    assert forall i: nat :: i < |x| ==> (x[i] <==> i in Positions(x));
    assert forall i: nat :: i < |y| ==> (y[i] <==> i in Positions(y));
  }

  predicate IsSelection(s: set<nat>, m: nat, b: Bounds) {
    && 0 in s
    && (forall i :: i in s ==> i < m)
    && b.minRadius <= b.window - |s| <= b.maxRadius
  }

  /**
   The features of a window of m tokens are in one-to-one correspondence with the subsets of its positions that hold
   the first position and whose size meets the bounds.
   */
  lemma SelectionsAreEmittedOnce(m: nat, b: Bounds, s: set<nat>)
    requires IsSelection(s, m, b)
    ensures exists i :: 0 <= i < |Emitted(m, b)| && Positions(Emitted(m, b)[i]) == s
    ensures forall i, j ::
              (0 <= i < |Emitted(m, b)| && 0 <= j < |Emitted(m, b)|
               && Positions(Emitted(m, b)[i]) == s && Positions(Emitted(m, b)[j]) == s)
              ==> i == j
  {
    var x := MaskOf(s, m);
    assert 0 in Positions(x);
    TruesIsCardinality(x);
    EmittedOnce(m, b, x);
    var e := Emitted(m, b);
    OccursOnce(e, x);
    forall i | 0 <= i < |e| && Positions(e[i]) == s
      ensures e[i] == x
    {
      EmittedAreSelections(m, b, i);
      LastTrueDetermines(e[i], x);
    }
  }

  lemma EmittedAreSelections(m: nat, b: Bounds, i: nat)
    requires i < |Emitted(m, b)|
    ensures var x := Emitted(m, b)[i]; |x| > 0 && x[|x| - 1] && IsSelection(Positions(x), m, b)
  {
    var x := Emitted(m, b)[i];
    EmittedOnce(m, b, x);
    assert x in multiset(Emitted(m, b));
    TruesIsCardinality(x);
  }

  lemma OccursOnce<T>(s: seq<T>, x: T)
    requires multiset(s)[x] == 1
    ensures exists i :: 0 <= i < |s| && s[i] == x
    ensures forall i, j :: 0 <= i < |s| && 0 <= j < |s| && s[i] == x && s[j] == x ==> i == j
  {
    assert x in multiset(s);
    forall i, j | 0 <= i < |s| && 0 <= j < |s| && s[i] == x && s[j] == x
      ensures i == j
    {
      if i < j {
        OccursTwice(s, x, i, j);
      } else if j < i {
        OccursTwice(s, x, j, i);
      }
    }
  }

  lemma OccursTwice<T>(s: seq<T>, x: T, i: nat, j: nat)
    requires i < j < |s| && s[i] == x && s[j] == x
    ensures multiset(s)[x] >= 2
  {
    assert s == s[..j] + s[j..];
    assert s[..j][i] == x && s[j..][0] == x;
    assert x in multiset(s[..j]) && x in multiset(s[j..]);
  }

  // ----- How many -----

  lemma {:induction false} LevelSize(k: nat)
    ensures |Level(k)| == Pow2(k)
  {
    if k > 0 {
      LevelSize(k - 1);
    }
  }

  lemma KeepSnoc(ms: seq<Mask>, m: Mask, b: Bounds)
    ensures Keep(ms + [m], b) == Keep(ms, b) + if Emits(m, b) then [m] else []
  {
    assert (ms + [m])[..|ms|] == ms;
  }

  /** Of each pair at most the chain that ends on a token is kept. */
  lemma {:induction false} KeepGrowBound(ms: seq<Mask>, b: Bounds)
    ensures |Keep(Grow(ms), b)| <= |ms|
  {
    if |ms| > 0 {
      var n := |ms| - 1;
      KeepGrowBound(ms[..n], b);
      var g, p, q := Grow(ms[..n]), ms[n] + [true], ms[n] + [false];
      assert Grow(ms) == (g + [p]) + [q];
      KeepSnoc(g + [p], q, b);
      KeepSnoc(g, p, b);
    }
  }

  lemma {:induction false} EmittedFromSplit(k: nat, m: nat, b: Bounds)
    requires k <= m
    ensures EmittedFrom(k, m + 1, b) == EmittedFrom(k, m, b) + Keep(Level(m), b)
    decreases m - k
  {
    if k < m {
      EmittedFromSplit(k + 1, m, b);
      var l := Keep(Level(k), b);
      assert l + (EmittedFrom(k + 1, m, b) + Keep(Level(m), b)) == (l + EmittedFrom(k + 1, m, b)) + Keep(Level(m), b);
    } else {
      assert EmittedFrom(k + 1, m + 1, b) == [];
    }
  }

  /** A window of m tokens emits at most 2^(m-1) features. */
  lemma {:induction false} EmittedBound(m: nat, b: Bounds)
    requires m > 0
    ensures |Emitted(m, b)| <= Pow2(m - 1)
  {
    EmittedFromSplit(0, m - 1, b);
    if m == 1 {
      var first: Mask := [true];
      KeepSnoc([], first, b);
      assert [] + [first] == Level(0);
    } else {
      EmittedBound(m - 1, b);
      LevelSize(m - 2);
      KeepGrowBound(Level(m - 2), b);
    }
  }

  /** Of each pair exactly one is kept when every radius meets the bounds. */
  lemma {:induction false} KeepGrowAll(ms: seq<Mask>, b: Bounds)
    requires forall i :: 0 <= i < |ms| ==> |ms[i]| < b.window
    requires b.minRadius <= 0 && b.window - 1 <= b.maxRadius
    ensures |Keep(Grow(ms), b)| == |ms|
  {
    if |ms| > 0 {
      var n := |ms| - 1;
      KeepGrowAll(ms[..n], b);
      var g, p, q := Grow(ms[..n]), ms[n] + [true], ms[n] + [false];
      assert Grow(ms) == (g + [p]) + [q];
      KeepSnoc(g + [p], q, b);
      KeepSnoc(g, p, b);
      assert p[..|ms[n]|] == ms[n];
      assert Count(p) == Count(ms[n]) + 1;
    }
  }

  /** And a window of m tokens emits exactly 2^(m-1) features. */
  lemma {:induction false} EmittedAll(m: nat, b: Bounds)
    requires 0 < m <= b.window && b.minRadius <= 0 && b.window - 1 <= b.maxRadius
    ensures |Emitted(m, b)| == Pow2(m - 1)
  {
    EmittedFromSplit(0, m - 1, b);
    if m == 1 {
      var first: Mask := [true];
      KeepSnoc([], first, b);
      assert first[..0] == [] && Count(first) == 1;
      assert [] + [first] == Level(0);
    } else {
      EmittedAll(m - 1, b);
      LevelSize(m - 2);
      KeepGrowAll(Level(m - 2), b);
    }
  }

  lemma {:induction false} TruesAll(x: Mask)
    ensures Count(x) == |x| <==> forall i :: 0 <= i < |x| ==> x[i]
  {
    if |x| > 0 {
      TruesAll(x[..|x| - 1]);
    }
  }

  function AllTokens(n: nat): (x: Mask)
    ensures |x| == n
  {
    seq(n, i => true)
  }

  /** A window in which no chain meets the bounds emits nothing. */
  lemma NothingEmitted(m: nat, b: Bounds)
    requires forall x: Mask :: 0 < |x| <= m && x[0] ==> !Emits(x, b)
    ensures Emitted(m, b) == []
  {
    var e := Emitted(m, b);
    forall x: Mask
      ensures multiset(e)[x] == 0
    {
      EmittedOnce(m, b, x);
    }
    assert multiset(e) == multiset{};
    assert |e| == |multiset(e)|;
  }

  /** With both bounds zero, only a full window emits, and only the chain of all its tokens. */
  lemma ZeroRadiusEmitsOnce(m: nat, b: Bounds)
    requires b.minRadius == b.maxRadius == 0 && 0 < m <= b.window
    ensures Emitted(m, b) == if m == b.window then [AllTokens(m)] else []
  {
    if m < b.window {
      NothingEmitted(m, b);
    } else {
      var e, x := Emitted(m, b), AllTokens(m);
      forall y: Mask
        ensures multiset(e)[y] == multiset{x}[y]
      {
        EmittedOnce(m, b, y);
        TruesAll(y);
        if y != x {
          assert |y| == m ==> exists i :: 0 <= i < m && !y[i];
        }
      }
      assert multiset(e) == multiset{x};
      assert |e| == |multiset(e)| == 1;
      assert e[0] in multiset(e);
    }
  }

  /** The full window emits the chain of all its tokens besides what shorter windows emit. */
  lemma {:induction false} FullWindowEmitsMore(r: nat, b: Bounds)
    requires r < b.window && b.minRadius <= 0 <= b.maxRadius
    ensures |Emitted(r, b)| < |Emitted(b.window, b)|
  {
    var w := b.window;
    EmittedGrows(r, w - 1, b);
    EmittedFromSplit(0, w - 1, b);
    var x := AllTokens(w);
    TruesAll(x);
    KeepCounts(Level(w - 1), b, x);
    LevelCounts(w - 1, x);
    hide EmittedFrom, Keep, Level;
    assert x in multiset(Keep(Level(w - 1), b));
  }

  lemma {:induction false} EmittedGrows(r: nat, m: nat, b: Bounds)
    requires r <= m
    ensures |Emitted(r, b)| <= |Emitted(m, b)|
    decreases m
  {
    if r < m {
      EmittedGrows(r, m - 1, b);
      EmittedFromSplit(0, m - 1, b);
    }
  }
}
