/**
 Bit sampling of strings (src/lsh/LSHSystemHamming.cpp): a string's first hundred characters become bits, each of L
 masks keeps a sample of them, and two weighted sums of each sample are its main and control keys.
 */
module Hamming {
  import opened Wrappers
  import opened Binary
  import opened Filing

  type Str = seq<Byte>

  const CHAR_BIT: nat := 8
  const FIXED_STR_SIZE: nat := 100
  const TOTAL_BITS: nat := CHAR_BIT * FIXED_STR_SIZE
  const CONTROL_HASH_PRIME_BITS: nat := 217645177
  const SPACE: Byte := 32

  /** The characters that count: the first hundred, filled up with spaces. */
  function Fixed(str: Str): (s: Str)
    ensures |s| == FIXED_STR_SIZE
  {
    if |str| > FIXED_STR_SIZE then str[..FIXED_STR_SIZE]
    else str + seq(FIXED_STR_SIZE - |str|, i => SPACE)
  }

  /** Bit j of a string is bit j % 8 of its character j / 8. */
  ghost predicate AreBitsOf(b: Bits, str: Str) {
    && |b| == TOTAL_BITS
    && forall j :: 0 <= j < TOTAL_BITS ==> b[j] == ToBits(Fixed(str)[j / 8], 8)[j % 8]
  }

  function BitsOf(str: Str): (b: Bits)
    ensures AreBitsOf(b, str)
  {
    seq(TOTAL_BITS, j requires 0 <= j < TOTAL_BITS => ToBits(Fixed(str)[j / 8], 8)[j % 8])
  }

  function Masked(g: Bits, b: Bits): (r: Bits)
    requires |g| == |b|
  {
    seq(|b|, i requires 0 <= i < |b| => g[i] && b[i])
  }

  /** The sum of the factors, reduced, at the set bits below n. */
  function BitSum(b: Bits, factors: seq<nat>, n: nat): (r: nat)
    requires n <= |b| && n <= |factors|
    ensures r <= n * CONTROL_HASH_PRIME_BITS
  {
    if n == 0 then 0
    else BitSum(b, factors, n - 1) + if b[n - 1] then factors[n - 1] % CONTROL_HASH_PRIME_BITS else 0
  }

  /** The strings agree on the bits that the mask samples. */
  predicate AgreeOn(g: Bits, x: Str, y: Str)
    requires |g| == TOTAL_BITS
  {
    forall i :: 0 <= i < TOTAL_BITS && g[i] ==> BitsOf(x)[i] == BitsOf(y)[i]
  }

  class LSHSystemHamming {
    const g: seq<Bits>
    const controlHash: seq<seq<nat>>
    const mainHash: seq<seq<nat>>

    ghost predicate Valid() {
      && |controlHash| == |mainHash| == |g|
      && forall l :: 0 <= l < |g| ==>
           |g[l]| == TOTAL_BITS && |controlHash[l]| == TOTAL_BITS && |mainHash[l]| == TOTAL_BITS
    }

    /** The masks and factors come from random generators. */
    constructor (g: seq<Bits>, controlHash: seq<seq<nat>>, mainHash: seq<seq<nat>>)
      requires |controlHash| == |mainHash| == |g|
      requires forall l :: 0 <= l < |g| ==>
                 |g[l]| == TOTAL_BITS && |controlHash[l]| == TOTAL_BITS && |mainHash[l]| == TOTAL_BITS
      ensures Valid() && this.g == g && this.controlHash == controlHash && this.mainHash == mainHash
    {
      this.g := g;
      this.controlHash := controlHash;
      this.mainHash := mainHash;
    }

    method StrToBits(str: Str) returns (bb: Bits)
      ensures bb == BitsOf(str)
    {
      hide ToBits, BitsOf;
      var fss := Fixed(str);
      bb := seq(TOTAL_BITS, i => false);
      for i := 0 to FIXED_STR_SIZE
        invariant |bb| == TOTAL_BITS && bb[..8 * i] == BitsOf(str)[..8 * i]
      {
        var bbChar := ToBits(fss[i], 8);
        var m := 0;
        while m < 8
          invariant 0 <= m <= 8 && |bb| == TOTAL_BITS && bb[..8 * i + m] == BitsOf(str)[..8 * i + m]
        {
          CharBit(str, i, m);
          bb := bb[8 * i + m := bbChar[m]];
          m := m + 1;
        }
      }
    }

    lemma CharBit(str: Str, i: nat, m: nat)
      requires i < FIXED_STR_SIZE && m < 8
      ensures BitsOf(str)[8 * i + m] == ToBits(Fixed(str)[i], 8)[m]
    {
      assert (8 * i + m) / 8 == i && (8 * i + m) % 8 == m;
    }

    method LprojectStr(bb: Bits, L: nat) returns (hash: seq<Bits>)
      requires Valid() && |bb| == TOTAL_BITS && L <= |g|
      ensures |hash| == L && forall l :: 0 <= l < L ==> hash[l] == Masked(g[l], bb)
    {
      hash := [];
      for l := 0 to L
        invariant |hash| == l && forall j :: 0 <= j < l ==> hash[j] == Masked(g[j], bb)
      {
        hash := hash + [seq(|bb|, i requires 0 <= i < |bb| => g[l][i] && bb[i])];
      }
    }

    /** The sum stays far below 2^64, so an unsigned long does not wrap. */
    method BitHash(bb: Bits, factors: seq<nat>) returns (r: nat)
      requires |bb| == |factors| == TOTAL_BITS
      ensures r == BitSum(bb, factors, TOTAL_BITS) < 0x1_0000_0000_0000_0000
    {
      r := 0;
      for i := 0 to |bb|
        invariant r == BitSum(bb, factors, i)
      {
        if bb[i] {
          r := r + factors[i] % CONTROL_HASH_PRIME_BITS;
        }
      }
    }

    /** The key pair of a string under the l-th mask. */
    function KeyAt(str: Str, l: nat, hsize: nat): (k: KeyPair)
      requires Valid() && l < |g| && hsize > 0
      ensures k.0 < hsize
    {
      var b := Masked(g[l], BitsOf(str));
      (BitSum(b, mainHash[l], TOTAL_BITS) % hsize, BitSum(b, controlHash[l], TOTAL_BITS))
    }

    function KeysOf(str: Str, hsize: nat): (keys: seq<KeyPair>)
      requires Valid() && hsize > 0
      ensures |keys| == |g| && forall l :: 0 <= l < |g| ==> keys[l] == KeyAt(str, l, hsize)
    {
      seq(|g|, l requires 0 <= l < |g| => KeyAt(str, l, hsize))
    }

    /** LKeysFromStr, the main keys reduced to the table size. */
    method LKeysFromStr(str: Str, uhsize: nat) returns (keys: seq<KeyPair>)
      requires Valid() && 0 < uhsize < 0x1_0000_0000
      ensures keys == KeysOf(str, uhsize)
    {
      var bbStr := StrToBits(str);
      var bbHash := LprojectStr(bbStr, |g|);
      var Lmkeys, Lckeys: seq<nat> := [], [];
      for l := 0 to |g|
        invariant |Lmkeys| == l && forall j :: 0 <= j < l ==> Lmkeys[j] == KeyAt(str, j, uhsize).0
      {
        var h := BitHash(bbHash[l], mainHash[l]);
        Lmkeys := Lmkeys + [h % uhsize];
      }
      for l := 0 to |g|
        invariant |Lckeys| == l && forall j :: 0 <= j < l ==> Lckeys[j] == KeyAt(str, j, uhsize).1
      {
        var h := BitHash(bbHash[l], controlHash[l]);
        Lckeys := Lckeys + [h];
      }
      keys := seq(|g|, l requires 0 <= l < |g| => (Lmkeys[l], Lckeys[l]));
    }

    /** Strings that agree on the bits one mask samples have the same key pair there. */
    lemma AgreementSharesKey(x: Str, y: Str, l: nat, hsize: nat)
      requires Valid() && l < |g| && hsize > 0 && AgreeOn(g[l], x, y)
      ensures KeyAt(x, l, hsize) == KeyAt(y, l, hsize)
      ensures KeyAt(x, l, hsize) in KeysOf(x, hsize) && KeyAt(x, l, hsize) in KeysOf(y, hsize)
    {
      assert Masked(g[l], BitsOf(x)) == Masked(g[l], BitsOf(y));
      assert KeysOf(x, hsize)[l] == KeyAt(x, l, hsize);
      assert KeysOf(y, hsize)[l] == KeyAt(y, l, hsize);
    }
  }

  // ----- What the keys are made of -----

  /** Eight bits are a character, the lowest bit first; characters beyond the end of the string are spaces. */
  lemma BitsOfCharacter(str: Str, i: nat)
    requires i < 100
    ensures var b := BitsOf(str);
            (if i < |str| then str[i] else 32)
            == (if b[8 * i] then 1 else 0) + (if b[8 * i + 1] then 2 else 0) + (if b[8 * i + 2] then 4 else 0)
               + (if b[8 * i + 3] then 8 else 0) + (if b[8 * i + 4] then 16 else 0) + (if b[8 * i + 5] then 32 else 0)
               + (if b[8 * i + 6] then 64 else 0) + (if b[8 * i + 7] then 128 else 0)
  {
    var c := Fixed(str)[i];
    forall m | 0 <= m < 8
      ensures BitsOf(str)[8 * i + m] == ToBits(c, 8)[m]
    {
      assert (8 * i + m) / 8 == i && (8 * i + m) % 8 == m;
    }
    assert Pow2(8) == 256;
    hide BitsOf, Fixed, AreBitsOf;
    EightBits(ToBits(c, 8));
  }

  lemma EightBits(b: Bits)
    requires |b| == 8
    ensures Val(b)
         == (if b[0] then 1 else 0) + (if b[1] then 2 else 0) + (if b[2] then 4 else 0) + (if b[3] then 8 else 0)
            + (if b[4] then 16 else 0) + (if b[5] then 32 else 0) + (if b[6] then 64 else 0) + (if b[7] then 128 else 0)
  {
    hide Val, Shl;
    ValSplit(b, 4);
    FourBits(b[..4]);
    FourBits(b[4..]);
    ShlIsProduct(Val(b[4..]), 4);
    assert Pow2(4) == 16;
  }

  lemma FourBits(b: Bits)
    requires |b| == 4
    ensures Val(b) == (if b[0] then 1 else 0) + (if b[1] then 2 else 0) + (if b[2] then 4 else 0) + (if b[3] then 8 else 0)
  {
    hide Val;
    ValFromLow(b);
    ValFromLow(b[1..]);
    ValFromLow(b[2..]);
    ValFromLow(b[3..]);
    ValFromLow(b[4..]);
    assert b[1..][1..] == b[2..] && b[2..][1..] == b[3..] && b[3..][1..] == b[4..];
  }

  lemma {:induction false} NoBitsNoSum(b: Bits, factors: seq<nat>, n: nat)
    requires n <= |b| && n <= |factors| && forall p :: 0 <= p < n ==> !b[p]
    ensures BitSum(b, factors, n) == 0
  {
    if n > 0 {
      NoBitsNoSum(b, factors, n - 1);
    }
  }

  lemma {:induction false} OneBitMoreSum(b: Bits, b': Bits, factors: seq<nat>, p: nat, n: nat)
    requires |b| == |b'| && n <= |b| && n <= |factors| && p < |b| && p < |factors| && b[p] && !b'[p]
    requires forall q :: 0 <= q < |b| && q != p ==> b[q] == b'[q]
    ensures BitSum(b, factors, n) == BitSum(b', factors, n) + if p < n then factors[p] % 217645177 else 0
  {
    if n > 0 {
      OneBitMoreSum(b, b', factors, p, n - 1);
    }
  }

  /** A string that sets none of the bits a mask samples has the keys zero and zero there. */
  lemma NothingSampled(lsh: LSHSystemHamming, x: Str, l: nat, hsize: nat)
    requires lsh.Valid() && l < |lsh.g| && hsize > 0
    requires forall p :: 0 <= p < 800 && lsh.g[l][p] ==> !BitsOf(x)[p]
    ensures lsh.KeysOf(x, hsize)[l] == (0, 0)
  {
    var b := Masked(lsh.g[l], BitsOf(x));
    NoBitsNoSum(b, lsh.mainHash[l], 800);
    NoBitsNoSum(b, lsh.controlHash[l], 800);
    assert lsh.KeysOf(x, hsize)[l] == lsh.KeyAt(x, l, hsize);
  }

  /** One sampled bit more adds its reduced factor to the control key, and to the main key modulo the table size. */
  lemma OneBitMore(lsh: LSHSystemHamming, x: Str, y: Str, l: nat, p: nat, hsize: nat)
    requires lsh.Valid() && l < |lsh.g| && hsize > 0
    requires p < 800 && lsh.g[l][p] && BitsOf(x)[p] && !BitsOf(y)[p]
    requires forall q :: 0 <= q < 800 && q != p && lsh.g[l][q] ==> BitsOf(x)[q] == BitsOf(y)[q]
    ensures var kx, ky := lsh.KeysOf(x, hsize)[l], lsh.KeysOf(y, hsize)[l];
            && kx.1 == ky.1 + lsh.controlHash[l][p] % 217645177
            && kx.0 == (ky.0 + lsh.mainHash[l][p] % 217645177) % hsize
  {
    var b, b' := Masked(lsh.g[l], BitsOf(x)), Masked(lsh.g[l], BitsOf(y));
    OneBitMoreSum(b, b', lsh.controlHash[l], p, 800);
    OneBitMoreSum(b, b', lsh.mainHash[l], p, 800);
    ModOfSum(BitSum(b', lsh.mainHash[l], 800), lsh.mainHash[l][p] % 217645177, hsize);
    assert lsh.KeysOf(x, hsize)[l] == lsh.KeyAt(x, l, hsize) && lsh.KeysOf(y, hsize)[l] == lsh.KeyAt(y, l, hsize);
  }

  // ----- The masks -----

  lemma {:induction false} OnesFlip(b: Bits, i: nat)
    requires i < |b| && !b[i]
    ensures Count(b[i := true]) == Count(b) + 1
  {
    var n := |b| - 1;
    if i < n {
      OnesFlip(b[..n], i);
      assert b[i := true][..n] == b[..n][i := true];
    } else {
      assert b[i := true][..n] == b[..n];
    }
  }

  lemma {:induction false} OnesOfZeros(n: nat)
    ensures Count(seq(n, i => false)) == 0
  {
    if n > 0 {
      OnesOfZeros(n - 1);
      assert seq(n, i => false)[..n - 1] == seq(n - 1, i => false);
    }
  }

  /** The different positions that were drawn. */
  function Drawn(draws: seq<nat>): (s: set<nat>) {
    set d | d in draws
  }

  lemma DrawnStep(draws: seq<nat>, n: nat)
    requires n < |draws|
    ensures Drawn(draws[..n + 1]) == Drawn(draws[..n]) + {draws[n]}
    ensures |Drawn(draws[..n + 1])| == |Drawn(draws[..n])| + if draws[n] in draws[..n] then 0 else 1
  {
    assert draws[..n + 1] == draws[..n] + [draws[n]];
    assert draws[n] in draws[..n] ==> Drawn(draws[..n + 1]) == Drawn(draws[..n]);
  }

  lemma DrawnPrefix(draws: seq<nat>, n: nat)
    requires n <= |draws|
    ensures |Drawn(draws[..n])| <= |Drawn(draws)|
  {
    var a, b := Drawn(draws[..n]), Drawn(draws);
    assert b == a + (b - a);
  }

  /**
   One mask of initG from a run of random positions: it takes as many different positions as there are bits to sample,
   and then the mask samples exactly so many bits, all of them drawn, and never bit 0, the lowest bit of the first
   character.
   */
  method SampleMask(draws: seq<nat>, smplBits: nat) returns (r: Option<Bits>)
    requires forall d :: d in draws ==> d <= TOTAL_BITS - 2
    ensures r.Some? <==> |Drawn(draws)| >= smplBits
    ensures r.Some? ==> |r.value| == TOTAL_BITS && Count(r.value) == smplBits && !r.value[0]
    ensures r.Some? ==> forall p :: 0 < p < TOTAL_BITS && r.value[p] ==> p - 1 in draws
  {
    hide Drawn, Count;
    var g: Bits := seq(TOTAL_BITS, i => false);
    OnesOfZeros(TOTAL_BITS);
    NothingDrawn(draws);
    var k, next := 0, 0;
    while k < smplBits
      invariant |g| == TOTAL_BITS && Count(g) == k <= smplBits && !g[0] && next <= |draws|
      invariant k == |Drawn(draws[..next])| && forall p :: 0 < p < TOTAL_BITS ==> (g[p] <==> p - 1 in draws[..next])
      decreases |draws| - next
    {
      if next == |draws| {
        assert draws[..next] == draws;
        return None;
      }
      var rPos := draws[next];
      assert rPos in draws && draws[..next + 1] == draws[..next] + [rPos];
      DrawnStep(draws, next);
      next := next + 1;
      if !g[rPos + 1] {
        OnesFlip(g, rPos + 1);
        g := g[rPos + 1 := true];
        k := k + 1;
      }
    }
    DrawnPrefix(draws, next);
    r := Some(g);
  }

  lemma NothingDrawn(draws: seq<nat>)
    ensures Drawn(draws[..0]) == {}
  {
  }
}
