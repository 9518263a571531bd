/**
 Bit strings as numbers. Index 0 is the least significant bit, as in std::bitset.
 */
module Binary {
  type Bits = seq<bool>

  type Byte = x: int | 0 <= x < 256

  /** How many bits are set. */
  function Count(b: Bits): (c: nat)
    ensures c <= |b|
  {
    if |b| == 0 then 0 else Count(b[..|b| - 1]) + if b[|b| - 1] then 1 else 0
  }

  lemma {:induction false} CountZero(b: Bits)
    ensures Count(b) == 0 <==> forall i :: 0 <= i < |b| ==> !b[i]
  {
    if |b| > 0 {
      var n := |b| - 1;
      CountZero(b[..n]);
      assert b == b[..n] + [b[n]];
    }
  }

  function Pow2(n: nat): (p: nat)
    ensures p > 0
  {
    if n == 0 then 1 else 2 * Pow2(n - 1)
  }

  /** v * 2^n, by doubling. */
  function Shl(v: nat, n: nat): (r: nat) {
    if n == 0 then v else 2 * Shl(v, n - 1)
  }

  /** The weight of a bit at position n. */
  function Weight(b: bool, n: nat): (w: nat) {
    if b then Pow2(n) else 0
  }

  /** The number a bit string denotes. */
  function Val(b: Bits): (v: nat) {
    if |b| == 0 then 0 else Val(b[..|b| - 1]) + Weight(b[|b| - 1], |b| - 1)
  }

  lemma {:induction false} ValBound(b: Bits)
    ensures Val(b) < Pow2(|b|)
  {
    if |b| > 0 {
      ValBound(b[..|b| - 1]);
    }
  }

  lemma {:induction false} ShlIsProduct(v: nat, n: nat)
    ensures Shl(v, n) == v * Pow2(n)
  {
    if n > 0 {
      ShlIsProduct(v, n - 1);
      assert v * (2 * Pow2(n - 1)) == 2 * (v * Pow2(n - 1));
    }
  }

  lemma {:induction false} ShlAdd(u: nat, v: nat, n: nat)
    ensures Shl(u + v, n) == Shl(u, n) + Shl(v, n)
  {
    if n > 0 {
      ShlAdd(u, v, n - 1);
    }
  }

  lemma {:induction false} ShlTwice(v: nat, m: nat, n: nat)
    ensures Shl(Shl(v, m), n) == Shl(v, m + n)
  {
    if n > 0 {
      ShlTwice(v, m, n - 1);
      assert m + n - 1 == m + (n - 1);
    }
  }

  lemma {:induction false} ShlWeight(b: bool, m: nat, n: nat)
    ensures Shl(Weight(b, m), n) == Weight(b, m + n)
  {
    if n > 0 {
      ShlWeight(b, m, n - 1);
      assert m + n - 1 == m + (n - 1);
    }
  }

  /** Bit strings of one width denote different numbers. */
  lemma {:induction false} ValInjective(a: Bits, b: Bits)
    requires |a| == |b|
    requires Val(a) == Val(b)
    ensures a == b
  {
    if |a| > 0 {
      var n := |a| - 1;
      ValBound(a[..n]);
      ValBound(b[..n]);
      assert a[n] == b[n];
      ValInjective(a[..n], b[..n]);
      assert a == a[..n] + [a[n]] && b == b[..n] + [b[n]];
    }
  }

  /** The low k bits and the rest. */
  lemma {:induction false} ValSplit(b: Bits, k: nat)
    requires k <= |b|
    ensures Val(b) == Val(b[..k]) + Shl(Val(b[k..]), k)
  {
    if k == |b| {
      assert b[..k] == b;
      ShlIsProduct(0, k);
    } else {
      var n := |b| - 1;
      ValSplit(b[..n], k);
      assert b[..n][..k] == b[..k];
      assert b[..n][k..] == b[k..][..n - k];
      ShlAdd(Val(b[k..][..n - k]), Weight(b[n], n - k), k);
      ShlWeight(b[n], n - k, k);
    }
  }

  /** A bit string read from its lowest bit on: twice the rest, and one for a set bit. */
  lemma ValFromLow(b: Bits)
    ensures |b| == 0 ==> Val(b) == 0
    ensures |b| > 0 ==> Val(b) == (if b[0] then 1 else 0) + 2 * Val(b[1..])
  {
    if |b| > 0 {
      ValSplit(b, 1);
      assert b[..1] == [b[0]];
      assert Val([b[0]]) == if b[0] then 1 else 0;
      assert Shl(Val(b[1..]), 1) == 2 * Val(b[1..]);
    }
  }

  /** Pow2(n) is two to the n. */
  lemma PowersOfTwo(n: nat)
    ensures Pow2(0) == 1 && Pow2(n + 1) == 2 * Pow2(n)
  {
  }

  lemma {:induction false} ShlMonotone(u: nat, v: nat, n: nat)
    requires u < v
    ensures Shl(u, n) + Pow2(n) <= Shl(v, n)
  {
    if n > 0 {
      ShlMonotone(u, v, n - 1);
    }
  }

  /** A value less than one modulus away from the range, brought back by at most one step. */
  function Wrap(x: int, p: int): (r: nat)
    requires -p <= x < 2 * p && p > 0
    ensures r < p
  {
    if x < 0 then x + p else if x < p then x else x - p
  }

  lemma WrapIsMod(x: int, p: int)
    requires -p <= x < 2 * p && p > 0
    ensures Wrap(x, p) == x % p
  {
    var q := if x < 0 then -1 else if x < p then 0 else 1;
    var r := x - q * p;
    assert 0 <= r < p;
    QuotientUnique(x, q, r, p);
  }

  lemma QuotientUnique(x: int, q: int, r: int, p: int)
    requires p > 0 && x == q * p + r && 0 <= r < p
    ensures x % p == r
  {
    var e := q - x / p;
    assert e * p == x % p - r by {
      assert x == (x / p) * p + x % p;
      assert e * p == q * p - (x / p) * p;
    }
    MultipleIsFar(e, p);
  }

  /** A reduced summand may be reduced before. */
  lemma ModOfSum(x: nat, v: nat, p: nat)
    requires p > 0
    ensures (x + v) % p == (x % p + v) % p
  {
    var r, q := x % p + v, x / p;
    assert x == q * p + x % p;
    assert (q + r / p) * p == q * p + (r / p) * p;
    QuotientUnique(x + v, q + r / p, r % p, p);
  }

  lemma MultipleIsFar(e: int, p: int)
    requires p > 0
    ensures e >= 1 ==> e * p >= p
    ensures e <= -1 ==> e * p <= -p
  {
  }

  /** The bits of width n that denote v. */
  function ToBits(v: nat, n: nat): (b: Bits)
    ensures |b| == n
    ensures v < Pow2(n) ==> Val(b) == v
  {
    if n == 0 then []
    else
      var top := v >= Pow2(n - 1);
      var rest := ToBits(if top then v - Pow2(n - 1) else v, n - 1);
      assert (rest + [top])[..n - 1] == rest;
      rest + [top]
  }

  lemma {:induction false} ValZero(b: Bits)
    requires forall i :: 0 <= i < |b| ==> !b[i]
    ensures Val(b) == 0
  {
    if |b| > 0 {
      ValZero(b[..|b| - 1]);
    }
  }

  lemma {:induction false} ValOnes(b: Bits)
    requires forall i :: 0 <= i < |b| ==> b[i]
    ensures Val(b) == Pow2(|b|) - 1
  {
    if |b| > 0 {
      ValOnes(b[..|b| - 1]);
    }
  }

  lemma ValPrefix(b: Bits, i: nat)
    requires i < |b|
    ensures Val(b[..i + 1]) == Val(b[..i]) + Weight(b[i], i)
  {
    assert b[..i + 1][..i] == b[..i];
  }

  /** A single set bit. */
  lemma {:induction false} ValOneBit(b: Bits, k: nat)
    requires k < |b|
    requires forall i :: 0 <= i < |b| ==> b[i] == (i == k)
    ensures Val(b) == Pow2(k)
  {
    var n := |b| - 1;
    if k == n {
      ValZero(b[..n]);
    } else {
      ValOneBit(b[..n], k);
    }
  }
}
