/**
 The 160-bit identifiers of the distributed hash table (src/dht/DHTKey.cpp), at any width: ripple-carry
 arithmetic is arithmetic modulo 2^N, the scans are the numeric order, and the four circular intervals are
 ranges of the clockwise distance from their left end.
 */
module RingKey {
  import opened Binary

  const KEYNBITS: nat := 160

  type Key = Bits

  /** The number of keys of the width of a. */
  function Size(a: Key): (p: nat)
    ensures p > 0
  {
    Pow2(|a|)
  }

  /** The sum on the ring. */
  function Sum(a: Key, b: Key): (k: Key)
    requires |a| == |b|
    ensures |k| == |a|
  {
    ValBound(a);
    ValBound(b);
    ToBits(Wrap(Val(a) + Val(b), Size(a)), |a|)
  }

  /** The difference on the ring. */
  function Difference(a: Key, b: Key): (k: Key)
    requires |a| == |b|
    ensures |k| == |a|
  {
    ValBound(a);
    ValBound(b);
    ToBits(Wrap(Val(a) - Val(b), Size(a)), |a|)
  }

  /** Ring arithmetic is arithmetic modulo 2^N. */
  lemma SumIsModular(a: Key, b: Key)
    requires |a| == |b|
    ensures Val(Sum(a, b)) == (Val(a) + Val(b)) % Pow2(|a|)
    ensures Val(Difference(a, b)) == (Val(a) - Val(b)) % Pow2(|a|)
  {
    ValBound(a);
    ValBound(b);
    WrapIsMod(Val(a) + Val(b), Size(a));
    WrapIsMod(Val(a) - Val(b), Size(a));
  }

  /** The key with the value 2^inc, zero when the bit falls off either end. */
  function PowerKey(inc: int, n: nat): (k: Key)
    ensures |k| == n
  {
    seq(n, i => i == inc)
  }

  /** How far one walks clockwise from a to reach x. */
  function Distance(a: Key, x: Key): (d: nat)
    requires |a| == |x|
    ensures d < Size(a)
  {
    ValBound(a);
    ValBound(x);
    Wrap(Val(x) - Val(a), Size(a))
  }

  lemma DistanceIsModular(a: Key, x: Key)
    requires |a| == |x|
    ensures Distance(a, x) == (Val(x) - Val(a)) % Pow2(|a|)
  {
    ValBound(a);
    ValBound(x);
    WrapIsMod(Val(x) - Val(a), Size(a));
  }

  predicate InOpen(x: Key, a: Key, b: Key)
    requires |x| == |a| == |b|
  {
    if a == b then x != a else 0 < Distance(a, x) < Distance(a, b)
  }

  predicate InClosed(x: Key, a: Key, b: Key)
    requires |x| == |a| == |b|
  {
    a == b || Distance(a, x) <= Distance(a, b)
  }

  predicate InLeftClosed(x: Key, a: Key, b: Key)
    requires |x| == |a| == |b|
  {
    a == b || Distance(a, x) < Distance(a, b)
  }

  predicate InRightClosed(x: Key, a: Key, b: Key)
    requires |x| == |a| == |b|
  {
    a == b || 0 < Distance(a, x) <= Distance(a, b)
  }

  function And(a: Bits, b: Bits): (r: Bits)
    requires |a| == |b|
  {
    seq(|a|, i requires 0 <= i < |a| => a[i] && b[i])
  }

  function Xor(a: Bits, b: Bits): (r: Bits)
    requires |a| == |b|
  {
    seq(|a|, i requires 0 <= i < |a| => a[i] != b[i])
  }

  /** Where no bit conflicts, exclusive or is addition. */
  lemma {:induction false} XorAddsDisjoint(a: Bits, b: Bits)
    requires |a| == |b|
    requires forall i :: 0 <= i < |a| ==> !(a[i] && b[i])
    ensures Val(Xor(a, b)) == Val(a) + Val(b)
  {
    if |a| > 0 {
      var n := |a| - 1;
      XorAddsDisjoint(a[..n], b[..n]);
      assert Xor(a, b)[..n] == Xor(a[..n], b[..n]);
    }
  }

  lemma XorIsSum(a: Bits, b: Bits)
    requires |a| == |b|
    requires forall i :: 0 <= i < |a| ==> !(a[i] && b[i])
    ensures Xor(a, b) == Sum(a, b)
  {
    XorAddsDisjoint(a, b);
    ValBound(Xor(a, b));
    ValInjective(Xor(a, b), Sum(a, b));
  }

  lemma SumFromCarry(a: Key, b: Key, res: Key, carry: bool)
    requires |a| == |b| == |res|
    requires Val(res[..|a|]) + Weight(carry, |a|) == Val(a[..|a|]) + Val(b[..|a|])
    ensures res == Sum(a, b)
  {
    assert res[..|a|] == res && a[..|a|] == a && b[..|a|] == b;
    ValBound(a);
    ValBound(b);
    ValBound(res);
    ValInjective(res, Sum(a, b));
  }

  lemma DifferenceFromBorrow(a: Key, b: Key, res: Key, borrow: bool)
    requires |a| == |b| == |res|
    requires Val(a[..|a|]) + Weight(borrow, |a|) == Val(res[..|a|]) + Val(b[..|a|])
    ensures res == Difference(a, b)
  {
    assert res[..|a|] == res && a[..|a|] == a && b[..|a|] == b;
    ValBound(a);
    ValBound(b);
    ValBound(res);
    ValInjective(res, Difference(a, b));
  }

  /** One step of the ripple: the bit written and the carry out add up to the bits read and the carry in. */
  lemma RippleStep(a: Key, b: Key, before: Key, res: Key, i: nat, carry: bool, out: bool)
    requires |a| == |b| == |res| == |before| && i < |a|
    requires res[..i] == before[..i]
    requires Val(before[..i]) + Weight(carry, i) == Val(a[..i]) + Val(b[..i])
    requires res[i] == ((a[i] != b[i]) != carry)
    requires out == ((a[i] && b[i]) || (carry && (a[i] || b[i])))
    ensures Val(res[..i + 1]) + Weight(out, i + 1) == Val(a[..i + 1]) + Val(b[..i + 1])
  {
    ValPrefix(a, i);
    ValPrefix(b, i);
    ValPrefix(res, i);
  }

  /** The borrowing step is the carrying step of the sum read backwards: a = (a - b) + b. */
  lemma BorrowStep(a: Key, b: Key, before: Key, res: Key, i: nat, borrow: bool, out: bool)
    requires |a| == |b| == |res| == |before| && i < |a|
    requires res[..i] == before[..i]
    requires Val(a[..i]) + Weight(borrow, i) == Val(before[..i]) + Val(b[..i])
    requires res[i] == ((a[i] != b[i]) != borrow)
    requires out == ((!a[i] && b[i]) || (borrow && (!a[i] || b[i])))
    ensures Val(a[..i + 1]) + Weight(out, i + 1) == Val(res[..i + 1]) + Val(b[..i + 1])
  {
    ValPrefix(a, i);
    ValPrefix(b, i);
    ValPrefix(res, i);
  }

  /** Turning a run of low ones to zeros and the zero above it to one adds one. */
  lemma NextNumber(low: Key, high: Key, c: nat)
    requires |low| == |high| && c < |low|
    requires forall i :: 0 <= i < c ==> low[i] && !high[i]
    requires !low[c] && high[c]
    requires forall i :: c < i < |low| ==> low[i] == high[i]
    ensures Val(high) == Val(low) + 1
  {
    ValSplit(low, c + 1);
    ValSplit(high, c + 1);
    assert low[c + 1..] == high[c + 1..];
    ValPrefix(low, c);
    ValPrefix(high, c);
    ValOnes(low[..c]);
    ValZero(high[..c]);
  }

  class DHTKey {
    var bits: Key

    constructor (k: Key)
      ensures bits == k
    {
      bits := k;
    }

    /** operator+ : exclusive or when no bit conflicts, else a ripple carry. */
    method Plus(dk: Key) returns (res: Key)
      requires |dk| == |bits|
      ensures res == Sum(bits, dk)
    {
      res := And(bits, dk);
      CountZero(res);
      if Count(res) == 0 {
        assert forall i :: 0 <= i < |res| ==> res[i] == (bits[i] && dk[i]);
        XorIsSum(bits, dk);
        return Xor(bits, dk);
      }
      res := bits;
      var ret := 0;
      var i := 0;
      while i < |res|
        invariant 0 <= i <= |res| == |bits|
        invariant 0 <= ret <= 1
        invariant forall j :: i <= j < |bits| ==> res[j] == bits[j]
        invariant Val(res[..i]) + Weight(ret == 1, i) == Val(bits[..i]) + Val(dk[..i])
      {
        ghost var before, carry := res, ret == 1;
        if res[i] && dk[i] {
          if ret > 0 {
            res := res[i := true];
            ret := ret - 1;
          } else {
            res := res[i := false];
          }
          ret := ret + 1;
        } else if !res[i] && !dk[i] {
          if ret > 0 {
            ret := ret - 1;
            res := res[i := true];
          }
        } else {
          if ret == 0 {
            res := res[i := true];
          } else {
            res := res[i := false];
          }
        }
        RippleStep(bits, dk, before, res, i, carry, ret == 1);
        i := i + 1;
      }
      SumFromCarry(bits, dk, res, ret == 1);
    }

    /** operator- : a ripple borrow. */
    method Minus(dk: Key) returns (res: Key)
      requires |dk| == |bits|
      ensures res == Difference(bits, dk)
    {
      res := bits;
      var ret := 0;
      var i := 0;
      while i < |res|
        invariant 0 <= i <= |res| == |bits|
        invariant 0 <= ret <= 1
        invariant forall j :: i <= j < |bits| ==> res[j] == bits[j]
        invariant Val(bits[..i]) + Weight(ret == 1, i) == Val(res[..i]) + Val(dk[..i])
      {
        ghost var before, borrow := res, ret == 1;
        if res[i] && dk[i] {
          if ret > 0 {
            res := res[i := true];
          } else {
            res := res[i := false];
          }
        } else if !res[i] && !dk[i] {
          if ret > 0 {
            res := res[i := true];
          }
        } else if !res[i] && dk[i] {
          if ret == 0 {
            res := res[i := true];
            ret := ret + 1;
          } else {
            res := res[i := false];
          }
        } else {
          if ret > 0 {
            res := res[i := false];
            ret := ret - 1;
          }
        }
        BorrowStep(bits, dk, before, res, i, borrow, ret == 1);
        i := i + 1;
      }
      DifferenceFromBorrow(bits, dk, res, ret == 1);
    }

    /** operator++ : in place, wrapping to zero. */
    method Increment() returns (r: Key)
      modifies this
      ensures |bits| == |old(bits)| && r == bits
      ensures Val(bits) == if Val(old(bits)) + 1 == Size(old(bits)) then 0 else Val(old(bits)) + 1
    {
      var count := 0;
      while count < |bits|
        invariant 0 <= count <= |bits| == |old(bits)|
        invariant forall i :: 0 <= i < count ==> old(bits)[i] && !bits[i]
        invariant forall j :: count <= j < |bits| ==> bits[j] == old(bits)[j]
      {
        if !bits[count] {
          bits := bits[count := true];
          NextNumber(old(bits), bits, count);
          ValBound(bits);
          return bits;
        } else {
          bits := bits[count := false];
        }
        count := count + 1;
      }
      ValZero(bits);
      ValOnes(old(bits));
      return bits;
    }

    /** operator-- : in place, wrapping to the largest key. */
    method Decrement() returns (r: Key)
      modifies this
      ensures |bits| == |old(bits)| && r == bits
      ensures Val(bits) == if Val(old(bits)) == 0 then Size(old(bits)) - 1 else Val(old(bits)) - 1
    {
      var count := 0;
      while count < |bits|
        invariant 0 <= count <= |bits| == |old(bits)|
        invariant forall i :: 0 <= i < count ==> !old(bits)[i] && bits[i]
        invariant forall j :: count <= j < |bits| ==> bits[j] == old(bits)[j]
      {
        if bits[count] {
          bits := bits[count := false];
          NextNumber(bits, old(bits), count);
          return bits;
        } else {
          bits := bits[count := true];
        }
        count := count + 1;
      }
      ValZero(old(bits));
      ValOnes(bits);
      return bits;
    }

    /** operator< : a scan from the most significant bit. */
    method Less(dk: Key) returns (r: bool)
      requires |dk| == |bits|
      ensures r <==> Val(bits) < Val(dk)
    {
      var i := |bits| - 1;
      while i >= 0
        invariant -1 <= i < |bits|
        invariant forall j :: i < j < |bits| ==> bits[j] == dk[j]
      {
        if !bits[i] && dk[i] {
          TopBitDecides(bits, dk, i);
          return true;
        } else if bits[i] && !dk[i] {
          TopBitDecides(dk, bits, i);
          return false;
        }
        i := i - 1;
      }
      assert bits == dk;
      return false;
    }

    /** operator<= */
    method AtMost(dk: Key) returns (r: bool)
      requires |dk| == |bits|
      ensures r <==> Val(bits) <= Val(dk)
    {
      var i := |bits| - 1;
      while i >= 0
        invariant -1 <= i < |bits|
        invariant forall j :: i < j < |bits| ==> bits[j] == dk[j]
      {
        if !bits[i] && dk[i] {
          TopBitDecides(bits, dk, i);
          return true;
        } else if bits[i] && !dk[i] {
          TopBitDecides(dk, bits, i);
          return false;
        }
        i := i - 1;
      }
      assert bits == dk;
      return true;
    }

    /** operator> */
    method Greater(dk: Key) returns (r: bool)
      requires |dk| == |bits|
      ensures r <==> Val(bits) > Val(dk)
    {
      var i := |bits| - 1;
      while i >= 0
        invariant -1 <= i < |bits|
        invariant forall j :: i < j < |bits| ==> bits[j] == dk[j]
      {
        if bits[i] && !dk[i] {
          TopBitDecides(dk, bits, i);
          return true;
        } else if !bits[i] && dk[i] {
          TopBitDecides(bits, dk, i);
          return false;
        }
        i := i - 1;
      }
      assert bits == dk;
      return false;
    }

    /** operator>= */
    method AtLeast(dk: Key) returns (r: bool)
      requires |dk| == |bits|
      ensures r <==> Val(bits) >= Val(dk)
    {
      var i := |bits| - 1;
      while i >= 0
        invariant -1 <= i < |bits|
        invariant forall j :: i < j < |bits| ==> bits[j] == dk[j]
      {
        if bits[i] && !dk[i] {
          TopBitDecides(dk, bits, i);
          return true;
        } else if !bits[i] && dk[i] {
          TopBitDecides(bits, dk, i);
          return false;
        }
        i := i - 1;
      }
      assert bits == dk;
      return true;
    }

    /** operator== : no bit differs. */
    method Equals(dk: Key) returns (r: bool)
      requires |dk| == |bits|
      ensures r <==> bits == dk
    {
      var x := Xor(bits, dk);
      assert forall i :: 0 <= i < |x| ==> x[i] == (bits[i] != dk[i]);
      CountZero(x);
      r := Count(x) == 0;
    }

    method Successor(inc: int) returns (r: Key)
      ensures r == Sum(bits, PowerKey(inc, |bits|))
    {
      r := Plus(PowerKey(inc, |bits|));
    }

    method Predecessor(dec: int) returns (r: Key)
      ensures r == Difference(bits, PowerKey(dec, |bits|))
    {
      r := Minus(PowerKey(dec, |bits|));
    }

    /** In (a, b) on the circle; everything but a when the ends coincide. */
    method Between(a: DHTKey, b: DHTKey) returns (r: bool)
      requires |bits| == |a.bits| == |b.bits|
      ensures r <==> InOpen(bits, a.bits, b.bits)
    {
      DistanceOnLine(a.bits, bits);
      DistanceOnLine(a.bits, b.bits);
      var same := a.Equals(b.bits);
      if same {
        var e := Equals(a.bits);
        return !e;
      }
      var less := a.Less(b.bits);
      var below := Less(b.bits);
      var above := Greater(a.bits);
      return if less then below && above else below || above;
    }

    /** In [a, b] on the circle. */
    method Incl(a: DHTKey, b: DHTKey) returns (r: bool)
      requires |bits| == |a.bits| == |b.bits|
      ensures r <==> InClosed(bits, a.bits, b.bits)
    {
      DistanceOnLine(a.bits, bits);
      DistanceOnLine(a.bits, b.bits);
      var same := a.Equals(b.bits);
      var e := Equals(a.bits);
      if same && e {
        return true;
      }
      var less := a.Less(b.bits);
      var below := AtMost(b.bits);
      var above := AtLeast(a.bits);
      return if less then below && above else below || above;
    }

    /** In [a, b) on the circle. */
    method LeftIncl(a: DHTKey, b: DHTKey) returns (r: bool)
      requires |bits| == |a.bits| == |b.bits|
      ensures r <==> InLeftClosed(bits, a.bits, b.bits)
    {
      DistanceOnLine(a.bits, bits);
      DistanceOnLine(a.bits, b.bits);
      var same := a.Equals(b.bits);
      var e := Equals(a.bits);
      if same && e {
        return true;
      }
      var less := a.Less(b.bits);
      var below := Less(b.bits);
      var above := AtLeast(a.bits);
      return if less then below && above else below || above;
    }

    /** In (a, b] on the circle. */
    method RightIncl(a: DHTKey, b: DHTKey) returns (r: bool)
      requires |bits| == |a.bits| == |b.bits|
      ensures r <==> InRightClosed(bits, a.bits, b.bits)
    {
      DistanceOnLine(a.bits, bits);
      DistanceOnLine(a.bits, b.bits);
      var same := a.Equals(b.bits);
      var e := Equals(a.bits);
      if same && e {
        return true;
      }
      var less := a.Less(b.bits);
      var below := AtMost(b.bits);
      var above := Greater(a.bits);
      return if less then below && above else below || above;
    }
  }

  /** The highest differing bit decides the order. */
  lemma TopBitDecides(a: Key, b: Key, i: nat)
    requires |a| == |b| && i < |a|
    requires forall j :: i < j < |a| ==> a[j] == b[j]
    requires !a[i] && b[i]
    ensures Val(a) < Val(b)
  {
    ValSplit(a, i + 1);
    ValSplit(b, i + 1);
    assert a[i + 1..] == b[i + 1..];
    assert a[..i + 1][..i] == a[..i] && b[..i + 1][..i] == b[..i];
    ValBound(a[..i]);
  }

  /** The distance in terms of the order on the line; zero only from a key to itself. */
  lemma DistanceOnLine(a: Key, x: Key)
    requires |a| == |x|
    ensures Val(a) < Size(a) && Val(x) < Size(a)
    ensures Distance(a, x) == if Val(a) <= Val(x) then Val(x) - Val(a) else Val(x) - Val(a) + Size(a)
    ensures Distance(a, x) == 0 <==> a == x
    ensures Val(a) == Val(x) <==> a == x
  {
    ValBound(a);
    ValBound(x);
    if Val(a) == Val(x) {
      ValInjective(a, x);
    }
  }

  /** The four intervals as ranges of (x - a) modulo 2^N; when the ends coincide, all keys or all but one. */
  lemma IntervalsMean(x: Key, a: Key, b: Key, d: nat, e: nat)
    requires |x| == |a| == |b|
    requires d == (Val(x) - Val(a)) % Pow2(|a|) && e == (Val(b) - Val(a)) % Pow2(|a|)
    ensures InOpen(x, a, b) <==> if a == b then x != a else 0 < d < e
    ensures InClosed(x, a, b) <==> a == b || d <= e
    ensures InLeftClosed(x, a, b) <==> a == b || d < e
    ensures InRightClosed(x, a, b) <==> a == b || 0 < d <= e
  {
    hide Val, Pow2, Distance;
    DistanceIsModular(a, x);
    DistanceIsModular(a, b);
  }

  // ----- The laws of the ring -----

  /** Adding the same key to both ends of a walk does not change its length. */
  lemma DistanceRotates(a: Key, x: Key, k: Key)
    requires |a| == |x| == |k|
    ensures Distance(Sum(a, k), Sum(x, k)) == Distance(a, x)
  {
    ValBound(a);
    ValBound(x);
    ValBound(k);
    assert Val(Sum(a, k)) == Wrap(Val(a) + Val(k), Size(a));
    assert Val(Sum(x, k)) == Wrap(Val(x) + Val(k), Size(a));
  }

  /** All four intervals are invariant under rotating the ring. */
  lemma IntervalsRotate(x: Key, a: Key, b: Key, k: Key)
    requires |x| == |a| == |b| == |k|
    ensures InOpen(Sum(x, k), Sum(a, k), Sum(b, k)) <==> InOpen(x, a, b)
    ensures InClosed(Sum(x, k), Sum(a, k), Sum(b, k)) <==> InClosed(x, a, b)
    ensures InLeftClosed(Sum(x, k), Sum(a, k), Sum(b, k)) <==> InLeftClosed(x, a, b)
    ensures InRightClosed(Sum(x, k), Sum(a, k), Sum(b, k)) <==> InRightClosed(x, a, b)
  {
    DistanceRotates(a, x, k);
    DistanceRotates(a, b, k);
    DistanceOnLine(a, b);
    DistanceOnLine(a, x);
    DistanceOnLine(Sum(a, k), Sum(b, k));
    DistanceOnLine(Sum(a, k), Sum(x, k));
  }

  /** Two distinct keys cut the ring into the arcs (a, b] and (b, a]: every key lies in exactly one. */
  lemma ArcsPartition(x: Key, a: Key, b: Key)
    requires |x| == |a| == |b| && a != b
    ensures InRightClosed(x, a, b) <==> !InRightClosed(x, b, a)
    ensures InLeftClosed(x, a, b) <==> !InLeftClosed(x, b, a)
    ensures InClosed(x, a, b) <==> !InOpen(x, b, a)
  {
    DistanceOnLine(a, x);
    DistanceOnLine(a, b);
    DistanceOnLine(b, x);
    DistanceOnLine(b, a);
  }

  lemma SubtractionUndoesAddition(a: Key, k: Key)
    requires |a| == |k|
    ensures Difference(Sum(a, k), k) == a
    ensures Sum(Difference(a, k), k) == a
  {
    ValBound(a);
    ValBound(k);
    assert Val(Sum(a, k)) == Wrap(Val(a) + Val(k), Size(a));
    assert Val(Difference(a, k)) == Wrap(Val(a) - Val(k), Size(a));
    ValInjective(Difference(Sum(a, k), k), a);
    ValInjective(Sum(Difference(a, k), k), a);
  }

  /** successor(i) steps by 2^i, and predecessor(i) steps back, for every i, in range or not. */
  lemma PredecessorUndoesSuccessor(a: Key, i: int)
    ensures Val(PowerKey(i, |a|)) == if 0 <= i < |a| then Pow2(i) else 0
    ensures Difference(Sum(a, PowerKey(i, |a|)), PowerKey(i, |a|)) == a
  {
    var k := PowerKey(i, |a|);
    if 0 <= i < |a| {
      ValOneBit(k, i);
    } else {
      ValZero(k);
    }
    SubtractionUndoesAddition(a, k);
  }
}
