/**
 The text and byte forms of a ring key (src/dht/DHTKey.cpp): to_rstring, from_rstring and convert. Both forms are
 positional numerals, base 16 and base 256, most significant digit first.
 */
module KeyText {
  import opened Wrappers
  import opened Binary
  import opened RingKey

  datatype KeyError = OutOfRange

  /** The number written with digits of w bits each, most significant first. */
  function Number(ds: seq<nat>, w: nat): (v: nat) {
    if |ds| == 0 then 0 else Shl(Number(ds[..|ds| - 1], w), w) + ds[|ds| - 1]
  }

  predicate AllBelow(ds: seq<nat>, w: nat) {
    forall i :: 0 <= i < |ds| ==> ds[i] < Pow2(w)
  }

  lemma LastDigit(x: nat, y: nat, d: nat, e: nat, w: nat)
    requires d < Pow2(w) && e < Pow2(w) && Shl(x, w) + d == Shl(y, w) + e
    ensures x == y && d == e
  {
    hide Shl, Pow2;
    if x < y {
      ShlMonotone(x, y, w);
    } else if y < x {
      ShlMonotone(y, x, w);
    }
  }

  /** A numeral of a given length determines its digits. */
  lemma {:induction false} NumberInjective(a: seq<nat>, b: seq<nat>, w: nat)
    requires |a| == |b| && AllBelow(a, w) && AllBelow(b, w)
    requires Number(a, w) == Number(b, w)
    ensures a == b
  {
    if |a| > 0 {
      var n := |a| - 1;
      var x, y := Number(a[..n], w), Number(b[..n], w);
      assert Shl(x, w) + a[n] == Shl(y, w) + b[n];
      hide Shl, Pow2, Number;
      LastDigit(x, y, a[n], b[n], w);
      NumberInjective(a[..n], b[..n], w);
      assert a == a[..n] + [a[n]] && b == b[..n] + [b[n]];
    }
  }

  /** A digit more: the base times what there was, and the digit. */
  lemma NumberMeans(ds: seq<nat>, d: nat)
    ensures Number([], 4) == 0 && Number([], 8) == 0
    ensures Number(ds + [d], 4) == 16 * Number(ds, 4) + d
    ensures Number(ds + [d], 8) == 256 * Number(ds, 8) + d
  {
    assert (ds + [d])[..|ds|] == ds;
    assert Pow2(4) == 16 && Pow2(8) == 256;
    hide Shl, Pow2;
    ShlIsProduct(Number(ds, 4), 4);
    ShlIsProduct(Number(ds, 8), 8);
  }

  /** The number of n digits is below the n-th power of the base. */
  lemma {:induction false} NumberBound(ds: seq<nat>, w: nat)
    requires AllBelow(ds, w)
    ensures Number(ds, w) < Pow2(w * |ds|)
  {
    if |ds| > 0 {
      var n := |ds| - 1;
      NumberBound(ds[..n], w);
      var x := Number(ds[..n], w);
      assert w * n + w == w * |ds|;
      hide Shl, Pow2;
      ShlMonotone(x, Pow2(w * n), w);
      ShlOfPower(w * n, w);
    }
  }

  lemma {:induction false} ShlOfPower(m: nat, n: nat)
    ensures Shl(Pow2(m), n) == Pow2(m + n)
  {
    if n > 0 {
      ShlOfPower(m, n - 1);
    }
  }

  /** Writing the w bits of a digit below the bits written so far appends the digit to the numeral. */
  lemma DigitBelow(k: Key, lo: nat, d: nat, w: nat)
    requires lo + w <= |k| && d < Pow2(w)
    requires k[lo..lo + w] == ToBits(d, w)
    ensures Val(k[lo..]) == Shl(Val(k[lo + w..]), w) + d
  {
    ValSplit(k[lo..], w);
    assert k[lo..][..w] == k[lo..lo + w];
    assert k[lo..][w..] == k[lo + w..];
  }

  lemma DigitWritten(before: Key, k: Key, lo: nat, d: nat, w: nat)
    requires |before| == |k| && lo + w <= |k| && d < Pow2(w)
    requires forall m :: 0 <= m < w ==> k[lo + m] == ToBits(d, w)[m]
    requires forall m :: lo + w <= m < |k| ==> k[m] == before[m]
    ensures Val(k[lo..]) == Shl(Val(before[lo + w..]), w) + d
  {
    assert k[lo..lo + w] == ToBits(d, w);
    assert k[lo + w..] == before[lo + w..];
    DigitBelow(k, lo, d, w);
  }

  // ----- Hexadecimal digits -----

  const LOWER_HEX: string := "0123456789abcdef"

  predicate IsLowerHex(c: char) {
    '0' <= c <= '9' || 'a' <= c <= 'f'
  }

  /** strtoul(c, NULL, 16) on one character: zero when it is not a digit. */
  function DigitOf(c: char): (d: nat)
    ensures d < 16
  {
    if '0' <= c <= '9' then (c - '0') as int
    else if 'a' <= c <= 'f' then (c - 'a') as int + 10
    else if 'A' <= c <= 'F' then (c - 'A') as int + 10
    else 0
  }

  function Digits(s: string): (ds: seq<nat>)
    ensures |ds| == |s|
    ensures forall i :: 0 <= i < |s| ==> ds[i] == DigitOf(s[i])
    ensures AllBelow(ds, 4)
  {
    assert Pow2(4) == 16;
    seq(|s|, i requires 0 <= i < |s| => DigitOf(s[i]))
  }

  /** c is the digit d, small or capital. */
  predicate IsDigit(c: char, d: nat) {
    d < 16 && (c == "0123456789abcdef"[d] || c == "0123456789ABCDEF"[d])
  }

  ghost predicate IsHexDigit(c: char) {
    exists d: nat :: IsDigit(c, d)
  }

  /** A number in hexadecimal, digits and letters of either case, leading zeros allowed: by division by sixteen. */
  ghost predicate Writes(t: string, n: nat)
    decreases |t|
  {
    |t| > 0 && IsDigit(t[|t| - 1], n % 16) && if |t| == 1 then n < 16 else Writes(t[..|t| - 1], n / 16)
  }

  lemma DigitsOfBothCases(c: char, d: nat)
    ensures IsDigit(c, d) ==> DigitOf(c) == d
  {
  }

  /** A hexadecimal digit stands for itself, any other character for zero. */
  lemma DigitMeans(c: char)
    ensures IsHexDigit(c) <==> '0' <= c <= '9' || 'a' <= c <= 'f' || 'A' <= c <= 'F'
    ensures IsHexDigit(c) ==> IsDigit(c, DigitOf(c))
    ensures !IsHexDigit(c) ==> DigitOf(c) == 0
  {
    if '0' <= c <= '9' || 'a' <= c <= 'f' || 'A' <= c <= 'F' {
      DigitIsItself(c);
    }
    if d: nat :| IsDigit(c, d) {
      DigitIsInRange(c, d);
    }
  }

  lemma DigitIsItself(c: char)
    requires '0' <= c <= '9' || 'a' <= c <= 'f' || 'A' <= c <= 'F'
    ensures IsDigit(c, DigitOf(c))
  {
  }

  lemma DigitIsInRange(c: char, d: nat)
    requires IsDigit(c, d)
    ensures '0' <= c <= '9' || 'a' <= c <= 'f' || 'A' <= c <= 'F'
  {
  }

  /** The digits of a written number are those of a numeral. */
  lemma {:induction false} WritesMeans(t: string, n: nat)
    requires Writes(t, n)
    ensures Number(Digits(t), 4) == n && forall i :: 0 <= i < |t| ==> IsHexDigit(t[i])
  {
    hide DigitOf, Number, Digits, IsDigit;
    var k := |t| - 1;
    assert t == t[..k] + [t[k]];
    DigitsOfBothCases(t[k], n % 16);
    NumberMeans(Digits(t[..k]), DigitOf(t[k]));
    DigitsAppended(t[..k], t[k]);
    if k == 0 {
      NoDigits(t[..k]);
    } else {
      WritesMeans(t[..k], n / 16);
    }
  }

  lemma DigitsAppended(t: string, c: char)
    ensures Digits(t + [c]) == Digits(t) + [DigitOf(c)]
  {
  }

  lemma NoDigits(t: string)
    requires |t| == 0
    ensures Number(Digits(t), 4) == 0
  {
  }

  /** Every text of hexadecimal digits writes the number of its digits. */
  lemma {:induction false} DigitsWrite(t: string)
    requires |t| > 0 && forall i :: 0 <= i < |t| ==> IsHexDigit(t[i])
    ensures Writes(t, Number(Digits(t), 4))
  {
    hide Number, Digits, IsHexDigit, Writes;
    var k := |t| - 1;
    if k > 0 {
      DigitsWrite(t[..k]);
    }
    NextDigitWrites(t[..k], t[k]);
    assert t == t[..k] + [t[k]];
  }

  lemma NextDigitWrites(t: string, c: char)
    requires IsHexDigit(c) && (|t| > 0 ==> Writes(t, Number(Digits(t), 4)))
    ensures Writes(t + [c], Number(Digits(t + [c]), 4))
  {
    hide DigitOf, Number, Digits, IsDigit, IsHexDigit, Writes;
    DigitMeans(c);
    NumberMeans(Digits(t), DigitOf(c));
    DigitsAppended(t, c);
    if |t| == 0 {
      NoDigits(t);
    }
    OneDigitMore(t, Number(Digits(t), 4), c, DigitOf(c), Number(Digits(t + [c]), 4));
  }

  lemma OneDigitMore(t: string, x: nat, c: char, d: nat, n: nat)
    requires IsDigit(c, d) && n == 16 * x + d && if |t| == 0 then x == 0 else Writes(t, x)
    ensures Writes(t + [c], n)
  {
    assert (t + [c])[..|t|] == t;
    assert n % 16 == d && n / 16 == x;
  }

  lemma DigitsSnoc(s: string, c: char)
    ensures Number(Digits(s + [c]), 4) == Shl(Number(Digits(s), 4), 4) + DigitOf(c)
  {
    assert Digits(s + [c])[..|s|] == Digits(s);
  }

  lemma LowerHexDigits(d: nat)
    requires d < 16
    ensures IsLowerHex(LOWER_HEX[d]) && DigitOf(LOWER_HEX[d]) == d
  {
  }

  lemma LowerHexInjective(a: string, b: string)
    requires |a| == |b| && Digits(a) == Digits(b)
    requires forall i :: 0 <= i < |a| ==> IsLowerHex(a[i]) && IsLowerHex(b[i])
    ensures a == b
  {
    forall i | 0 <= i < |a|
      ensures a[i] == b[i]
    {
      assert Digits(a)[i] == Digits(b)[i];
    }
  }

  /** s is the key k in lower-case hexadecimal, one digit for each four bits. */
  ghost predicate IsText(s: string, k: Key) {
    && 4 * |s| == |k|
    && (forall i :: 0 <= i < |s| ==> IsLowerHex(s[i]))
    && Number(Digits(s), 4) == Val(k)
  }

  // ----- to_rstring -----

  /** std::bitset::to_string : the most significant bit first. */
  function ToString(k: Key): (s: string)
    ensures |s| == |k|
    ensures forall j :: 0 <= j < |k| ==> s[j] == if k[|k| - 1 - j] then '1' else '0'
  {
    seq(|k|, j requires 0 <= j < |k| => if k[|k| - 1 - j] then '1' else '0')
  }

  /** std::bitset<4> built from the first four characters of s. */
  function Nibble(s: string): (b: Bits)
    requires |s| == 4
    ensures |b| == 4
  {
    [s[3] == '1', s[2] == '1', s[1] == '1', s[0] == '1']
  }

  lemma NibbleIsSlice(k: Key, i: nat)
    requires i + 4 <= |k|
    ensures Nibble(ToString(k)[i..i + 4]) == k[|k| - i - 4..|k| - i]
    ensures k[|k| - i - 4..|k| - i] == ToBits(Val(k[|k| - i - 4..|k| - i]), 4)
    ensures Val(k[|k| - i - 4..|k| - i]) < Pow2(4) == 16
  {
    var b, s := k[|k| - i - 4..|k| - i], ToString(k)[i..i + 4];
    forall m | 0 <= m < 4
      ensures (s[3 - m] == '1') == b[m]
    {
      assert s[3 - m] == ToString(k)[i + 3 - m];
    }
    assert b == [b[0], b[1], b[2], b[3]];
    ValBound(b);
    assert Pow2(4) == 16;
    hide Val, Pow2, ToBits;
    ValInjective(b, ToBits(Val(b), 4));
  }

  /** The text of a key writes its number, without capital letters. */
  lemma TextWrites(s: string, k: Key)
    requires IsText(s, k) && |k| > 0
    ensures Writes(s, Val(k)) && forall i :: 0 <= i < |s| ==> !('A' <= s[i] <= 'F')
  {
    hide Val, Number, Digits, Writes, IsHexDigit;
    forall i | 0 <= i < |s|
      ensures IsHexDigit(s[i])
    {
      DigitMeans(s[i]);
    }
    DigitsWrite(s);
  }

  method ToRString(k: Key) returns (res: string)
    requires |k| % 4 == 0
    ensures IsText(res, k)
  {
    hide Val, Number, Shl, ToBits, Nibble, ToString, Pow2;
    var keyStr := ToString(k);
    res := "";
    var i := 0;
    EmptyNumerals(k, res);
    assert res[..0] == res;
    while i < |keyStr|
      invariant 0 <= i <= |k| && i % 4 == 0 && 4 * |res| == i
      invariant forall j :: 0 <= j < |res| ==> IsLowerHex(res[j])
      invariant Number(Digits(res), 4) == Val(k[|k| - i..])
    {
      var b := Nibble(keyStr[i..i + 4]);
      NibbleIsSlice(k, i);
      LowerHexDigits(Val(b));
      DigitBelow(k, |k| - i - 4, Val(b), 4);
      DigitsSnoc(res, LOWER_HEX[Val(b)]);
      res := res + [LOWER_HEX[Val(b)]];
      i := i + 4;
    }
    assert k[0..] == k;
  }

  // ----- from_rstring -----

  lemma ZerosBelow(k: Key, lo: nat)
    requires lo <= |k| && forall j :: 0 <= j < lo ==> !k[j]
    ensures Val(k) == Shl(Val(k[lo..]), lo)
  {
    ValSplit(k, lo);
    ValZero(k[..lo]);
  }

  lemma EmptyNumerals(k: Key, s: string)
    ensures Val(k[|k|..]) == 0 == Number(Digits(s[..0]), 4)
  {
  }

  /** Digits fill the key from its top bit down; std::bitset::set throws when they run past bit zero. */
  method FromRString(str: string, width: nat) returns (r: Result<Key, KeyError>)
    ensures r.Success? <==> 4 * |str| <= width
    ensures r.Success? ==>
              |r.value| == width && Val(r.value) == Shl(Number(Digits(str), 4), width - 4 * |str|)
    ensures r.Success? ==> forall n: nat :: Writes(str, n) ==> Val(r.value) == n * Pow2(width - 4 * |str|)
  {
    hide Val, Number, Shl, ToBits, Writes;
    var res: Key := seq(width, i => false);
    var k := width - 1;
    var i := 0;
    EmptyNumerals(res, str);
    while i < |str|
      invariant 0 <= i <= |str| && |res| == width
      invariant k == width - 1 - 4 * i && k >= -1
      invariant forall j :: 0 <= j <= k ==> !res[j]
      invariant Val(res[k + 1..]) == Number(Digits(str[..i]), 4)
    {
      var u := DigitOf(str[i]);
      var b := ToBits(u, 4);
      var j := 3;
      ghost var before, base := res, k - 3;
      while j >= 0
        invariant -1 <= j <= 3 && |res| == width
        invariant k == base + j && k >= -1
        invariant forall m :: 0 <= m <= k ==> !res[m]
        invariant forall m :: j < m <= 3 ==> res[base + m] == b[m]
        invariant forall m :: base + 4 <= m < width ==> res[m] == before[m]
      {
        if k < 0 {
          return Failure(OutOfRange);
        }
        res := res[k := b[j]];
        k := k - 1;
        j := j - 1;
      }
      assert Pow2(4) == 16;
      DigitWritten(before, res, base, u, 4);
      DigitsSnoc(str[..i], str[i]);
      assert str[..i + 1] == str[..i] + [str[i]];
      i := i + 1;
    }
    assert str[..i] == str;
    ZerosBelow(res, k + 1);
    WritingShifted(str, width - 4 * |str|);
    r := Success(res);
  }

  lemma WritingShifted(str: string, shift: nat)
    ensures forall n: nat :: Writes(str, n) ==> Shl(Number(Digits(str), 4), shift) == n * Pow2(shift)
  {
    hide Writes, Shl, Number, Digits, Pow2;
    forall n: nat | Writes(str, n)
      ensures Shl(Number(Digits(str), 4), shift) == n * Pow2(shift)
    {
      WritesMeans(str, n);
      ShlIsProduct(n, shift);
    }
  }

  /** Reading back the text of a key gives the key. */
  method TextThenKey(k: Key) returns (r: Result<Key, KeyError>)
    requires |k| % 4 == 0
    ensures r == Success(k)
  {
    var s := ToRString(k);
    r := FromRString(s, |k|);
    ValInjective(r.value, k);
  }

  /** Writing the key read from a full-length lower-case numeral gives the numeral. */
  method KeyThenText(s: string) returns (t: string)
    requires forall i :: 0 <= i < |s| ==> IsLowerHex(s[i])
    ensures t == s
  {
    var r := FromRString(s, 4 * |s|);
    t := ToRString(r.value);
    NumberInjective(Digits(t), Digits(s), 4);
    LowerHexInjective(t, s);
  }

  // ----- convert -----

  /** The key whose bits are the bytes of h, the first byte on top. */
  function KeyOfHash(h: seq<Byte>): (k: Key)
    ensures |k| == 8 * |h|
  {
    ToBits(Number(h, 8), 8 * |h|)
  }

  /** The bytes of a hash fill the key from its top bit down, each from its high bit down. */
  method Convert(hashcode: seq<Byte>) returns (res: Key)
    ensures |res| == 8 * |hashcode|
    ensures Val(res) == Number(hashcode, 8)
    ensures res == KeyOfHash(hashcode)
  {
    assert Pow2(8) == 256;
    hide Val, Number, Shl, ToBits, Pow2, KeyOfHash;
    var width := 8 * |hashcode|;
    res := seq(width, i => false);
    var kpos := width;
    EmptyHash(res, hashcode);
    for i := 0 to |hashcode|
      invariant |res| == width && kpos == width - 8 * i
      invariant forall j :: 0 <= j < kpos ==> !res[j]
      invariant Val(res[kpos..]) == Number(hashcode[..i], 8)
    {
      var cc := ToBits(hashcode[i], 8);
      var bpos := 0;
      ghost var before := res;
      var j := 7;
      while j >= 0
        invariant -1 <= j <= 7 && bpos == 7 - j && |res| == width
        invariant forall m :: 0 <= m < kpos - bpos ==> !res[m]
        invariant forall m :: j < m <= 7 ==> res[kpos - 8 + m] == cc[m]
        invariant forall m :: kpos <= m < width ==> res[m] == before[m]
      {
        if cc[j] {
          res := res[kpos - bpos - 1 := true];
        }
        bpos := bpos + 1;
        j := j - 1;
      }
      kpos := kpos - 8;
      DigitWritten(before, res, kpos, hashcode[i], 8);
      BytesSnoc(hashcode[..i], hashcode[i]);
      assert hashcode[..i + 1] == hashcode[..i] + [hashcode[i]];
    }
    assert res[0..] == res && hashcode[..|hashcode|] == hashcode;
    KeyOfItsHash(res, hashcode);
  }

  lemma EmptyHash(k: Key, h: seq<Byte>)
    ensures Val(k[|k|..]) == 0 == Number(h[..0], 8)
  {
  }

  lemma BytesSnoc(h: seq<Byte>, b: Byte)
    ensures Number(h + [b], 8) == Shl(Number(h, 8), 8) + b
  {
    assert (h + [b])[..|h|] == h;
  }

  /** Each byte as its two digits. */
  function TwoDigits(h: seq<Byte>): (ds: seq<nat>)
    ensures |ds| == 2 * |h|
    ensures AllBelow(ds, 4)
  {
    assert Pow2(4) == 16;
    if |h| == 0 then []
    else TwoDigits(h[..|h| - 1]) + [h[|h| - 1] / 16, h[|h| - 1] % 16]
  }

  lemma {:induction false} TwoDigitsNumber(h: seq<Byte>)
    ensures Number(TwoDigits(h), 4) == Number(h, 8)
  {
    if |h| > 0 {
      var n := |h| - 1;
      TwoDigitsNumber(h[..n]);
      var ds := TwoDigits(h[..n]);
      var hi, lo := h[n] / 16, h[n] % 16;
      assert TwoDigits(h)[..2 * n + 1] == ds + [hi];
      assert (ds + [hi])[..2 * n] == ds;
      var x := Number(ds, 4);
      assert Number(ds + [hi], 4) == Shl(x, 4) + hi;
      assert Number(TwoDigits(h), 4) == Shl(Shl(x, 4) + hi, 4) + lo;
      hide Shl, Number, TwoDigits;
      TwoDigitsShifted(x, hi, lo);
    }
  }

  lemma TwoDigitsShifted(x: nat, hi: nat, lo: nat)
    ensures Shl(Shl(x, 4) + hi, 4) + lo == Shl(x, 8) + 16 * hi + lo
  {
    assert Pow2(4) == 16;
    hide Shl, Pow2;
    ShlAdd(Shl(x, 4), hi, 4);
    ShlTwice(x, 4, 4);
    ShlIsProduct(hi, 4);
  }

  /** The text of a converted hash is the hash written with two digits a byte. */
  method HashText(hashcode: seq<Byte>) returns (s: string)
    ensures Digits(s) == TwoDigits(hashcode)
    ensures forall i :: 0 <= i < |s| ==> IsLowerHex(s[i])
  {
    hide IsText, Val, Number, KeyOfHash, TwoDigits, Digits;
    var k := Convert(hashcode);
    assert |k| == 4 * (2 * |hashcode|);
    s := ToRString(k);
    TextOfHash(s, k, hashcode);
  }

  lemma TextOfHash(s: string, k: Key, h: seq<Byte>)
    requires IsText(s, k) && |k| == 8 * |h| && Val(k) == Number(h, 8)
    ensures Digits(s) == TwoDigits(h) && forall i :: 0 <= i < |s| ==> IsLowerHex(s[i])
  {
    hide Val, Number, TwoDigits, Digits, AllBelow, IsLowerHex;
    TwoDigitsNumber(h);
    NumberInjective(Digits(s), TwoDigits(h), 4);
  }

  /** Every key is the conversion of exactly one hash. */
  lemma ConvertIsBijective(k: Key, m: nat)
    requires |k| == 8 * m
    ensures exists h: seq<Byte> :: |h| == m && Number(h, 8) == Val(k)
    ensures forall h: seq<Byte>, h': seq<Byte> ::
              |h| == m && |h'| == m && Number(h, 8) == Val(k) && Number(h', 8) == Val(k) ==> h == h'
  {
    var h := BytesOf(k, m);
    assert |h| == m && Number(h, 8) == Val(k);
    assert Pow2(8) == 256;
    forall h: seq<Byte>, h': seq<Byte> |
      |h| == m && |h'| == m && Number(h, 8) == Val(k) && Number(h', 8) == Val(k)
      ensures h == h'
    {
      NumberInjective(h, h', 8);
    }
  }

  const DIGEST_BYTES: nat := 20

  /** The keys of the ring are the digests of twenty bytes, and their texts have forty digits. */
  lemma KeysAreDigests(k: Key)
    requires |k| == KEYNBITS
    ensures exists h: seq<Byte> :: |h| == DIGEST_BYTES && KeyOfHash(h) == k
    ensures forall s: string :: IsText(s, k) ==> |s| == 2 * DIGEST_BYTES
  {
    hide Val, Number, KeyOfHash;
    ConvertIsBijective(k, DIGEST_BYTES);
    var h: seq<Byte> :| |h| == DIGEST_BYTES && Number(h, 8) == Val(k);
    KeyOfItsHash(k, h);
  }

  lemma KeyOfItsHash(k: Key, h: seq<Byte>)
    requires |k| == 8 * |h| && Number(h, 8) == Val(k)
    ensures KeyOfHash(h) == k
  {
    ValBound(k);
    hide Number;
    ValInjective(KeyOfHash(h), k);
  }

  /** The bytes of a key, most significant first. */
  function BytesOf(k: Key, m: nat): (h: seq<Byte>)
    requires |k| == 8 * m
    ensures |h| == m && Number(h, 8) == Val(k)
  {
    if m == 0 then []
    else
      ValBound(k[..8]);
      ValSplit(k, 8);
      assert Pow2(8) == 256;
      var rest := BytesOf(k[8..], m - 1);
      var h: seq<Byte> := rest + [Val(k[..8])];
      assert h[..m - 1] == rest;
      h
  }
}
