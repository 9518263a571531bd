/**
 Removing the chunked transfer coding in place (filters::remove_chunked_transfer_coding, src/proxy/filters.cpp): the data
 of the chunks moves to the front of the buffer it is read from.
 */
module Chunked {
  import opened Wrappers
  import opened KeyText
  import opened CText

  // ----- sscanf("%x") and strstr("\r\n") on a text that ends at its first nul -----

  predicate IsHex(c: char) {
    '0' <= c <= '9' || 'a' <= c <= 'f' || 'A' <= c <= 'F'
  }

  function LeadingHex(t: string): (n: nat)
    ensures n <= |t|
  {
    if |t| > 0 && IsHex(t[0]) then 1 + LeadingHex(t[1..]) else 0
  }

  /** Hexadecimal digits as an unsigned int of 32 bits. */
  function Unsigned(t: string, negative: bool): (r: Option<nat>) {
    var n := LeadingHex(t);
    if n == 0 then None
    else
      var v: int := Number(Digits(t[..n]), 4);
      Some((if negative then -v else v) % 0x1_0000_0000)
  }

  function AfterPrefix(u: string): (r: string) {
    if |u| > 2 && u[0] == '0' && (u[1] == 'x' || u[1] == 'X') && IsHex(u[2]) then u[2..] else u
  }

  function AfterSign(t: string): (r: string) {
    if |t| > 0 && (t[0] == '-' || t[0] == '+') then t[1..] else t
  }

  function Scan(text: string): (r: Option<nat>) {
    var t := text[LeadingSpaces(text)..];
    Unsigned(AfterPrefix(AfterSign(t)), |t| > 0 && t[0] == '-')
  }

  function FindCrlf(t: string): (r: Option<nat>)
    ensures r.Some? ==> r.value + 2 <= |t| && t[r.value] == '\r' && t[r.value + 1] == '\n'
  {
    if |t| < 2 || t[0] == '\0' then None
    else if t[0] == '\r' && t[1] == '\n' then Some(0)
    else
      match FindCrlf(t[1..])
      case None => None
      case Some(n) => Some(n + 1)
  }

  // ----- What the loop computes -----

  /** Outside: a chunk that claims to be longer than what is left makes the loop leave the buffer. */
  datatype Outcome<+T> = Stripped(value: T) | ParseError | Outside

  /** The data after what is out already, for a chunk of the given size announced at from. */
  function Strip(s: string, from: nat, chunk: nat, out: string): (r: Outcome<string>)
    requires from < |s|
    decreases |s| - from, 0
  {
    if chunk == 0 then Stripped(out)
    else
      match FindCrlf(s[from..])
      case None => ParseError
      case Some(n) =>
        if |out| + chunk >= |s| - 1 then ParseError
        else
          var start := from + n + 2;
          if start + chunk + 2 >= |s| then Outside else Resume(s, start + chunk + 2, out + s[start..start + chunk])
  }

  /** From the next chunk size on: without one, the rest is ignored. */
  function Resume(s: string, from: nat, out: string): (r: Outcome<string>)
    requires from < |s|
    decreases |s| - from, 1
  {
    match Scan(s[from..])
    case None => Stripped(out)
    case Some(chunk) => Strip(s, from, chunk, out)
  }

  function Dechunk(s: string): (r: Outcome<string>)
    requires |s| > 0
  {
    match Scan(s)
    case None => ParseError
    case Some(chunk) => Strip(s, 0, chunk, "")
  }

  /** What is the same from read on is the same from any later position on. */
  lemma Unread(now: string, s: string, read: nat, from: nat)
    requires |now| == |s| && read <= from <= |s| && now[read..] == s[read..]
    ensures now[from..] == s[from..]
  {
    assert now[from..] == now[read..][from - read..] && s[from..] == s[read..][from - read..];
  }

  /** memmove down, all bytes being read before any is written: they are still those of s. */
  method Memmove(buffer: array<char>, to: nat, from: nat, n: nat, ghost read: nat, ghost s: string)
    requires to <= read <= from && from + n <= buffer.Length == |s| && buffer[read..] == s[read..]
    modifies buffer
    ensures buffer[..to + n] == old(buffer[..to]) + s[from..from + n]
    ensures buffer[from + n..] == s[from + n..]
  {
    ghost var before := buffer[..];
    forall k | 0 <= k < n {
      buffer[to + k] := buffer[from + k];
    }
    MovedDown(before, buffer[..], to, from, n, read, s);
  }

  lemma MovedDown(before: string, after: string, to: nat, from: nat, n: nat, read: nat, s: string)
    requires to <= read <= from && from + n <= |before| == |after| == |s| && before[read..] == s[read..]
    requires forall k :: 0 <= k < |s| && !(to <= k < to + n) ==> after[k] == before[k]
    requires forall k :: to <= k < to + n ==> after[k] == before[k - to + from]
    ensures after[..to + n] == before[..to] + s[from..from + n]
    ensures after[from + n..] == s[from + n..]
  {
    Unread(before, s, read, from);
    assert before[from..from + n] == before[from..][..n] == s[from..][..n] == s[from..from + n];
    Unread(before, s, from, from + n);
    assert after[..to] == before[..to] && after[to..to + n] == before[from..from + n];
    assert after[from + n..] == before[from + n..];
    assert after[..to + n] == after[..to] + after[to..to + n];
  }

  lemma StripStep(s: string, from: nat, chunk: nat, out: string)
    requires from < |s| && chunk > 0
    ensures var crlf := FindCrlf(s[from..]);
            if crlf.None? || |out| + chunk >= |s| - 1 then Strip(s, from, chunk, out) == ParseError
            else
              var start := from + crlf.value + 2;
              if start + chunk + 2 >= |s| then Strip(s, from, chunk, out) == Outside
              else
                && Strip(s, from, chunk, out) == Resume(s, start + chunk + 2, out + s[start..start + chunk])
  {
    hide FindCrlf, Resume, Scan;
  }

  lemma Resumed(s: string, from: nat, out: string)
    requires from < |s|
    ensures var scanned := Scan(s[from..]);
            Resume(s, from, out) == if scanned.None? then Stripped(out) else Strip(s, from, scanned.value, out)
  {
  }

  lemma NoMore(s: string, from: nat, out: string)
    requires from < |s|
    ensures Strip(s, from, 0, out) == Stripped(out)
  {
  }

  lemma Started(s: string)
    requires |s| > 0
    ensures var scanned := Scan(s[0..]);
            Dechunk(s) == if scanned.None? then ParseError else Strip(s, 0, scanned.value, "")
  {
    assert s[0..] == s;
  }

  /** The size in and out counts the bytes before the nul at the end. Whatever lies from read on is as it was. */
  method RemoveChunkedTransferCoding(buffer: array<char>, size: nat) returns (r: Outcome<nat>, ghost read: nat)
    requires buffer.Length == size + 1 && buffer[size] == '\0'
    modifies buffer
    ensures match Dechunk(old(buffer[..]))
            case Stripped(data) => r == Stripped(|data|) && |data| <= read <= size && buffer[..|data|] == data
            case ParseError => r == ParseError
            case Outside => r == Outside
    ensures read <= size && buffer[read..] == old(buffer[read..])
  {
    hide Scan, FindCrlf, Strip, Resume, Dechunk;
    ghost var s := buffer[..];
    read := 0;
    Started(s);
    var scanned := Scan(buffer[0..]);
    if scanned.None? {
      return ParseError, 0;
    }
    var chunk := scanned.value;
    var newsize: nat, from: nat, to: nat := 0, 0, 0;
    ghost var out := "";
    while chunk > 0
      invariant to == newsize <= from == read <= size
      invariant buffer[from..] == s[from..] && buffer[..newsize] == out
      invariant Strip(s, from, chunk, out) == Dechunk(s)
      decreases size - from
    {
      StripStep(s, from, chunk, out);
      var crlf := FindCrlf(buffer[from..]);
      if crlf.None? {
        return ParseError, read;
      }
      from := from + crlf.value;
      newsize := newsize + chunk;
      if newsize >= size {
        return ParseError, read;
      }
      from := from + 2;
      if from + chunk + 2 > size {
        return Outside, read;
      }
      Memmove(buffer, to, from, chunk, read, s);
      out := out + s[from..from + chunk];
      to := newsize;
      from := from + chunk + 2;
      Unread(buffer[..], s, from - 2, from);
      read := from;
      Resumed(s, from, out);
      scanned := Scan(buffer[from..]);
      if scanned.None? {
        return Stripped(newsize), read;
      }
      chunk := scanned.value;
    }
    NoMore(s, from, out);
    r := Stripped(newsize);
  }

  // ----- Chunked bodies (section 3.6.1 of RFC 2616) -----

  /** A size in hexadecimal, what else the line says, and the data. */
  datatype Chunk = Chunk(digits: string, extension: string, data: string)

  /** A size in hexadecimal and an extension on one line. The extension starts with a ';' or a blank, if there is one. */
  ghost predicate IsLine(digits: string, size: nat, extension: string) {
    Writes(digits, size) && size < 0x1_0000_0000 && (|extension| > 0 ==> EndsNumber(extension[0]))
  }

  ghost predicate EndsNumber(c: char) {
    !IsHexDigit(c) && c != 'x' && c != 'X'
  }

  ghost predicate OneLine(t: string) {
    forall i :: 0 <= i < |t| ==> t[i] != '\0' && (t[i] == '\r' && i + 1 < |t| ==> t[i + 1] != '\n')
  }

  ghost predicate WellFormed(c: Chunk) {
    IsLine(c.digits, |c.data|, c.extension) && OneLine(c.extension) && |c.data| > 0
  }

  function EncodeChunk(c: Chunk): (t: string) {
    c.digits + c.extension + "\r\n" + c.data + "\r\n"
  }

  function EncodeChunks(cs: seq<Chunk>): (t: string) {
    if |cs| == 0 then "" else EncodeChunk(cs[0]) + EncodeChunks(cs[1..])
  }

  function DataOf(cs: seq<Chunk>): (t: string) {
    if |cs| == 0 then "" else cs[0].data + DataOf(cs[1..])
  }

  lemma {:induction false} HexPrefix(d: string, rest: string)
    requires forall i :: 0 <= i < |d| ==> IsHex(d[i])
    requires |rest| > 0 && !IsHex(rest[0])
    ensures LeadingHex(d + rest) == |d|
  {
    if |d| == 0 {
      assert d + rest == rest;
    } else {
      assert (d + rest)[1..] == d[1..] + rest;
      HexPrefix(d[1..], rest);
    }
  }

  lemma HexDigits(c: char)
    ensures IsHex(c) <==> IsHexDigit(c)
  {
    DigitMeans(c);
  }

  /** The line end, and the nul, end a number. */
  lemma LineEnds(extension: string, tail: string)
    requires |extension| > 0 ==> EndsNumber(extension[0])
    requires |tail| > 0 && (tail[0] == '\r' || tail[0] == '\0')
    ensures EndsNumber((extension + tail)[0])
  {
    DigitMeans(tail[0]);
  }

  /** Digits up to a character that ends the number are read as the number they write, modulo 2^32. */
  lemma LeadingDigits(d: string, n: nat, rest: string)
    requires Writes(d, n) && |rest| > 0 && !IsHexDigit(rest[0])
    ensures LeadingHex(d + rest) == |d| > 0 && Number(Digits(d), 4) == n
  {
    assert |d| > 0;
    WritesMeans(d, n);
    hide Writes, Number, Digits, IsHex, IsHexDigit, LeadingHex;
    forall i | 0 <= i < |d|
      ensures IsHex(d[i])
    {
      HexDigits(d[i]);
    }
    HexDigits(rest[0]);
    HexPrefix(d, rest);
  }

  lemma UnsignedDigits(d: string, n: nat, rest: string, negative: bool)
    requires Writes(d, n) && |rest| > 0 && !IsHexDigit(rest[0])
    ensures Unsigned(d + rest, negative) == Some((if negative then -(n as int) else n) % 0x1_0000_0000)
  {
    hide LeadingHex, Writes, Number, Digits, IsHexDigit;
    LeadingDigits(d, n, rest);
    assert (d + rest)[..|d|] == d;
  }

  lemma {:induction false} SpacesBefore(spaces: string, t: string)
    requires forall i :: 0 <= i < |spaces| ==> spaces[i] == ' ' || 9 <= spaces[i] as int <= 13
    requires |t| > 0 && t[0] != ' ' && !(9 <= t[0] as int <= 13)
    ensures LeadingSpaces(spaces + t) == |spaces|
  {
    if |spaces| == 0 {
      assert spaces + t == t;
    } else {
      assert (spaces + t)[1..] == spaces[1..] + t;
      SpacesBefore(spaces[1..], t);
    }
  }

  /**
   What the scan takes for a number: blanks, a sign, the prefix 0x or 0X, and digits, up to a character that ends the
   number. A minus sign counts down from 2^32.
   */
  lemma ScanForms(spaces: string, sign: string, prefix: string, digits: string, n: nat, rest: string)
    requires forall i :: 0 <= i < |spaces| ==> spaces[i] == ' ' || 9 <= spaces[i] as int <= 13
    requires sign == "" || sign == "+" || sign == "-"
    requires prefix == "" || prefix == "0x" || prefix == "0X"
    requires Writes(digits, n) && |rest| > 0 && EndsNumber(rest[0])
    ensures Scan(spaces + sign + prefix + digits + rest) == Some((if sign == "-" then -(n as int) else n) % 0x1_0000_0000)
  {
    hide Writes, Unsigned, IsHexDigit, AfterPrefix, AfterSign, LeadingSpaces;
    UnsignedDigits(digits, n, rest, sign == "-");
    PrefixPassed(prefix, digits, n, rest);
    SignPassed(sign, prefix, digits, n, rest);
    var t := sign + (prefix + (digits + rest));
    SpacesBefore(spaces, t);
    assert spaces + sign + prefix + digits + rest == spaces + t;
    assert (spaces + t)[|spaces|..] == t;
  }

  lemma PrefixPassed(prefix: string, digits: string, n: nat, rest: string)
    requires (prefix == "" || prefix == "0x" || prefix == "0X") && Writes(digits, n) && |rest| > 0 && EndsNumber(rest[0])
    ensures AfterPrefix(prefix + (digits + rest)) == digits + rest
  {
    WritesMeans(digits, n);
    DigitMeans(digits[0]);
    DigitMeans(rest[0]);
    if |digits| > 1 {
      DigitMeans(digits[1]);
    }
    hide Writes, IsHexDigit;
    var number := digits + rest;
    assert number[0] == digits[0] && number[1] == if |digits| > 1 then digits[1] else rest[0];
    NumberPassed(prefix, number);
  }

  lemma NumberPassed(prefix: string, number: string)
    requires (prefix == "" || prefix == "0x" || prefix == "0X") && |number| > 1 && IsHex(number[0])
    requires number[1] != 'x' && number[1] != 'X'
    ensures AfterPrefix(prefix + number) == number
  {
    hide IsHex;
    if prefix == "" {
      assert prefix + number == number;
    } else {
      assert (prefix + number)[2..] == number && (prefix + number)[2] == number[0];
    }
  }

  lemma SignPassed(sign: string, prefix: string, digits: string, n: nat, rest: string)
    requires (sign == "" || sign == "+" || sign == "-") && (prefix == "" || prefix == "0x" || prefix == "0X")
    requires Writes(digits, n)
    ensures var t := sign + (prefix + (digits + rest));
            && AfterSign(t) == prefix + (digits + rest) && |t| > 0 && (t[0] == '-' <==> sign == "-")
            && t[0] != ' ' && !(9 <= t[0] as int <= 13)
  {
    WritesMeans(digits, n);
    DigitMeans(digits[0]);
    hide Writes, IsHexDigit;
    var u := prefix + (digits + rest);
    assert u[0] == '0' || u[0] == digits[0];
    if sign == "" {
      assert sign + u == u;
    } else {
      assert (sign + u)[1..] == u && (sign + u)[0] == sign[0];
    }
  }

  /** Where no digit follows the blanks, nothing is read. */
  lemma ScanNothing(spaces: string, rest: string)
    requires forall i :: 0 <= i < |spaces| ==> spaces[i] == ' ' || 9 <= spaces[i] as int <= 13
    requires |rest| > 0 && rest[0] != ' ' && !(9 <= rest[0] as int <= 13)
    requires rest[0] != '+' && rest[0] != '-' && !IsHexDigit(rest[0])
    ensures Scan(spaces + rest) == None
  {
    DigitMeans(rest[0]);
    hide IsHexDigit;
    SpacesBefore(spaces, rest);
    assert (spaces + rest)[|spaces|..] == rest;
  }

  lemma ScanDigits(d: string, n: nat, rest: string)
    requires Writes(d, n) && n < 0x1_0000_0000 && |rest| > 0 && EndsNumber(rest[0])
    ensures Scan(d + rest) == Some(n)
  {
    hide Scan, Writes;
    ScanForms("", "", "", d, n, rest);
    assert "" + "" + "" + d + rest == d + rest;
  }

  lemma {:induction false} CrlfEndsLine(line: string, rest: string)
    requires OneLine(line)
    ensures FindCrlf(line + "\r\n" + rest) == Some(|line|)
  {
    var t := line + "\r\n" + rest;
    if |line| > 0 {
      assert t[1..] == line[1..] + "\r\n" + rest;
      CrlfEndsLine(line[1..], rest);
      assert t[0] == line[0] && t[1] == if |line| > 1 then line[1] else '\r';
    }
  }

  // ----- Dechunking undoes chunking -----

  lemma EncodedSize(c: Chunk)
    requires WellFormed(c)
    ensures |EncodeChunk(c)| == |c.digits| + |c.extension| + |c.data| + 4
  {
  }

  /** Where the parts of a chunk are in a text that has it at from. */
  lemma PartsOfChunk(s: string, from: nat, c: Chunk, rest: string)
    requires from <= |s| && s[from..] == EncodeChunk(c) + rest
    ensures var line := |c.digits| + |c.extension|;
            && from + line + 2 + |c.data| + 2 + |rest| == |s|
            && s[from..] == (c.digits + c.extension) + "\r\n" + (c.data + "\r\n" + rest)
            && s[from..] == c.digits + (c.extension + "\r\n" + c.data + "\r\n" + rest)
            && s[from + line + 2..from + line + 2 + |c.data|] == c.data
            && s[from + line + 2 + |c.data| + 2..] == rest
  {
    var line := |c.digits| + |c.extension|;
    var u := s[from..];
    assert u == (c.digits + c.extension) + "\r\n" + (c.data + "\r\n" + rest);
    assert u == c.digits + (c.extension + "\r\n" + c.data + "\r\n" + rest);
    assert u[line + 2..line + 2 + |c.data|] == c.data;
    assert u[line + 2 + |c.data| + 2..] == rest;
  }

  lemma HexIsOneLine(digits: string, n: nat, extension: string)
    requires IsLine(digits, n, extension) && OneLine(extension)
    ensures OneLine(digits + extension)
  {
    WritesMeans(digits, n);
    hide Writes, IsHexDigit;
    forall i | 0 <= i < |digits|
      ensures digits[i] != '\0' && digits[i] != '\r'
    {
      DigitMeans(digits[i]);
    }
  }

  /** Reading one chunk: its data is out, and what follows is next. */
  lemma StripChunk(s: string, from: nat, c: Chunk, rest: string, out: string)
    requires from <= |s| && s[from..] == EncodeChunk(c) + rest && |rest| > 0
    requires WellFormed(c) && |out| <= from
    ensures var next := from + |EncodeChunk(c)|;
            && next < |s| && s[next..] == rest
            && Scan(s[from..]) == Some(|c.data|)
            && Strip(s, from, |c.data|, out) == Resume(s, next, out + c.data)
  {
    hide Scan, FindCrlf, Strip, Resume, Writes, IsHexDigit, EncodeChunk;
    EncodedSize(c);
    PartsOfChunk(s, from, c, rest);
    HexIsOneLine(c.digits, |c.data|, c.extension);
    CrlfEndsLine(c.digits + c.extension, c.data + "\r\n" + rest);
    LineEnds(c.extension, "\r\n" + c.data + "\r\n" + rest);
    assert c.extension + "\r\n" + c.data + "\r\n" + rest == c.extension + ("\r\n" + c.data + "\r\n" + rest);
    ScanDigits(c.digits, |c.data|, c.extension + "\r\n" + c.data + "\r\n" + rest);
    StripStep(s, from, |c.data|, out);
  }

  /** The end of a body: a size of zero, and anything after its line has ended the number. */
  ghost predicate IsLast(digits: string, rest: string) {
    IsLine(digits, 0, rest)
  }

  function Body(cs: seq<Chunk>, digits: string, rest: string): (t: string) {
    EncodeChunks(cs) + (digits + rest + "\0")
  }

  lemma LastSize(digits: string, rest: string)
    requires IsLast(digits, rest)
    ensures Scan(digits + rest + "\0") == Some(0)
  {
    assert digits + rest + "\0" == digits + (rest + "\0");
    LineEnds(rest, "\0");
    ScanDigits(digits, 0, rest + "\0");
  }

  /** Well-formed chunks are read through, whatever follows them. */
  lemma {:induction false} StripThrough(s: string, from: nat, cs: seq<Chunk>, rest: string, out: string)
    requires from < |s| && s[from..] == EncodeChunks(cs) + rest && |rest| > 0
    requires (forall i :: 0 <= i < |cs| ==> WellFormed(cs[i])) && |out| <= from
    ensures var next := from + |EncodeChunks(cs)|;
            && next < |s| && s[next..] == rest && Resume(s, from, out) == Resume(s, next, out + DataOf(cs))
    ensures |cs| > 0 ==> Scan(s[from..]).Some?
    decreases |cs|
  {
    hide Scan, FindCrlf, Strip, Resume, EncodeChunk, WellFormed;
    if |cs| == 0 {
      assert EncodeChunks(cs) + rest == rest && out + DataOf(cs) == out;
    } else {
      var after := EncodeChunks(cs[1..]) + rest;
      assert s[from..] == EncodeChunk(cs[0]) + after;
      StripChunk(s, from, cs[0], after, out);
      Resumed(s, from, out);
      EncodedSize(cs[0]);
      StripThrough(s, from + |EncodeChunk(cs[0])|, cs[1..], rest, out + cs[0].data);
      assert out + DataOf(cs) == out + cs[0].data + DataOf(cs[1..]);
    }
  }

  lemma DechunkThrough(cs: seq<Chunk>, rest: string)
    requires |rest| > 0 && (forall i :: 0 <= i < |cs| ==> WellFormed(cs[i])) && Scan(rest).Some?
    ensures var s, from := EncodeChunks(cs) + rest, |EncodeChunks(cs)|;
            s[from..] == rest && Dechunk(s) == Strip(s, from, Scan(rest).value, DataOf(cs))
  {
    hide Scan, FindCrlf, Strip, EncodeChunk, WellFormed;
    var s, from := EncodeChunks(cs) + rest, |EncodeChunks(cs)|;
    assert s[0..] == s;
    StripThrough(s, 0, cs, rest, "");
    assert "" + DataOf(cs) == DataOf(cs);
    Started(s);
    Resumed(s, 0, "");
    Resumed(s, from, DataOf(cs));
  }

  /** Dechunking a chunked body gives the data that was chunked, however it was split and whatever bytes it has. */
  lemma DechunkUndoesChunking(cs: seq<Chunk>, digits: string, rest: string)
    requires IsLast(digits, rest) && forall i :: 0 <= i < |cs| ==> WellFormed(cs[i])
    ensures Dechunk(Body(cs, digits, rest)) == Stripped(DataOf(cs))
  {
    hide Scan, Strip, Dechunk, IsLast, WellFormed;
    var last := digits + rest + "\0";
    LastSize(digits, rest);
    DechunkThrough(cs, last);
    NoMore(EncodeChunks(cs) + last, |EncodeChunks(cs)|, DataOf(cs));
  }

  /** What does not start with a size is ignored behind chunks, and refused in front. */
  lemma NoSizeFollows(cs: seq<Chunk>, spaces: string, rest: string)
    requires forall i :: 0 <= i < |cs| ==> WellFormed(cs[i])
    requires forall i :: 0 <= i < |spaces| ==> spaces[i] == ' ' || 9 <= spaces[i] as int <= 13
    requires |rest| > 0 && rest[0] != ' ' && !(9 <= rest[0] as int <= 13)
    requires rest[0] != '+' && rest[0] != '-' && !IsHexDigit(rest[0])
    ensures Dechunk(EncodeChunks(cs) + (spaces + rest)) == if |cs| > 0 then Stripped(DataOf(cs)) else ParseError
  {
    hide Scan, Strip, EncodeChunk, WellFormed, IsHexDigit;
    var s := EncodeChunks(cs) + (spaces + rest);
    assert s[0..] == s;
    ScanNothing(spaces, rest);
    if |cs| > 0 {
      StripThrough(s, 0, cs, spaces + rest, "");
      assert "" + DataOf(cs) == DataOf(cs);
      Resumed(s, |EncodeChunks(cs)|, DataOf(cs));
      Resumed(s, 0, "");
    } else {
      assert s == spaces + rest;
    }
    Started(s);
  }

  /** In place: the buffer of a chunked body ends with its data in front, and the size is that of the data. */
  method DechunkBody(buffer: array<char>, size: nat, ghost cs: seq<Chunk>, ghost digits: string, ghost rest: string)
    returns (newsize: nat)
    requires buffer.Length == size + 1 && buffer[..] == Body(cs, digits, rest)
    requires IsLast(digits, rest) && forall i :: 0 <= i < |cs| ==> WellFormed(cs[i])
    modifies buffer
    ensures newsize == |DataOf(cs)| <= size && buffer[..newsize] == DataOf(cs)
  {
    DechunkUndoesChunking(cs, digits, rest);
    BodyEnds(cs, digits, rest);
    assert buffer[size] == buffer[..][size];
    hide Dechunk, Body, DataOf, IsLast, WellFormed;
    var r, _ := RemoveChunkedTransferCoding(buffer, size);
    newsize := r.value;
  }

  lemma BodyEnds(cs: seq<Chunk>, digits: string, rest: string)
    ensures var s := Body(cs, digits, rest); |s| > 0 && s[|s| - 1] == '\0'
  {
  }

  // ----- Bodies that are cut off -----

  /** The text of a body that ends in the line, or in the data, of a chunk. */
  function CutInData(cs: seq<Chunk>, digits: string, extension: string, part: string): (t: string) {
    EncodeChunks(cs) + (digits + extension + "\r\n" + part + "\0")
  }

  function CutInLine(cs: seq<Chunk>, digits: string, extension: string): (t: string) {
    EncodeChunks(cs) + (digits + extension + "\0")
  }

  /** The line of a chunk that is not the last. */
  ghost predicate IsChunkLine(digits: string, n: nat, extension: string) {
    IsLine(digits, n, extension) && OneLine(extension) && n > 0
  }

  /** What comes of a chunk whose data and line end are not all there: the source copies and reads on past the nul. */
  lemma StripCutData(s: string, from: nat, digits: string, n: nat, extension: string, part: string, out: string)
    requires from < |s| && s[from..] == digits + extension + "\r\n" + part + "\0" && IsChunkLine(digits, n, extension)
    requires |part| < n + 2
    ensures Scan(s[from..]) == Some(n)
    ensures Strip(s, from, n, out)
         == if |out| + n >= |s| - 1 then ParseError else Outside
  {
    hide Scan, FindCrlf, Strip, Resume, Writes, IsHexDigit;
    assert s[from..] == digits + (extension + "\r\n" + part + "\0");
    assert s[from..] == (digits + extension) + "\r\n" + (part + "\0");
    HexIsOneLine(digits, n, extension);
    CrlfEndsLine(digits + extension, part + "\0");
    LineEnds(extension, "\r\n" + part + "\0");
    assert extension + "\r\n" + part + "\0" == extension + ("\r\n" + part + "\0");
    ScanDigits(digits, n, extension + "\r\n" + part + "\0");
    StripStep(s, from, n, out);
  }

  lemma {:induction false} NoCrlf(line: string)
    requires OneLine(line)
    ensures FindCrlf(line + "\0") == None
  {
    if |line| > 0 {
      assert (line + "\0")[1..] == line[1..] + "\0";
      NoCrlf(line[1..]);
      assert (line + "\0")[1] == if |line| > 1 then line[1] else '\0';
    }
  }

  lemma StripCutLine(s: string, from: nat, digits: string, n: nat, extension: string, out: string)
    requires from < |s| && s[from..] == digits + extension + "\0" && IsChunkLine(digits, n, extension)
    ensures Scan(s[from..]) == Some(n)
    ensures Strip(s, from, n, out) == ParseError
  {
    hide Scan, FindCrlf, Strip, Resume, Writes, IsHexDigit;
    assert s[from..] == digits + (extension + "\0");
    HexIsOneLine(digits, n, extension);
    NoCrlf(digits + extension);
    LineEnds(extension, "\0");
    ScanDigits(digits, n, extension + "\0");
    StripStep(s, from, n, out);
  }

  /**
   A body that ends before the data of a chunk and the line end behind it are complete: refused if the chunk alone is as
   large as what the buffer has left by the count of the data, and otherwise read beyond the end of the buffer.
   */
  lemma CutInDataIsOutside(cs: seq<Chunk>, digits: string, n: nat, extension: string, part: string)
    requires IsChunkLine(digits, n, extension) && |part| < n + 2
    requires forall i :: 0 <= i < |cs| ==> WellFormed(cs[i])
    ensures var s := CutInData(cs, digits, extension, part);
            Dechunk(s) == if |DataOf(cs)| + n >= |s| - 1 then ParseError else Outside
  {
    hide Scan, Strip, Dechunk, WellFormed, IsChunkLine;
    var rest := digits + extension + "\r\n" + part + "\0";
    var s, from := EncodeChunks(cs) + rest, |EncodeChunks(cs)|;
    assert s[from..] == rest;
    StripCutData(s, from, digits, n, extension, part, DataOf(cs));
    DechunkThrough(cs, rest);
  }

  /** A body that ends in the line of a chunk is refused. */
  lemma CutInLineIsRefused(cs: seq<Chunk>, digits: string, n: nat, extension: string)
    requires IsChunkLine(digits, n, extension) && forall i :: 0 <= i < |cs| ==> WellFormed(cs[i])
    ensures Dechunk(CutInLine(cs, digits, extension)) == ParseError
  {
    hide Scan, Strip, Dechunk, WellFormed, IsChunkLine;
    var rest := digits + extension + "\0";
    var s, from := EncodeChunks(cs) + rest, |EncodeChunks(cs)|;
    assert s[from..] == rest;
    StripCutLine(s, from, digits, n, extension, DataOf(cs));
    DechunkThrough(cs, rest);
  }

  lemma ThreeIsWritten()
    ensures Writes("3", 3)
  {
    assert "0123456789abcdef"[3] == '3';
  }

  /** The smallest kind of example: three bytes announced, three there, and then the end. */
  lemma CutOffExample()
    ensures Dechunk("3\r\nabc\0") == Outside
  {
    hide Dechunk, Scan, Writes;
    assert CutInData([], "3", "", "abc") == "3\r\nabc\0";
    ThreeIsWritten();
    CutInDataIsOutside([], "3", 3, "", "abc");
  }
}
