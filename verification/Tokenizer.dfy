/**
 The tokenizer of src/lsh/mrf.cpp over the search functions of std::string, and why tokens joined by a delimiter come
 apart again.
 */
module Tokenizer {
  import CText
  import opened Chains

  /** A std::string::size_type: an index or npos. */
  datatype Pos = At(i: nat) | NPos

  /** std::string::find_first_not_of */
  function FindFirstNotOf(s: string, delim: string, p: Pos): (q: Pos)
    ensures q.At? ==> q.i < |s| && s[q.i] !in delim && p.At? && p.i <= q.i
    ensures q.At? ==> forall j :: p.i <= j < q.i ==> s[j] in delim
    ensures q.NPos? && p.At? ==> forall j :: p.i <= j < |s| ==> s[j] in delim
    decreases if p.At? then |s| - p.i else 0
  {
    if p.NPos? || p.i >= |s| then NPos
    else if s[p.i] !in delim then p
    else FindFirstNotOf(s, delim, At(p.i + 1))
  }

  /** std::string::find_first_of */
  function FindFirstOf(s: string, delim: string, p: Pos): (q: Pos)
    ensures q.At? ==> q.i < |s| && s[q.i] in delim && p.At? && p.i <= q.i
    ensures q.At? ==> forall j :: p.i <= j < q.i ==> s[j] !in delim
    ensures q.NPos? && p.At? ==> forall j :: p.i <= j < |s| ==> s[j] !in delim
    decreases if p.At? then |s| - p.i else 0
  {
    if p.NPos? || p.i >= |s| then NPos
    else if s[p.i] in delim then p
    else FindFirstOf(s, delim, At(p.i + 1))
  }

  function EndOf(s: string, p: Pos): (e: nat) {
    if p.At? then p.i else |s|
  }

  /** str.substr(lastPos, pos - lastPos): up to the end when pos is npos. */
  function Substr(s: string, lastPos: nat, pos: Pos): (t: string)
    requires lastPos <= EndOf(s, pos) <= |s|
  {
    s[lastPos..EndOf(s, pos)]
  }

  /** A position that is npos or holds the first character of a token. */
  predicate StartsToken(s: string, delim: string, p: Pos) {
    p.At? ==> p.i < |s| && s[p.i] !in delim
  }

  /** The tokens from lastPos on. */
  function TokensFrom(s: string, delim: string, lastPos: Pos): (ts: seq<string>)
    requires StartsToken(s, delim, lastPos)
    decreases if lastPos.At? then |s| - lastPos.i else 0
  {
    if lastPos.NPos? then []
    else
      var pos := FindFirstOf(s, delim, lastPos);
      [Substr(s, lastPos.i, pos)] + TokensFrom(s, delim, FindFirstNotOf(s, delim, pos))
  }

  function Tokens(s: string, delim: string): (ts: seq<string>) {
    TokensFrom(s, delim, FindFirstNotOf(s, delim, At(0)))
  }

  method Tokenize(str: string, tokens: seq<string>, delim: string) returns (out: seq<string>)
    ensures out == tokens + Tokens(str, delim)
  {
    var lastPos := FindFirstNotOf(str, delim, At(0));
    var pos := FindFirstOf(str, delim, lastPos);
    out := tokens;
    while pos != NPos || lastPos != NPos
      invariant StartsToken(str, delim, lastPos)
      invariant pos == FindFirstOf(str, delim, lastPos)
      invariant tokens + Tokens(str, delim) == out + TokensFrom(str, delim, lastPos)
      decreases if lastPos.At? then |str| - lastPos.i else 0
    {
      TokensStep(out, str, delim, lastPos);
      out := out + [Substr(str, lastPos.i, pos)];
      lastPos := FindFirstNotOf(str, delim, pos);
      pos := FindFirstOf(str, delim, lastPos);
    }
  }

  lemma TokensStep(out: seq<string>, s: string, delim: string, lastPos: Pos)
    requires StartsToken(s, delim, lastPos) && lastPos.At?
    ensures var pos := FindFirstOf(s, delim, lastPos);
            out + TokensFrom(s, delim, lastPos)
            == (out + [Substr(s, lastPos.i, pos)]) + TokensFrom(s, delim, FindFirstNotOf(s, delim, pos))
  {
  }

  // ----- What the tokens are -----

  function Later(p: Pos, k: nat): (q: Pos) {
    if p.At? then At(p.i + k) else NPos
  }

  lemma {:induction false} LaterFinds(s: string, delim: string, k: nat, p: Pos)
    requires k <= |s|
    ensures FindFirstOf(s, delim, Later(p, k)) == Later(FindFirstOf(s[k..], delim, p), k)
    ensures FindFirstNotOf(s, delim, Later(p, k)) == Later(FindFirstNotOf(s[k..], delim, p), k)
    decreases if p.At? then |s| - p.i else 0
  {
    if p.At? && k + p.i < |s| {
      var u := s[k..];
      assert u[p.i] == s[k + p.i];
      LaterFinds(s, delim, k, At(p.i + 1));
    }
  }

  /** Tokens do not depend on what is before them. */
  lemma {:induction false} LaterTokens(s: string, delim: string, k: nat, p: Pos)
    requires k <= |s| && StartsToken(s[k..], delim, p)
    ensures StartsToken(s, delim, Later(p, k))
    ensures TokensFrom(s, delim, Later(p, k)) == TokensFrom(s[k..], delim, p)
    decreases if p.At? then |s| - p.i else 0
  {
    if p.At? {
      var u := s[k..];
      var pos := FindFirstOf(u, delim, p);
      LaterFinds(s, delim, k, p);
      LaterFinds(s, delim, k, pos);
      hide FindFirstOf, FindFirstNotOf;
      var next := FindFirstNotOf(u, delim, pos);
      LaterTokens(s, delim, k, next);
      LaterSubstr(s, k, p.i, pos);
    }
  }

  lemma LaterSubstr(s: string, k: nat, i: nat, pos: Pos)
    requires k + i <= |s| && (pos.At? ==> i <= pos.i && k + pos.i <= |s|)
    ensures Substr(s, k + i, Later(pos, k)) == Substr(s[k..], i, pos)
  {
  }

  /** The tokens, from the front: a delimiter is passed over, and a run of other characters as long as can be is a token. */
  lemma TokensMean(s: string, delim: string, e: nat)
    requires e <= |s| && (forall j :: 0 <= j < e ==> s[j] !in delim) && (e < |s| ==> s[e] in delim)
    ensures |s| == 0 ==> Tokens(s, delim) == []
    ensures |s| > 0 && e == 0 ==> Tokens(s, delim) == Tokens(s[1..], delim)
    ensures e > 0 ==> Tokens(s, delim) == [s[..e]] + Tokens(s[e..], delim)
  {
    if |s| > 0 && e == 0 {
      var p := FindFirstNotOf(s[1..], delim, At(0));
      LaterFinds(s, delim, 1, At(0));
      LaterTokens(s, delim, 1, p);
    } else if e > 0 {
      var pos := if e < |s| then At(e) else NPos;
      assert FindFirstNotOf(s, delim, At(0)) == At(0);
      assert s[0..e] == s[..e];
      FirstDelimiter(s, delim, 0, e);
      var p := FindFirstNotOf(s[e..], delim, At(0));
      LaterFinds(s, delim, e, At(0));
      LaterTokens(s, delim, e, p);
      hide FindFirstOf;
    }
  }

  predicate IsToken(t: string, delim: string) {
    t != "" && forall i :: 0 <= i < |t| ==> t[i] !in delim
  }

  /** The text without its delimiters. */
  function Without(s: string, delim: string): (r: string) {
    if |s| == 0 then ""
    else if s[0] in delim then Without(s[1..], delim)
    else [s[0]] + Without(s[1..], delim)
  }

  lemma {:induction false} WithoutConcat(a: string, b: string, delim: string)
    ensures Without(a + b, delim) == Without(a, delim) + Without(b, delim)
  {
    if |a| == 0 {
      assert a + b == b;
    } else {
      WithoutConcat(a[1..], b, delim);
      assert a + b == [a[0]] + (a[1..] + b);
      WithoutFirst(a[0], a[1..] + b, delim);
      WithoutFirst(a[0], a[1..], delim);
      assert a == [a[0]] + a[1..];
    }
  }

  lemma WithoutFirst(c: char, s: string, delim: string)
    ensures Without([c] + s, delim) == (if c in delim then [] else [c]) + Without(s, delim)
  {
    assert ([c] + s)[1..] == s;
  }

  lemma {:induction false} WithoutNone(a: string, delim: string)
    requires forall i :: 0 <= i < |a| ==> a[i] !in delim
    ensures Without(a, delim) == a
  {
    if |a| > 0 {
      WithoutNone(a[1..], delim);
    }
  }

  lemma {:induction false} WithoutAll(a: string, delim: string)
    requires forall i :: 0 <= i < |a| ==> a[i] in delim
    ensures Without(a, delim) == ""
  {
    if |a| > 0 {
      WithoutAll(a[1..], delim);
    }
  }

  /** A token at p, delimiters up to n: only the token counts. */
  lemma TokenThenGap(s: string, delim: string, p: nat, e: nat, n: nat)
    requires p <= e <= n <= |s|
    requires forall j :: p <= j < e ==> s[j] !in delim
    requires forall j :: e <= j < n ==> s[j] in delim
    ensures Without(s[p..], delim) == s[p..e] + Without(s[n..], delim)
  {
    assert s[p..] == s[p..e] + s[e..] && s[e..] == s[e..n] + s[n..];
    WithoutConcat(s[p..e], s[e..], delim);
    WithoutConcat(s[e..n], s[n..], delim);
    WithoutNone(s[p..e], delim);
    WithoutAll(s[e..n], delim);
  }

  lemma {:induction false} TokensFromKeepText(s: string, delim: string, p: Pos)
    requires StartsToken(s, delim, p)
    ensures forall t :: t in TokensFrom(s, delim, p) ==> IsToken(t, delim)
    ensures CText.Flatten(TokensFrom(s, delim, p)) == Without(s[EndOf(s, p)..], delim)
    decreases if p.At? then |s| - p.i else 0
  {
    if p.At? {
      var pos := FindFirstOf(s, delim, p);
      var next := FindFirstNotOf(s, delim, pos);
      TokensFromKeepText(s, delim, next);
      TokenThenGap(s, delim, p.i, EndOf(s, pos), EndOf(s, next));
      var t, rest := Substr(s, p.i, pos), TokensFrom(s, delim, next);
      assert IsToken(t, delim);
      assert ([t] + rest)[1..] == rest;
    }
  }

  /** Tokens are non-empty and free of delimiters; together they are the text without its delimiters. */
  lemma TokensKeepText(s: string, delim: string)
    ensures forall t :: t in Tokens(s, delim) ==> IsToken(t, delim)
    ensures CText.Flatten(Tokens(s, delim)) == Without(s, delim)
  {
    var p := FindFirstNotOf(s, delim, At(0));
    TokensFromKeepText(s, delim, p);
    TokenThenGap(s, delim, 0, 0, EndOf(s, p));
    assert s[0..] == s;
  }

  /** Tokenizing words joined by single spaces gives the words back. */
  lemma TokensOfJoin(ts: seq<string>, delim: string)
    requires ' ' in delim && forall i :: 0 <= i < |ts| ==> IsToken(ts[i], delim)
    ensures Tokens(Join(ts), delim) == ts
  {
    if |ts| > 0 {
      JoinStarts(ts, "", delim);
      TokensFromJoin(ts, "", delim);
      assert "" + Join(ts) == Join(ts);
    }
  }

  lemma JoinStarts(ts: seq<string>, before: string, delim: string)
    requires |ts| > 0 && forall i :: 0 <= i < |ts| ==> IsToken(ts[i], delim)
    ensures StartsToken(before + Join(ts), delim, At(|before|))
    ensures FindFirstNotOf(before + Join(ts), delim, At(|before|)) == At(|before|)
  {
    var s := before + Join(ts);
    assert |Join(ts)| >= |ts[0]| > 0 && Join(ts)[0] == ts[0][0];
    assert s[|before|] == ts[0][0];
  }

  /** The first word of a joined text ends at the space after it, and the next word starts there. */
  lemma JoinStep(ts: seq<string>, before: string, delim: string)
    requires ' ' in delim && |ts| > 0 && forall i :: 0 <= i < |ts| ==> IsToken(ts[i], delim)
    ensures var s, b, e := before + Join(ts), |before|, |before| + |ts[0]|;
            && FindFirstOf(s, delim, At(b)) == (if |ts| == 1 then NPos else At(e))
            && s[b..e] == ts[0] && (|ts| == 1 ==> |s| == e)
            && (|ts| > 1 ==>
                  && s == before + ts[0] + " " + Join(ts[1..])
                  && FindFirstNotOf(s, delim, At(e)) == At(e + 1))
  {
    var s, b, e := before + Join(ts), |before|, |before| + |ts[0]|;
    assert |ts| == 1 ==> s == before + ts[0];
    assert |ts| > 1 ==> s == before + ts[0] + " " + Join(ts[1..]);
    hide Join, FindFirstOf, FindFirstNotOf;
    assert s[b..e] == ts[0];
    FirstDelimiter(s, delim, b, e);
    if |ts| > 1 {
      assert s[e] == ' ';
      JoinStarts(ts[1..], before + ts[0] + " ", delim);
      FirstAfterSpace(s, delim, e);
    }
  }

  lemma FirstDelimiter(s: string, delim: string, b: nat, e: nat)
    requires b <= e <= |s| && IsToken(s[b..e], delim) && (e < |s| ==> s[e] in delim)
    ensures FindFirstOf(s, delim, At(b)) == if e < |s| then At(e) else NPos
  {
    hide FindFirstOf;
    forall j | b <= j < e
      ensures s[j] !in delim
    {
      assert s[j] == s[b..e][j - b];
    }
  }

  lemma FirstAfterSpace(s: string, delim: string, e: nat)
    requires e + 1 < |s| && s[e] in delim && FindFirstNotOf(s, delim, At(e + 1)) == At(e + 1)
    ensures FindFirstNotOf(s, delim, At(e)) == At(e + 1)
  {
  }

  lemma {:induction false} TokensFromJoin(ts: seq<string>, before: string, delim: string)
    requires ' ' in delim && |ts| > 0 && forall i :: 0 <= i < |ts| ==> IsToken(ts[i], delim)
    requires StartsToken(before + Join(ts), delim, At(|before|))
    ensures TokensFrom(before + Join(ts), delim, At(|before|)) == ts
    decreases |ts|
  {
    hide Join, FindFirstOf, IsToken;
    JoinStep(ts, before, delim);
    if |ts| > 1 {
      var before' := before + ts[0] + " ";
      JoinStarts(ts[1..], before', delim);
      TokensFromJoin(ts[1..], before', delim);
      assert ts == [ts[0]] + ts[1..];
    }
  }
}
