/**
 Rewriting a Set-Cookie header in place (parsers::server_set_cookie, parsers::string_move, src/proxy/parsers.cpp;
 miscutil::strncmpic, src/utils/miscutil.cpp): expiration tags go, unless they say that the cookie has expired. What
 parse_header_time makes of a text is a parameter.
 */
module Cookie {
  import opened Wrappers
  import opened CText

  type TimeParser = string -> Option<int>

  const EXPIRES: string := "expires="

  // ----- strncmpic -----

  /** Equal without case up to n characters, a text that ends differing from one that goes on. */
  ghost predicate SameStart(s1: string, s2: string, n: nat) {
    forall k :: 0 <= k < n && (forall j :: 0 <= j < k ==> At(s1, j) != '\0' && At(s2, j) != '\0') ==>
      ToLower(At(s1, k)) == ToLower(At(s2, k))
  }

  method Strncmpic(s1: string, s2: string, n: nat) returns (r: int)
    requires '\0' !in s1 && '\0' !in s2
    ensures r == 0 <==> SameStart(s1, s2, n)
  {
    if n == 0 {
      return 0;
    }
    var i, left := 0, n;
    while i < |s1| && i < |s2|
      invariant i <= |s1| && i <= |s2| && 0 < left && left == n - i
      invariant forall k :: 0 <= k < i ==> ToLower(s1[k]) == ToLower(s2[k])
    {
      if s1[i] != s2[i] && ToLower(s1[i]) != ToLower(s2[i]) {
        break;
      }
      left := left - 1;
      if left <= 0 {
        break;
      }
      i := i + 1;
    }
    assert forall j :: 0 <= j < i ==> At(s1, j) != '\0' && At(s2, j) != '\0';
    r := ToLower(At(s1, i)) as int - ToLower(At(s2, i)) as int;
  }

  // ----- Tags -----

  function Semicolon(t: string): (r: Option<nat>)
    ensures r.Some? ==> r.value < |t| && t[r.value] == ';' && forall k :: 0 <= k < r.value ==> t[k] != ';'
    ensures r.None? ==> ';' !in t
  {
    if |t| == 0 then None
    else if t[0] == ';' then Some(0)
    else
      match Semicolon(t[1..])
      case None => None
      case Some(n) => Some(n + 1)
  }

  /** The length of the first tag of a text, with the ';' and the blanks behind it. */
  function TagLength(t: string): (n: nat)
    ensures n <= |t| && (|t| > 0 ==> n > 0)
  {
    match Semicolon(t)
    case None => |t|
    case Some(p) => p + 1 + LeadingSpaces(t[p + 1..])
  }

  function Tags(t: string): (tags: seq<string>) {
    if |t| == 0 then [] else [t[..TagLength(t)]] + Tags(t[TagLength(t)..])
  }

  predicate IsExpires(t: string) {
    |t| >= 8 && forall k :: 0 <= k < 8 ==> ToLower(t[k]) == EXPIRES[k]
  }

  /** Does the tag at the start of a text go? The date is read from all that follows, not just from the tag. */
  predicate Drops(t: string, parse: TimeParser, now: int) {
    IsExpires(t) && |t| > 8 && match parse(t[8..]) {
      case None => true
      case Some(time) => time - now >= 0
    }
  }

  /** The tags that stay, in order. */
  function Kept(tags: seq<string>, parse: TimeParser, now: int): (kept: seq<string>) {
    if |tags| == 0 then []
    else
      var kept := Kept(tags[1..], parse, now);
      if Drops(Flatten(tags), parse, now) then kept else [tags[0]] + kept
  }

  function Rewrite(t: string, parse: TimeParser, now: int): (r: string) {
    Flatten(Kept(Tags(t), parse, now))
  }

  lemma {:induction false} TagsMakeText(t: string)
    ensures Flatten(Tags(t)) == t
  {
    hide Tags, TagLength, Flatten;
    TagsUnfold(t);
    if |t| > 0 {
      var n := TagLength(t);
      TagsMakeText(t[n..]);
      FlattenCons(t[..n], Tags(t[n..]));
      assert t == t[..n] + t[n..];
    }
  }

  lemma TagsUnfold(t: string)
    ensures |t| == 0 ==> Tags(t) == [] && Flatten(Tags(t)) == t
    ensures |t| > 0 ==> Tags(t) == [t[..TagLength(t)]] + Tags(t[TagLength(t)..])
  {
  }

  /** One turn of the loop. */
  lemma RewriteStep(t: string, parse: TimeParser, now: int)
    requires |t| > 0
    ensures var n := TagLength(t);
            Rewrite(t, parse, now)
            == (if Drops(t, parse, now) then Rewrite(t[n..], parse, now) else t[..n] + Rewrite(t[n..], parse, now))
  {
    var n := TagLength(t);
    var tags := Tags(t);
    TagsMakeText(t);
    assert tags[0] == t[..n] && tags[1..] == Tags(t[n..]);
    hide Tags, Drops, TagLength, Flatten;
    FlattenCons(t[..n], Kept(tags[1..], parse, now));
  }

  lemma FlattenCons(tag: string, tags: seq<string>)
    ensures Flatten([tag] + tags) == tag + Flatten(tags)
  {
    assert ([tag] + tags)[1..] == tags;
  }

  // ----- The header, in place -----

  lemma MovedText(before: string, after: string, dst: nat, src: nat, t: string)
    requires IsText(before, src, t) && dst < src && |after| == |before|
    requires forall k :: dst <= k <= dst + |t| ==> after[k] == before[k - dst + src]
    ensures IsText(after, dst, t)
  {
    forall k | 0 <= k < |t|
      ensures after[dst + k] == t[k]
    {
      assert t[k] == before[src..src + |t|][k];
    }
    assert after[dst..dst + |t|] == t;
  }

  /** Moves the rest of a text down over a part of it. */
  method StringMove(a: array<char>, dst: nat, src: nat, ghost t: string)
    requires dst < src && IsText(a[..], src, t)
    modifies a
    ensures IsText(a[..], dst, t) && a[..][..dst] == old(a[..])[..dst]
  {
    ghost var before := a[..];
    var n := StrLen(a, src, t);
    forall k | 0 <= k < n + 1 {
      a[dst + k] := a[src + k];
    }
    MovedText(before, a[..], dst, src, t);
  }

  method StrLen(a: array<char>, from: nat, ghost t: string) returns (n: nat)
    requires IsText(a[..], from, t)
    ensures n == |t|
  {
    n := 0;
    while a[from + n] != '\0'
      invariant n <= |t|
      decreases |t| - n
    {
      assert n < |t|;
      n := n + 1;
    }
    TextTail(a[..], from, t, n);
    Cursor(a[..], from + n, t[n..]);
  }

  method TextAt(a: array<char>, from: nat, ghost t: string) returns (r: string)
    requires IsText(a[..], from, t)
    ensures r == t
  {
    var n := StrLen(a, from, t);
    r := a[from..from + n];
  }

  method SkipSpaces(a: array<char>, from: nat, ghost t: string) returns (next: nat)
    requires IsText(a[..], from, t)
    ensures next == from + LeadingSpaces(t)
  {
    next := from;
    ghost var n := 0;
    while a[next] != '\0' && IsSpace(a[next])
      invariant next == from + n && n <= |t| && LeadingSpaces(t) == n + LeadingSpaces(t[n..])
      decreases |t| - n
    {
      assert n < |t| && t[n..][0] == a[next] && t[n..][1..] == t[n + 1..];
      n := n + 1;
      next := next + 1;
    }
    assert n < |t| ==> t[n..][0] == a[next];
  }

  method NextTag(a: array<char>, cur: nat, ghost t: string) returns (next: nat)
    requires IsText(a[..], cur, t) && |t| > 0
    ensures next == cur + TagLength(t)
  {
    var text := TextAt(a, cur, t);
    var semicolon := Semicolon(text);
    if semicolon.Some? {
      TextTail(a[..], cur, t, semicolon.value + 1);
      next := SkipSpaces(a, cur + semicolon.value + 1, t[semicolon.value + 1..]);
    } else {
      next := cur + |text|;
    }
  }

  lemma {:induction false} SameAsExpires(t: string, n: nat)
    requires '\0' !in t && n <= 8
    ensures SameStart(t, EXPIRES, n) <==> |t| >= n && forall k :: 0 <= k < n ==> ToLower(t[k]) == EXPIRES[k]
  {
    if n > 0 {
      SameAsExpires(t, n - 1);
      assert |EXPIRES| == 8 && EXPIRES[n - 1] != '\0' && ToLower(EXPIRES[n - 1]) == EXPIRES[n - 1];
      assert forall k :: 0 <= k < 8 ==> EXPIRES[k] != '\0';
      if |t| >= n - 1 && forall k :: 0 <= k < n - 1 ==> ToLower(t[k]) == EXPIRES[k] {
        assert forall j :: 0 <= j < n - 1 ==> At(t, j) != '\0' && At(EXPIRES, j) != '\0';
        assert SameStart(t, EXPIRES, n) ==> ToLower(At(t, n - 1)) == ToLower(At(EXPIRES, n - 1));
      }
    }
  }

  /** Is the tag at the start of a text an expiration date that goes, being unreadable or not yet past? */
  method TagGoes(text: string, parse: TimeParser, now: int) returns (goes: bool)
    requires '\0' !in text
    ensures goes == Drops(text, parse, now)
  {
    SameAsExpires(text, 8);
    var cmp := Strncmpic(text, EXPIRES, 8);
    if cmp == 0 && At(text, 8) != '\0' {
      match parse(text[8..]) {
        case None => return true;
        case Some(cookieTime) => return !(cookieTime - now < 0);
      }
    }
    return false;
  }

  /** The tags that stayed are behind the cursor, the rest of the text is at it, and before the start nothing changed. */
  ghost predicate Progress(s: string, before: string, start: nat, done: string, rest: string) {
    && start + |done| <= |s| == |before| && s[..start] == before[..start]
    && s[start..start + |done|] == done && '\0' !in done
    && IsText(s, start + |done|, rest)
  }

  lemma Begun(s: string, start: nat, t: string)
    requires IsText(s, start, t)
    ensures Progress(s, s, start, "", t)
  {
  }

  lemma Passed(s: string, before: string, start: nat, done: string, t: string, n: nat)
    requires Progress(s, before, start, done, t) && n <= |t|
    ensures Progress(s, before, start, done + t[..n], t[n..])
  {
    var cur := start + |done|;
    assert t[..n] == s[cur..cur + |t|][..n] == s[cur..cur + n];
    assert s[start..cur + n] == s[start..cur] + s[cur..cur + n];
  }

  lemma Overwritten(s: string, after: string, before: string, start: nat, cur: nat, done: string, t: string, rest: string)
    requires Progress(s, before, start, done, t) && cur == start + |done| <= |s| == |after|
    requires after[..cur] == s[..cur] && IsText(after, cur, rest)
    ensures Progress(after, before, start, done, rest)
  {
    assert after[start..cur] == after[..cur][start..] == s[..cur][start..] == s[start..cur];
    assert after[..start] == after[..cur][..start] == s[..cur][..start] == s[..start];
  }

  lemma Finished(s: string, before: string, start: nat, done: string, t: string)
    requires Progress(s, before, start, done, t) && s[start + |done|] == '\0'
    ensures t == "" && IsText(s, start, done) && s[..start] == before[..start]
  {
    Cursor(s, start + |done|, t);
  }

  /** What is done, and what the rest is rewritten to, is what all was to be rewritten to. */
  ghost predicate Accounts(done: string, rest: string, t: string, parse: TimeParser, now: int) {
    done + Rewrite(rest, parse, now) == Rewrite(t, parse, now)
  }

  lemma AccountsStep(done: string, rest: string, t: string, parse: TimeParser, now: int)
    requires Accounts(done, rest, t, parse, now) && |rest| > 0
    ensures var n := TagLength(rest);
            Accounts(if Drops(rest, parse, now) then done else done + rest[..n], rest[n..], t, parse, now)
  {
    hide Rewrite, TagLength, Drops;
    RewriteStep(rest, parse, now);
    var n := TagLength(rest);
    assert done + (rest[..n] + Rewrite(rest[n..], parse, now)) == (done + rest[..n]) + Rewrite(rest[n..], parse, now);
  }

  lemma AccountsStart(t: string, parse: TimeParser, now: int)
    ensures Accounts("", t, t, parse, now)
  {
  }

  lemma AccountsEnd(done: string, t: string, parse: TimeParser, now: int)
    requires Accounts(done, "", t, parse, now)
    ensures done == Rewrite(t, parse, now)
  {
  }

  lemma Cursor(s: string, cur: nat, rest: string)
    requires IsText(s, cur, rest)
    ensures cur < |s| && (s[cur] == '\0' <==> |rest| == 0)
  {
    assert |rest| > 0 ==> rest[0] == s[cur..cur + |rest|][0];
  }

  /** One turn of the loop: the tag at the cursor goes, the rest moving down to it, or the cursor passes it. */
  method Turn(a: array<char>, cur: nat, parse: TimeParser, now: int, ghost rest: string) returns (goes: bool, next: nat)
    requires IsText(a[..], cur, rest) && |rest| > 0
    modifies a
    ensures goes == Drops(rest, parse, now)
    ensures goes ==> next == cur && a[..][..cur] == old(a[..])[..cur]
    ensures !goes ==> next == cur + TagLength(rest) && a[..] == old(a[..])
    ensures IsText(a[..], next, rest[TagLength(rest)..])
  {
    hide TagLength, Drops;
    TextTail(a[..], cur, rest, TagLength(rest));
    next := NextTag(a, cur, rest);
    var text := TextAt(a, cur, rest);
    goes := TagGoes(text, parse, now);
    if goes {
      StringMove(a, cur, next, rest[TagLength(rest)..]);
      next := cur;
    }
  }

  /** The tag loop, on the value t of the header: what comes before it is not touched. */
  method RewriteTags(a: array<char>, start: nat, parse: TimeParser, now: int, ghost t: string) returns (changed: bool)
    requires IsText(a[..], start, t)
    modifies a
    ensures IsText(a[..], start, Rewrite(t, parse, now)) && a[..][..start] == old(a[..])[..start]
    ensures !changed ==> a[..] == old(a[..])
  {
    hide Rewrite, TagLength, Drops, Progress, IsText, Accounts;
    changed := false;
    var cur := start;
    ghost var done, rest, entry := "", t, a[..];
    Begun(a[..], start, t);
    AccountsStart(t, parse, now);
    Cursor(a[..], cur, rest);
    while a[cur] != '\0'
      invariant cur == start + |done| < a.Length && IsText(a[..], cur, rest) && (a[cur] == '\0' <==> |rest| == 0)
      invariant Progress(a[..], entry, start, done, rest)
      invariant Accounts(done, rest, t, parse, now)
      invariant !changed ==> a[..] == entry
      decreases |rest|
    {
      ghost var n, before := TagLength(rest), a[..];
      AccountsStep(done, rest, t, parse, now);
      var goes, next := Turn(a, cur, parse, now, rest);
      if goes {
        Overwritten(before, a[..], entry, start, cur, done, rest, rest[n..]);
        changed := true;
      } else {
        Passed(a[..], entry, start, done, rest, n);
        done := done + rest[..n];
      }
      cur, rest := next, rest[n..];
      Cursor(a[..], cur, rest);
    }
    Finished(a[..], entry, start, done, rest);
    AccountsEnd(done, t, parse, now);
  }

  datatype Flags = Flags(noCookieSet: bool, noCookieKeep: bool)

  /** Where the value of the header starts: behind "Set-Cookie:" and blanks. */
  function ValueStart(header: string): (n: nat)
    requires |header| >= 11
    ensures n <= |header|
  {
    11 + LeadingSpaces(header[11..])
  }

  /** crunched stands for the header pointer set to null. */
  method ServerSetCookie(header: array<char>, flags: Flags, parse: TimeParser, now: int, ghost t: string)
    returns (crunched: bool)
    requires IsText(header[..], 0, t) && |t| >= 11
    modifies header
    ensures crunched == flags.noCookieSet
    ensures if !crunched && flags.noCookieKeep
            then IsText(header[..], 0, t[..ValueStart(t)] + Rewrite(t[ValueStart(t)..], parse, now))
            else header[..] == old(header[..])
  {
    if flags.noCookieSet {
      return true;
    }
    crunched := false;
    if flags.noCookieKeep {
      hide Rewrite;
      TextTail(header[..], 0, t, 11);
      var curTag := SkipSpaces(header, 11, t[11..]);
      TextTail(header[..], 0, t, ValueStart(t));
      var changed := RewriteTags(header, curTag, parse, now, t[ValueStart(t)..]);
      Prefixed(old(header[..]), header[..], t, ValueStart(t), Rewrite(t[ValueStart(t)..], parse, now));
    }
  }

  lemma Prefixed(before: string, after: string, t: string, n: nat, value: string)
    requires IsText(before, 0, t) && n <= |t| && |after| == |before|
    requires after[..n] == before[..n] && IsText(after, n, value)
    ensures IsText(after, 0, t[..n] + value)
  {
    assert before[..n] == before[0..|t|][..n] == t[..n];
    assert after[..n + |value|] == after[..n] + after[n..n + |value|];
  }

  /** The value starts behind the blanks that follow the first eleven characters. */
  lemma ValueStartMeans(header: string)
    requires |header| >= 11
    ensures var n := ValueStart(header);
            && 11 <= n <= |header| && (forall k :: 11 <= k < n ==> header[k] == ' ' || 9 <= header[k] as int <= 13)
            && (n < |header| ==> header[n] != ' ' && !(9 <= header[n] as int <= 13))
  {
    hide LeadingSpaces;
    SpacesFrom(header, 11);
  }

  lemma {:induction false} SpacesMean(u: string)
    ensures var n := LeadingSpaces(u);
            && (forall k :: 0 <= k < n ==> u[k] == ' ' || 9 <= u[k] as int <= 13)
            && (n < |u| ==> u[n] != ' ' && !(9 <= u[n] as int <= 13))
  {
    if |u| > 0 && IsSpace(u[0]) {
      SpacesMean(u[1..]);
      assert forall k :: 0 < k < |u| ==> u[k] == u[1..][k - 1];
    }
  }

  /** Where the first tag ends: behind its semicolon, at p, and the blanks that follow it, or with the text. */
  lemma TagEnds(t: string) returns (p: nat)
    requires |t| > 0
    ensures var n := TagLength(t);
            if ';' in t then
              && p < n <= |t| && t[p] == ';' && (forall k :: 0 <= k < p ==> t[k] != ';')
              && (forall k :: p < k < n ==> t[k] == ' ' || 9 <= t[k] as int <= 13)
              && (n < |t| ==> t[n] != ' ' && !(9 <= t[n] as int <= 13))
            else n == |t|
  {
    p := 0;
    if Semicolon(t).Some? {
      p := Semicolon(t).value;
      hide LeadingSpaces, Semicolon;
      SpacesFrom(t, p + 1);
    }
  }

  lemma SpacesFrom(t: string, i: nat)
    requires i <= |t|
    ensures var n := i + LeadingSpaces(t[i..]);
            && n <= |t| && (forall k :: i <= k < n ==> t[k] == ' ' || 9 <= t[k] as int <= 13)
            && (n < |t| ==> t[n] != ' ' && !(9 <= t[n] as int <= 13))
  {
    var u := t[i..];
    SpacesMean(u);
    hide LeadingSpaces;
    forall k | i <= k < i + LeadingSpaces(u)
      ensures t[k] == ' ' || 9 <= t[k] as int <= 13
    {
      assert t[k] == u[k - i];
    }
  }

  /**
   The rewriting, tag by tag: a text that starts with "expires=", in whatever case, and goes on, loses its first tag, which
   ends at n, when no date can be read from what goes on, or one that is not past; else the first tag stays.
   */
  lemma RewriteMeans(t: string, parse: TimeParser, now: int) returns (n: nat, p: nat)
    requires |t| > 0
    ensures 0 < n <= |t|
    ensures if ';' in t then
              && p < n && t[p] == ';' && (forall k :: 0 <= k < p ==> t[k] != ';')
              && (forall k :: p < k < n ==> t[k] == ' ' || 9 <= t[k] as int <= 13)
              && (n < |t| ==> t[n] != ' ' && !(9 <= t[n] as int <= 13))
            else n == |t|
    ensures Rewrite(t, parse, now)
         == if && |t| > 8
               && (forall k :: 0 <= k < 8 ==>
                     t[k] == "expires="[k] || ('A' <= t[k] <= 'Z' && t[k] as int + 32 == "expires="[k] as int))
               && (parse(t[8..]) == None || parse(t[8..]).value >= now)
            then Rewrite(t[n..], parse, now) else t[..n] + Rewrite(t[n..], parse, now)
    ensures Rewrite("", parse, now) == ""
  {
    n := TagLength(t);
    hide Rewrite, TagLength, IsExpires;
    p := TagEnds(t);
    ExpiresMeans(t);
    RewriteStep(t, parse, now);
    NothingLeft(parse, now);
  }

  lemma NothingLeft(parse: TimeParser, now: int)
    ensures Rewrite("", parse, now) == ""
  {
  }

  lemma ExpiresMeans(t: string)
    ensures IsExpires(t) <==>
            && |t| >= 8
            && forall k :: 0 <= k < 8 ==>
                 t[k] == "expires="[k] || ('A' <= t[k] <= 'Z' && t[k] as int + 32 == "expires="[k] as int)
  {
    forall k | 0 <= k < 8 && k < |t|
      ensures ToLower(t[k]) == EXPIRES[k] <==>
              t[k] == "expires="[k] || ('A' <= t[k] <= 'Z' && t[k] as int + 32 == "expires="[k] as int)
    {
      assert !('A' <= EXPIRES[k] <= 'Z') && EXPIRES[k] == "expires="[k];
    }
  }

  // ----- What stays -----

  predicate IsBlankFirst(t: string) {
    |t| > 0 && IsSpace(t[0])
  }

  lemma {:induction false} SpacesThen(u: string, v: string)
    requires LeadingSpaces(u) == |u| && !IsBlankFirst(v)
    ensures LeadingSpaces(u + v) == |u|
  {
    if |u| == 0 {
      assert u + v == v;
    } else {
      assert (u + v)[1..] == u[1..] + v;
      SpacesThen(u[1..], v);
    }
  }

  lemma {:induction false} SpacesEnd(u: string)
    ensures var n := LeadingSpaces(u); LeadingSpaces(u[..n]) == n && !IsBlankFirst(u[n..])
  {
    if |u| > 0 && IsSpace(u[0]) {
      var n := LeadingSpaces(u);
      SpacesEnd(u[1..]);
      assert u[..n][1..] == u[1..][..n - 1] && u[n..] == u[1..][n - 1..];
    }
  }

  lemma SemicolonAt(t: string, p: nat)
    requires p < |t| && t[p] == ';' && forall k :: 0 <= k < p ==> t[k] != ';'
    ensures Semicolon(t) == Some(p)
  {
    hide Semicolon;
    var r := Semicolon(t);
    assert t[p] in t;
    assert r.Some?;
    assert r.value == p;
  }

  /** The tag is its own first tag. */
  ghost predicate Whole(tag: string) {
    |tag| > 0 && TagLength(tag) == |tag|
  }

  lemma FirstTag(t: string)
    requires |t| > 0
    ensures var n := TagLength(t);
            Whole(t[..n]) && !IsBlankFirst(t[n..]) && (n < |t| ==> ';' in t[..n])
  {
    var n, semicolon := TagLength(t), Semicolon(t);
    if semicolon.None? {
      assert t[..n] == t && t[n..] == "";
    } else {
      var p := semicolon.value;
      assert n == p + 1 + LeadingSpaces(t[p + 1..]);
      hide Semicolon, LeadingSpaces, TagLength, IsBlankFirst;
      SpacesEnd(t[p + 1..]);
      TailOfTag(t, p + 1, n);
      LengthOfTag(t[..n], p);
      assert t[..n][p] == ';';
    }
  }

  lemma TailOfTag(t: string, i: nat, n: nat)
    requires i <= n <= |t|
    ensures t[..n][i..] == t[i..][..n - i] && t[n..] == t[i..][n - i..]
  {
  }

  /** A text whose first semicolon is at p has its first tag to the end of the blanks behind it. */
  lemma LengthOfTag(t: string, p: nat)
    requires p < |t| && t[p] == ';' && forall k :: 0 <= k < p ==> t[k] != ';'
    ensures TagLength(t) == p + 1 + LeadingSpaces(t[p + 1..])
  {
    hide Semicolon, LeadingSpaces;
    SemicolonAt(t, p);
  }

  lemma TagThenRest(tag: string, rest: string)
    requires Whole(tag) && (|rest| > 0 ==> ';' in tag) && !IsBlankFirst(rest)
    ensures TagLength(tag + rest) == |tag|
  {
    if |rest| == 0 {
      assert tag + rest == tag;
    } else {
      hide Semicolon, LeadingSpaces;
      var p := Semicolon(tag).value;
      SemicolonAt(tag + rest, p);
      assert (tag + rest)[p + 1..] == tag[p + 1..] + rest;
      SpacesThen(tag[p + 1..], rest);
    }
  }

  ghost predicate NoneBlank(tags: seq<string>) {
    forall i :: 0 <= i < |tags| ==> |tags[i]| > 0 && !IsSpace(tags[i][0])
  }

  /** Tags that do not run into one another when they are joined. */
  ghost predicate Separate(tags: seq<string>) {
    |tags| > 0 ==>
      && Whole(tags[0]) && (|tags| > 1 ==> ';' in tags[0])
      && NoneBlank(tags[1..]) && Separate(tags[1..])
  }

  lemma {:induction false} TagsAreSeparate(t: string)
    ensures Separate(Tags(t)) && (!IsBlankFirst(t) ==> NoneBlank(Tags(t)))
  {
    if |t| > 0 {
      FirstTag(t);
      var n := TagLength(t);
      TagsAreSeparate(t[n..]);
      assert Tags(t) == [t[..n]] + Tags(t[n..]);
      hide TagLength, Whole, Tags;
      SeparateCons(t[..n], Tags(t[n..]));
    }
  }

  lemma SeparateCons(tag: string, tags: seq<string>)
    requires Whole(tag) && Separate(tags) && NoneBlank(tags) && (|tags| > 0 ==> ';' in tag)
    ensures Separate([tag] + tags) && (!IsBlankFirst(tag) ==> NoneBlank([tag] + tags))
  {
    assert ([tag] + tags)[1..] == tags;
  }

  lemma {:induction false} TagsFoundAgain(tags: seq<string>)
    requires Separate(tags)
    ensures Tags(Flatten(tags)) == tags
  {
    if |tags| > 0 {
      var rest := Flatten(tags[1..]);
      TagsFoundAgain(tags[1..]);
      if |tags| > 1 {
        assert tags[1..][0] == tags[1] && rest == tags[1] + Flatten(tags[1..][1..]);
      }
      TagThenRest(tags[0], rest);
      assert Flatten(tags)[..|tags[0]|] == tags[0] && Flatten(tags)[|tags[0]|..] == rest;
    }
  }

  /** Dates are read from the text of the tag alone. */
  ghost predicate OwnText(parse: TimeParser) {
    forall t: string {:trigger Text(t)} :: parse(t) == parse(Text(t))
  }

  function Text(t: string): (r: string) {
    match Semicolon(t)
    case None => t
    case Some(p) => t[..p]
  }

  lemma ExpiresBeforeSemicolon(t: string)
    requires |t| > 0
    ensures IsExpires(t) <==> IsExpires(t[..TagLength(t)])
    ensures IsExpires(t) ==> Semicolon(t).None? || Semicolon(t).value >= 8
  {
    var n, semicolon := TagLength(t), Semicolon(t);
    assert semicolon.Some? ==> semicolon.value < n;
    hide TagLength, Semicolon, IsExpires, LeadingSpaces, ToLower;
    if semicolon.None? {
      assert n == |t| && t[..n] == t by {
        WithoutSemicolon(t);
      }
    } else if semicolon.value < 8 {
      NotExpires(t, semicolon.value);
      NotExpires(t[..n], semicolon.value);
    } else {
      ExpiresPrefix(t, n);
    }
  }

  lemma WithoutSemicolon(t: string)
    requires Semicolon(t).None?
    ensures TagLength(t) == |t|
  {
  }

  lemma NotExpires(t: string, p: nat)
    requires p < 8 && p < |t| && t[p] == ';'
    ensures !IsExpires(t)
  {
    assert EXPIRES[p] != ';' && ToLower(t[p]) == ';';
  }

  lemma ExpiresPrefix(t: string, n: nat)
    requires 8 <= n <= |t|
    ensures IsExpires(t) <==> IsExpires(t[..n])
  {
    if IsExpires(t[..n]) {
      forall k | 0 <= k < 8
        ensures ToLower(t[k]) == EXPIRES[k]
      {
        assert t[k] == t[..n][k];
      }
    }
  }

  /** Then the decision about a tag does not depend on what follows it. */
  lemma DropsByTag(t: string, parse: TimeParser, now: int)
    requires OwnText(parse) && |t| > 0
    ensures Drops(t, parse, now) == Drops(t[..TagLength(t)], parse, now)
  {
    var n, semicolon := TagLength(t), Semicolon(t);
    if semicolon.None? {
      assert t[..n] == t;
    } else {
      assert semicolon.value < n;
      hide LeadingSpaces, TagLength, Semicolon, IsExpires, Text;
      ExpiresBeforeSemicolon(t);
      if semicolon.value >= 8 {
        DateText(t, semicolon.value);
        DateText(t[..n], semicolon.value);
        SliceOfPrefix(t, n, 8, semicolon.value);
      }
    }
  }

  lemma SliceOfPrefix(t: string, n: nat, i: nat, j: nat)
    requires i <= j <= n <= |t|
    ensures t[..n][i..j] == t[i..j]
  {
  }

  /** The text after "expires=" up to the semicolon. */
  lemma DateText(t: string, p: nat)
    requires 8 <= p < |t| && t[p] == ';' && forall k :: 0 <= k < p ==> t[k] != ';'
    ensures Text(t[8..]) == t[8..p]
  {
    hide Semicolon;
    SemicolonAt(t[8..], p - 8);
  }

  /** The tags, without the expiration dates that go. */
  function Session(tags: seq<string>, parse: TimeParser, now: int): (r: seq<string>) {
    if |tags| == 0 then []
    else
      var rest := Session(tags[1..], parse, now);
      if Drops(tags[0], parse, now) then rest else [tags[0]] + rest
  }

  lemma {:induction false} KeptByTag(t: string, parse: TimeParser, now: int)
    requires OwnText(parse)
    ensures Kept(Tags(t), parse, now) == Session(Tags(t), parse, now)
  {
    if |t| > 0 {
      var n := TagLength(t);
      KeptByTag(t[n..], parse, now);
      TagsMakeText(t);
      DropsByTag(t, parse, now);
      assert Tags(t)[0] == t[..n] && Tags(t)[1..] == Tags(t[n..]);
      hide Drops, TagLength, Flatten, OwnText, Tags;
    }
  }

  lemma {:induction false} SessionIsSeparate(tags: seq<string>, parse: TimeParser, now: int)
    requires Separate(tags)
    ensures Separate(Session(tags, parse, now))
    ensures NoneBlank(tags) ==> NoneBlank(Session(tags, parse, now))
    ensures |tags| == 0 ==> |Session(tags, parse, now)| == 0
  {
    hide Drops, Whole;
    if |tags| > 0 {
      var rest := Session(tags[1..], parse, now);
      SessionIsSeparate(tags[1..], parse, now);
      if |rest| > 0 {
        assert |tags| > 1;
      }
      if !Drops(tags[0], parse, now) {
        SeparateCons(tags[0], rest);
      }
    }
  }

  lemma {:induction false} SessionTwice(tags: seq<string>, parse: TimeParser, now: int)
    ensures var kept := Session(tags, parse, now); Session(kept, parse, now) == kept
  {
    hide Drops;
    if |tags| > 0 {
      SessionTwice(tags[1..], parse, now);
      var rest := Session(tags[1..], parse, now);
      assert ([tags[0]] + rest)[1..] == rest;
    }
  }

  /** The rewritten value has exactly the tags that stay, in order, and rewriting it again changes nothing. */
  lemma RewriteIsSession(t: string, parse: TimeParser, now: int)
    requires OwnText(parse)
    ensures Tags(Rewrite(t, parse, now)) == Session(Tags(t), parse, now)
    ensures Rewrite(Rewrite(t, parse, now), parse, now) == Rewrite(t, parse, now)
  {
    hide Tags, Kept, Session, Flatten, Separate, OwnText;
    var kept := Session(Tags(t), parse, now);
    TagsAreSeparate(t);
    SessionIsSeparate(Tags(t), parse, now);
    KeptByTag(t, parse, now);
    TagsFoundAgain(kept);
    KeptByTag(Flatten(kept), parse, now);
    SessionTwice(Tags(t), parse, now);
  }

  function Others(tags: seq<string>): (r: seq<string>) {
    if |tags| == 0 then []
    else if IsExpires(tags[0]) then Others(tags[1..])
    else [tags[0]] + Others(tags[1..])
  }

  /** Whatever dates are read from, the tags that are not expiration dates all stay, in order. */
  lemma {:induction false} OthersStay(t: string, parse: TimeParser, now: int)
    ensures Others(Kept(Tags(t), parse, now)) == Others(Tags(t))
  {
    if |t| > 0 {
      var n := TagLength(t);
      OthersStay(t[n..], parse, now);
      TagsMakeText(t);
      ExpiresBeforeSemicolon(t);
      assert Tags(t)[0] == t[..n] && Tags(t)[1..] == Tags(t[n..]);
      hide IsExpires, TagLength, Flatten, Tags;
      var kept := Kept(Tags(t[n..]), parse, now);
      assert ([t[..n]] + kept)[1..] == kept;
    }
  }
}
