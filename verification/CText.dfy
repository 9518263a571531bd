/** Texts that end at their first nul, and the character classes of the C library on ASCII. */
module CText {
  predicate IsSpace(c: char) {
    c == ' ' || 9 <= c as int <= 13
  }

  function LeadingSpaces(t: string): (n: nat)
    ensures n <= |t|
  {
    if |t| > 0 && IsSpace(t[0]) then 1 + LeadingSpaces(t[1..]) else 0
  }

  function ToLower(c: char): (r: char) {
    if 'A' <= c <= 'Z' then (c as int + 32) as char else c
  }

  /** Equal in lower case: the same, or a capital letter and the letter 32 codes behind it. */
  lemma LowerAlike(c: char, d: char)
    ensures ToLower(c) == ToLower(d) <==>
            || c == d
            || ('A' <= c <= 'Z' && d as int == c as int + 32)
            || ('A' <= d <= 'Z' && c as int == d as int + 32)
  {
  }

  /** The character at k of a text, or the nul that ends it. */
  function At(t: string, k: nat): (c: char) {
    if k < |t| then t[k] else '\0'
  }

  function Flatten(ts: seq<string>): (t: string) {
    if |ts| == 0 then "" else ts[0] + Flatten(ts[1..])
  }

  /** t is the text that starts at from. */
  ghost predicate IsText(s: string, from: nat, t: string) {
    from + |t| < |s| && s[from..from + |t|] == t && s[from + |t|] == '\0' && '\0' !in t
  }

  lemma TextTail(s: string, from: nat, t: string, n: nat)
    requires IsText(s, from, t) && n <= |t|
    ensures IsText(s, from + n, t[n..])
  {
  }
}
