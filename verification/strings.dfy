/**
 * Character-level string helpers shared by the infinite-scroll model.
 * Strings are sequences of characters; only ASCII case rules are modelled,
 * which is what PHP's byte-oriented string functions do in the "C" locale.
 */
module Strings {

  predicate IsDigit(c: char) {
    '0' <= c <= '9'
  }

  predicate IsLetter(c: char) {
    'A' <= c <= 'Z' || 'a' <= c <= 'z'
  }

  predicate AllDigits(s: string) {
    forall i :: 0 <= i < |s| ==> IsDigit(s[i])
  }

  predicate NoDigits(s: string) {
    forall i :: 0 <= i < |s| ==> !IsDigit(s[i])
  }

  /** A character kept by the case-insensitive class `[A-Z\d\-_]`. */
  predicate IsCssChar(c: char) {
    IsLetter(c) || IsDigit(c) || c == '-' || c == '_'
  }

  predicate AllCss(s: string) {
    forall i :: 0 <= i < |s| ==> IsCssChar(s[i])
  }

  /** `preg_replace('#[^A-Z\d\-_]#i', '', s)`: drops every character outside the class. */
  function StripCss(s: string): (r: string)
    ensures AllCss(r)
    ensures |r| <= |s|
    ensures AllCss(s) ==> r == s
  {
    if s == [] then []
    else if IsCssChar(s[0]) then [s[0]] + StripCss(s[1..])
    else StripCss(s[1..])
  }

  /** Stripping keeps every class character, as often as it occurs, and nothing else. */
  lemma {:induction false} StripCssKeepsExactlyCssChars(s: string, c: char)
    ensures multiset(StripCss(s))[c] == if IsCssChar(c) then multiset(s)[c] else 0
  {
    if s != [] {
      StripCssKeepsExactlyCssChars(s[1..], c);
      assert s == [s[0]] + s[1..];
      assert multiset(s) == multiset([s[0]]) + multiset(s[1..]);
      if IsCssChar(s[0]) {
        assert multiset(StripCss(s)) == multiset([s[0]]) + multiset(StripCss(s[1..]));
      }
    }
  }

  predicate StartsWith(s: string, prefix: string) {
    |prefix| <= |s| && s[..|prefix|] == prefix
  }

  predicate EndsWith(s: string, suffix: string) {
    |suffix| <= |s| && s[|s| - |suffix|..] == suffix
  }

  /** `strpos(s, sub) !== false`. */
  predicate Contains(s: string, sub: string)
    decreases |s|
  {
    StartsWith(s, sub) || (s != [] && Contains(s[1..], sub))
  }

  /** An occurrence at a given position is a containment. */
  lemma {:induction false} ContainsAt(s: string, sub: string, i: nat)
    requires i + |sub| <= |s|
    requires s[i..i + |sub|] == sub
    ensures Contains(s, sub)
    decreases i
  {
    if i > 0 {
      assert s[1..][i - 1..i - 1 + |sub|] == s[i..i + |sub|];
      ContainsAt(s[1..], sub, i - 1);
    } else {
      assert s[..|sub|] == sub;
    }
  }

  /**
   * `str_replace(pat, rep, s)` for one pattern: scans left to right and replaces
   * every non-overlapping occurrence.
   */
  function ReplaceAll(s: string, pat: string, rep: string): (r: string)
    requires |pat| > 0
    ensures !Contains(s, pat) ==> r == s
    decreases |s|
  {
    if |s| < |pat| then s
    else if s[..|pat|] == pat then rep + ReplaceAll(s[|pat|..], pat, rep)
    else [s[0]] + ReplaceAll(s[1..], pat, rep)
  }

  /** Replacing a pattern by itself changes nothing. */
  lemma {:induction false} ReplaceAllBySelf(s: string, pat: string)
    requires |pat| > 0
    ensures ReplaceAll(s, pat, pat) == s
    decreases |s|
  {
    if |s| >= |pat| {
      if s[..|pat|] == pat {
        ReplaceAllBySelf(s[|pat|..], pat);
        assert s == s[..|pat|] + s[|pat|..];
      } else {
        ReplaceAllBySelf(s[1..], pat);
        assert s == [s[0]] + s[1..];
      }
    }
  }

  function UpperChar(c: char): char {
    if 'a' <= c <= 'z' then (c as int - 32) as char else c
  }

  function LowerChar(c: char): char {
    if 'A' <= c <= 'Z' then (c as int + 32) as char else c
  }

  /** `strtoupper`: raises the ASCII lower-case letters and keeps every other character. */
  function ToUpper(s: string): (r: string)
    ensures |r| == |s|
    ensures forall i :: 0 <= i < |s| ==> r[i] == UpperChar(s[i])
    ensures forall i :: 0 <= i < |r| ==> !('a' <= r[i] <= 'z')
  {
    if s == [] then [] else [UpperChar(s[0])] + ToUpper(s[1..])
  }

  /** Upper-casing twice is upper-casing once. */
  lemma ToUpperIdempotent(s: string)
    ensures ToUpper(ToUpper(s)) == ToUpper(s)
  {
    var u := ToUpper(s);
    assert forall i :: 0 <= i < |u| ==> ToUpper(u)[i] == u[i];
  }

  /** Case-insensitive equality of ASCII letters, as PCRE's `i` flag compares them. */
  predicate EqualsIgnoreCase(a: string, b: string) {
    |a| == |b| && forall i :: 0 <= i < |a| ==> LowerChar(a[i]) == LowerChar(b[i])
  }

  /** The characters PHP's `trim` removes by default. */
  predicate IsTrimChar(c: char) {
    c == ' ' || c == '\t' || c == '\n' || c == '\r' || c == '\0' || c == '\U{B}'
  }

  function TrimLeft(s: string): (r: string)
    ensures |r| <= |s| && r == s[|s| - |r|..]
    ensures r == [] || !IsTrimChar(r[0])
    ensures s == [] || !IsTrimChar(s[0]) ==> r == s
  {
    if s != [] && IsTrimChar(s[0]) then TrimLeft(s[1..]) else s
  }

  function TrimRight(s: string): (r: string)
    ensures |r| <= |s| && r == s[..|r|]
    ensures r == [] || !IsTrimChar(r[|r| - 1])
    ensures s == [] || !IsTrimChar(s[|s| - 1]) ==> r == s
  {
    if s != [] && IsTrimChar(s[|s| - 1]) then TrimRight(s[..|s| - 1]) else s
  }

  /** `trim(s)`: a slice of `s` that neither starts nor ends with a trimmed character. */
  function Trim(s: string): (r: string)
    ensures |r| <= |s|
    ensures r == [] || (!IsTrimChar(r[0]) && !IsTrimChar(r[|r| - 1]))
    ensures s == [] || (!IsTrimChar(s[0]) && !IsTrimChar(s[|s| - 1])) ==> r == s
  {
    var l := TrimLeft(s);
    var r := TrimRight(l);
    assert r != [] ==> r[0] == l[0];
    r
  }

  /** Ten characters from position `i` have the shape `dddd-dd-dd`. */
  predicate DateAt(s: string, i: int)
    requires 0 <= i && i + 10 <= |s|
  {
    && IsDigit(s[i]) && IsDigit(s[i + 1]) && IsDigit(s[i + 2]) && IsDigit(s[i + 3])
    && s[i + 4] == '-'
    && IsDigit(s[i + 5]) && IsDigit(s[i + 6])
    && s[i + 7] == '-'
    && IsDigit(s[i + 8]) && IsDigit(s[i + 9])
  }

  /** `preg_match('|\d{4}\-\d{2}\-\d{2}|', s)`: the shape occurs anywhere in `s`. */
  predicate HasDatePattern(s: string) {
    exists i | 0 <= i && i + 10 <= |s| :: DateAt(s, i)
  }
}
