/**
 * The few `str`/`char` operations of Rust's standard library that the front end
 * relies on, over ASCII text: character classes, trimming, prefix stripping,
 * substring search, lower-casing and single-character replacement.
 */
module Text {

  predicate IsAsciiAlphabetic(c: char) {
    ('a' <= c <= 'z') || ('A' <= c <= 'Z')
  }

  predicate IsAsciiDigit(c: char) {
    '0' <= c <= '9'
  }

  predicate IsAsciiAlphanumeric(c: char) {
    IsAsciiAlphabetic(c) || IsAsciiDigit(c)
  }

  /** A character that may continue an identifier: ASCII letter, digit or `_`. */
  predicate IsWordChar(c: char) {
    IsAsciiAlphanumeric(c) || c == '_'
  }

  /** `char::is_whitespace` restricted to ASCII: tab, LF, VT, FF, CR and space. */
  predicate IsWhitespace(c: char) {
    c == ' ' || c == '\t' || c == '\n' || c == '\U{000B}' || c == '\U{000C}' || c == '\r'
  }

  predicate StartsWith(s: string, prefix: string) {
    |prefix| <= |s| && s[..|prefix|] == prefix
  }

  predicate EndsWith(s: string, suffix: string) {
    |suffix| <= |s| && s[|s| - |suffix|..] == suffix
  }

  /** `str::trim_start`: drops the leading whitespace and nothing else. */
  function TrimStart(s: string): (r: string)
    ensures |r| <= |s| && r == s[|s| - |r|..]
    ensures forall k :: 0 <= k < |s| - |r| ==> IsWhitespace(s[k])
    ensures r == [] || !IsWhitespace(r[0])
  {
    if s != [] && IsWhitespace(s[0]) then TrimStart(s[1..]) else s
  }

  /** `str::trim_end`: drops the trailing whitespace and nothing else. */
  function TrimEnd(s: string): (r: string)
    ensures |r| <= |s| && r == s[..|r|]
    ensures forall k :: |r| <= k < |s| ==> IsWhitespace(s[k])
    ensures r == [] || !IsWhitespace(r[|r| - 1])
  {
    if s != [] && IsWhitespace(s[|s| - 1]) then TrimEnd(s[..|s| - 1]) else s
  }

  /**
   * `str::trim`: the result is the slice of `s` that starts at index `a`, the
   * length of the leading whitespace, with only whitespace around it.
   */
  function Trim(s: string): (r: string)
    ensures var a := |s| - |TrimStart(s)|;
      && a + |r| <= |s| && r == s[a..a + |r|]
      && (forall k :: 0 <= k < a ==> IsWhitespace(s[k]))
      && (forall k :: a + |r| <= k < |s| ==> IsWhitespace(s[k]))
    ensures r == [] || (!IsWhitespace(r[0]) && !IsWhitespace(r[|r| - 1]))
  {
    var t := TrimStart(s);
    var r := TrimEnd(t);
    TrimSlice(s, t, r);
    r
  }

  /** The trailing whitespace of a suffix `t` of `s` is trailing whitespace of `s`. */
  lemma TrimSlice(s: string, t: string, r: string)
    requires |t| <= |s| && t == s[|s| - |t|..]
    requires forall k :: 0 <= k < |s| - |t| ==> IsWhitespace(s[k])
    requires t == [] || !IsWhitespace(t[0])
    requires |r| <= |t| && r == t[..|r|]
    requires forall k :: |r| <= k < |t| ==> IsWhitespace(t[k])
    requires r == [] || !IsWhitespace(r[|r| - 1])
    ensures var a := |s| - |t|;
      && a + |r| <= |s| && r == s[a..a + |r|]
      && (forall k :: 0 <= k < a ==> IsWhitespace(s[k]))
      && (forall k :: a + |r| <= k < |s| ==> IsWhitespace(s[k]))
    ensures r == [] || (!IsWhitespace(r[0]) && !IsWhitespace(r[|r| - 1]))
  {
    var a := |s| - |t|;
    forall k | a + |r| <= k < |s|
      ensures IsWhitespace(s[k])
    {
      assert s[k] == t[k - a];
    }
  }

  /** `p` written `n` times. */
  function Repeat(p: string, n: nat): string {
    if n == 0 then [] else p + Repeat(p, n - 1)
  }

  /**
   * `str::trim_start_matches` with a string pattern: removes `p` from the front
   * as many times as it occurs there, back to back.
   */
  function TrimStartMatches(s: string, p: string): (r: string)
    requires p != []
    ensures |r| <= |s| && r == s[|s| - |r|..]
    ensures !StartsWith(r, p)
  {
    s[StrippedUpTo(s, p, 0)..]
  }

  /** Where the back-to-back copies of `p` that start at index `i` of `s` end. */
  function StrippedUpTo(s: string, p: string, i: nat): (j: nat)
    requires p != [] && i <= |s|
    ensures i <= j <= |s|
    ensures !StartsWith(s[j..], p)
    decreases |s| - i
  {
    if OccursAt(s, p, i) then
      StrippedUpTo(s, p, i + |p|)
    else
      assert |p| <= |s| - i ==> s[i..][..|p|] == s[i..i + |p|];
      i
  }

  /** What is removed is the pattern, some number of times over. */
  lemma TrimStartMatchesStrips(s: string, p: string)
    requires p != []
    ensures exists n: nat :: s == Repeat(p, n) + TrimStartMatches(s, p)
  {
    var n := StrippedCount(s, p, 0);
    assert s[0..] == s;
  }

  /** How many copies of `p` are stripped from index `i` on. */
  lemma {:induction false} StrippedCount(s: string, p: string, i: nat) returns (n: nat)
    requires p != [] && i <= |s|
    ensures s[i..] == Repeat(p, n) + s[StrippedUpTo(s, p, i)..]
    decreases |s| - i
  {
    if OccursAt(s, p, i) {
      var m := StrippedCount(s, p, i + |p|);
      assert s[i..] == s[i..i + |p|] + s[i + |p|..];
      n := m + 1;
    } else {
      n := 0;
    }
  }

  /** `sub` occurs in `s` starting at index `k`. */
  predicate OccursAt(s: string, sub: string, k: int) {
    0 <= k <= |s| - |sub| && s[k..k + |sub|] == sub
  }

  /** `str::contains` with a string pattern, searched left to right. */
  function Contains(s: string, sub: string): (b: bool)
    ensures b <==> exists k :: OccursAt(s, sub, k)
    decreases |s|
  {
    if |s| < |sub| then false
    else if s[..|sub|] == sub then
      assert OccursAt(s, sub, 0);
      true
    else
      var b := Contains(s[1..], sub);
      assert b ==> exists k :: OccursAt(s, sub, k) by {
        if b {
          var k :| OccursAt(s[1..], sub, k);
          assert s[k + 1..k + 1 + |sub|] == s[1..][k..k + |sub|];
          assert OccursAt(s, sub, k + 1);
        }
      }
      assert (exists k :: OccursAt(s, sub, k)) ==> b by {
        if exists k :: OccursAt(s, sub, k) {
          var k :| OccursAt(s, sub, k);
          assert k != 0;
          assert s[1..][k - 1..k - 1 + |sub|] == s[k..k + |sub|];
          assert OccursAt(s[1..], sub, k - 1);
        }
      }
      b
  }

  function LowerChar(c: char): char {
    if 'A' <= c <= 'Z' then (c as int + 32) as char else c
  }

  /** `str::to_ascii_lowercase`. */
  function ToAsciiLower(s: string): (r: string)
    ensures |r| == |s|
    ensures forall k :: 0 <= k < |s| ==> r[k] == LowerChar(s[k])
  {
    if s == [] then [] else [LowerChar(s[0])] + ToAsciiLower(s[1..])
  }

  /** Lower-casing twice is lower-casing once. */
  lemma ToAsciiLowerIdempotent(s: string)
    ensures ToAsciiLower(ToAsciiLower(s)) == ToAsciiLower(s)
  {
    var l := ToAsciiLower(s);
    assert forall k :: 0 <= k < |l| ==> LowerChar(l[k]) == l[k];
  }

  /** `str::replace` with a character pattern: every `c` becomes `rep`. */
  function ReplaceChar(s: string, c: char, rep: string): (r: string)
    ensures c !in rep ==> c !in r
    ensures forall d :: d != c && d !in rep ==> (d in r <==> d in s)
  {
    if s == [] then []
    else (if s[0] == c then rep else [s[0]]) + ReplaceChar(s[1..], c, rep)
  }
}
