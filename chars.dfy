/**
 * Character classes and string helpers that the contact book borrows from
 * Python: the whitespace class (`\s`, `str.isspace`, `str.strip`), the word
 * class `\w`, and `str.lower()`.
 *
 * The whitespace class is Python's complete list. The word class and the
 * lower-casing are stated for ASCII only.
 */
module Chars {

  /** Python's whitespace: what `\s` matches in a `str` pattern and what `str.strip()` removes. */
  predicate IsSpace(c: char) {
    var n := c as int;
    (0x09 <= n <= 0x0D) || (0x1C <= n <= 0x20) || n == 0x85 || n == 0xA0 || n == 0x1680
    || (0x2000 <= n <= 0x200A) || n == 0x2028 || n == 0x2029 || n == 0x202F || n == 0x205F
    || n == 0x3000
  }

  predicate IsAsciiLetter(c: char) {
    ('A' <= c <= 'Z') || ('a' <= c <= 'z')
  }

  predicate IsDigit(c: char) {
    '0' <= c <= '9'
  }

  /** `\w`, restricted to ASCII: letters, digits and the underscore. */
  predicate IsWordChar(c: char) {
    IsAsciiLetter(c) || IsDigit(c) || c == '_'
  }

  /** `str.lower()` on one character, restricted to ASCII. */
  function LowerChar(c: char): char {
    if 'A' <= c <= 'Z' then (c as int + 32) as char else c
  }

  function Lower(s: string): string {
    seq(|s|, i requires 0 <= i < |s| => LowerChar(s[i]))
  }

  /** Length of the longest prefix of `s` whose characters all satisfy `p`. */
  function SpanLength(s: string, p: char -> bool): (k: nat)
    ensures k <= |s|
    ensures forall i | 0 <= i < k :: p(s[i])
    ensures k < |s| ==> !p(s[k])
  {
    if s != [] && p(s[0]) then 1 + SpanLength(s[1..], p) else 0
  }

  /** Length of the longest suffix of `s` whose characters all satisfy `p`. */
  function SuffixSpanLength(s: string, p: char -> bool): (k: nat)
    ensures k <= |s|
    ensures forall i | |s| - k <= i < |s| :: p(s[i])
    ensures k < |s| ==> !p(s[|s| - 1 - k])
  {
    if s != [] && p(s[|s| - 1]) then 1 + SuffixSpanLength(s[..|s| - 1], p) else 0
  }

  /** Drop leading whitespace. */
  function TrimStart(s: string): string {
    if s != [] && IsSpace(s[0]) then TrimStart(s[1..]) else s
  }

  /** Drop trailing whitespace. */
  function TrimEnd(s: string): string {
    if s != [] && IsSpace(s[|s| - 1]) then TrimEnd(s[..|s| - 1]) else s
  }

  /** Python's `str.strip()` without arguments. */
  function Strip(s: string): string {
    TrimEnd(TrimStart(s))
  }

  /** `TrimStart` drops a prefix of whitespace and stops at the first other character. */
  lemma {:induction false} TrimStartSpec(s: string) returns (lo: nat)
    ensures lo <= |s| && TrimStart(s) == s[lo..]
    ensures forall i | 0 <= i < lo :: IsSpace(s[i])
    ensures TrimStart(s) != [] ==> !IsSpace(TrimStart(s)[0])
  {
    if s != [] && IsSpace(s[0]) {
      var k := TrimStartSpec(s[1..]);
      lo := k + 1;
      assert s[1..][k..] == s[lo..];
      forall i | 0 <= i < lo ensures IsSpace(s[i]) {
        if i > 0 { assert s[i] == s[1..][i - 1]; }
      }
    } else {
      lo := 0;
    }
  }

  /** `TrimEnd` drops a suffix of whitespace and stops at the last other character. */
  lemma {:induction false} TrimEndSpec(s: string) returns (hi: nat)
    ensures hi <= |s| && TrimEnd(s) == s[..hi]
    ensures forall i | hi <= i < |s| :: IsSpace(s[i])
    ensures TrimEnd(s) != [] ==> !IsSpace(TrimEnd(s)[|TrimEnd(s)| - 1])
  {
    if s != [] && IsSpace(s[|s| - 1]) {
      var p := s[..|s| - 1];
      hi := TrimEndSpec(p);
      assert p[..hi] == s[..hi];
      forall i | hi <= i < |s| ensures IsSpace(s[i]) {
        if i < |p| { assert s[i] == p[i]; }
      }
    } else {
      hi := |s|;
    }
  }

  /** `strip` removes whitespace only, and only at the two ends. */
  lemma StripIsSlice(s: string) returns (lo: nat, hi: nat)
    ensures lo <= hi <= |s| && Strip(s) == s[lo..hi]
    ensures forall i | 0 <= i < lo :: IsSpace(s[i])
    ensures forall i | hi <= i < |s| :: IsSpace(s[i])
  {
    var t := TrimStart(s);
    lo := TrimStartSpec(s);
    var h := TrimEndSpec(t);
    hi := lo + h;
    assert Strip(s) == t[..h] == s[lo..hi];
    forall i | hi <= i < |s| ensures IsSpace(s[i]) { assert s[i] == t[i - lo]; }
  }

  /** What is left neither starts nor ends with whitespace. */
  lemma StripTrimsBothEnds(s: string)
    ensures Strip(s) != [] ==> !IsSpace(Strip(s)[0]) && !IsSpace(Strip(s)[|Strip(s)| - 1])
  {
    var t := TrimStart(s);
    var lo := TrimStartSpec(s);
    var h := TrimEndSpec(t);
    if Strip(s) != [] {
      assert Strip(s)[0] == t[0];
    }
  }

  /** A line strips to "" exactly when it is all whitespace. */
  lemma StripBlank(s: string)
    ensures Strip(s) == [] <==> forall i | 0 <= i < |s| :: IsSpace(s[i])
  {
    var lo, hi := StripIsSlice(s);
    StripTrimsBothEnds(s);
    if Strip(s) == [] {
      forall i | 0 <= i < |s| ensures IsSpace(s[i]) { assert i < lo || hi <= i; }
    } else {
      assert Strip(s)[0] == s[lo];
    }
  }

  /** Stripped text never ends in a newline, the one case where Python's `$` differs from end of string. */
  lemma StripHasNoFinalNewline(s: string)
    ensures Strip(s) == [] || Strip(s)[|Strip(s)| - 1] != '\n'
  {
    StripTrimsBothEnds(s);
  }

  lemma {:induction false} LowerIdempotent(s: string)
    ensures Lower(Lower(s)) == Lower(s)
  {
    assert forall i | 0 <= i < |s| :: LowerChar(LowerChar(s[i])) == LowerChar(s[i]);
  }
}
