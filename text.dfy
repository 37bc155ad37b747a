/**
 * The string operations the handlers rely on: Python's `str.strip()` with no
 * argument, `str.lower()` and the substring test `sub in s`.
 */
module Text {

  /**
   * Python's `str.isspace()` for one character: the characters `str.strip()`
   * removes when called without an argument.
   */
  predicate IsSpace(c: char) {
    var n := c as int;
    (0x09 <= n <= 0x0D) || (0x1C <= n <= 0x20) || n == 0x85 || n == 0xA0 || n == 0x1680
    || (0x2000 <= n <= 0x200A) || n == 0x2028 || n == 0x2029 || n == 0x202F
    || n == 0x205F || n == 0x3000
  }

  /** True when every character of `s` is whitespace (the empty string included). */
  predicate IsBlank(s: string) {
    forall k :: 0 <= k < |s| ==> IsSpace(s[k])
  }

  /** The number of whitespace characters `s` starts with. */
  function LeadingSpaces(s: string): (n: nat)
    ensures n <= |s| && IsBlank(s[..n])
    ensures n < |s| ==> !IsSpace(s[n])
    decreases |s|
  {
    if s != [] && IsSpace(s[0]) then
      var m := LeadingSpaces(s[1..]);
      assert s[..1 + m] == [s[0]] + s[1..][..m];
      1 + m
    else
      0
  }

  /** The length of `s` without the whitespace it ends with. */
  function TrailingStart(s: string): (n: nat)
    ensures n <= |s| && IsBlank(s[n..])
    ensures n > 0 ==> !IsSpace(s[n - 1])
    decreases |s|
  {
    if s != [] && IsSpace(s[|s| - 1]) then
      var n := TrailingStart(s[..|s| - 1]);
      assert s[n..] == s[..|s| - 1][n..] + [s[|s| - 1]];
      n
    else
      |s|
  }

  /**
   * Python's `s.strip()`: the infix of `s` left after removing whitespace at
   * both ends. It is empty exactly when `s` is blank, and otherwise starts and
   * ends with a non-whitespace character.
   */
  function Strip(s: string): (r: string)
    ensures r == [] <==> IsBlank(s)
    ensures r != [] ==> IsStripped(r)
    ensures exists i :: 0 <= i <= |s| - |r| && IsBlank(s[..i]) && r == s[i..i + |r|] && IsBlank(s[i + |r|..])
  {
    var i := LeadingSpaces(s);
    var n := TrailingStart(s[i..]);
    StripMargins(s, i, n);
    s[i..i + n]
  }

  /**
   * Cutting a blank prefix of length `i` (followed by a non-whitespace
   * character) and then a blank suffix (preceded by one) off `s` leaves
   * an infix that is empty exactly when `s` is blank and otherwise stripped.
   */
  lemma StripMargins(s: string, i: nat, n: nat)
    requires i <= |s| && IsBlank(s[..i]) && (i < |s| ==> !IsSpace(s[i]))
    requires n <= |s| - i && IsBlank(s[i..][n..]) && (n > 0 ==> !IsSpace(s[i..][n - 1]))
    ensures s[i..i + n] == [] <==> IsBlank(s)
    ensures s[i..i + n] != [] ==> IsStripped(s[i..i + n])
    ensures exists k :: 0 <= k <= |s| - n && IsBlank(s[..k]) && s[i..i + n] == s[k..k + n] && IsBlank(s[k + n..])
  {
    var j := i + n;
    assert s[i..][n..] == s[j..];
    StripBlank(s, i, j);
    if n > 0 {
      assert s[i..j][0] == s[i] && s[i..j][n - 1] == s[i..][n - 1];
    }
  }

  /** Cutting blank margins off `s` leaves nothing exactly when `s` is blank. */
  lemma StripBlank(s: string, i: nat, j: nat)
    requires i <= j <= |s|
    requires IsBlank(s[..i]) && IsBlank(s[j..])
    requires i < |s| ==> !IsSpace(s[i])
    ensures s[i..j] == [] <==> IsBlank(s)
  {
    if i == j {
      assert s == s[..i] + s[j..];
      BlankAppend(s[..i], s[j..]);
    }
  }

  /** Two blank strings make a blank string. */
  lemma BlankAppend(a: string, b: string)
    requires IsBlank(a) && IsBlank(b)
    ensures IsBlank(a + b)
  {
    forall k | 0 <= k < |a + b| ensures IsSpace((a + b)[k]) {
      if k >= |a| {
        assert (a + b)[k] == b[k - |a|];
      }
    }
  }

  /** A non-empty text with nothing to strip: no whitespace at either end. */
  predicate IsStripped(s: string) {
    s != [] && !IsSpace(s[0]) && !IsSpace(s[|s| - 1])
  }

  /** A non-empty stripped text is left as it is by stripping, so stripping twice changes nothing. */
  lemma StripIdempotent(s: string)
    ensures IsStripped(s) ==> Strip(s) == s
    ensures Strip(Strip(s)) == Strip(s)
  {
    if IsStripped(s) {
      assert LeadingSpaces(s) == 0;
      assert TrailingStart(s[0..]) == |s|;
      assert s[0..|s|] == s;
    }
    var r := Strip(s);
    if r != [] {
      assert LeadingSpaces(r) == 0;
      assert TrailingStart(r[0..]) == |r|;
      assert r[0..|r|] == r;
    }
  }

  /** Lower-casing of one character, for the ASCII letters. */
  function AsciiLower(c: char): (d: char)
    ensures 'A' <= c <= 'Z' ==> 'a' <= d <= 'z' && d as int - c as int == 32
    ensures !('A' <= c <= 'Z') ==> d == c
  {
    if 'A' <= c <= 'Z' then (c as int + 32) as char else c
  }

  /** `s.lower()`, character by character, for the ASCII letters. */
  function Lower(s: string): (r: string)
    ensures |r| == |s|
    ensures forall k :: 0 <= k < |s| ==> r[k] == AsciiLower(s[k])
  {
    seq(|s|, k requires 0 <= k < |s| => AsciiLower(s[k]))
  }

  /** Lower-casing works piecewise over a concatenation. */
  lemma LowerAppend(a: string, b: string)
    ensures Lower(a + b) == Lower(a) + Lower(b)
  {
    assert |Lower(a + b)| == |Lower(a) + Lower(b)|;
    forall k | 0 <= k < |a + b| ensures Lower(a + b)[k] == (Lower(a) + Lower(b))[k] {
      if k < |a| {
        assert (a + b)[k] == a[k];
      } else {
        assert (a + b)[k] == b[k - |a|];
      }
    }
  }

  /** Python's substring test `sub in s`: `sub` occurs in `s` at some position. */
  predicate Contains(s: string, sub: string) {
    exists i | 0 <= i <= |s| - |sub| :: sub <= s[i..]
  }

  /** A string contains every infix written into it. */
  lemma ContainsInfix(pre: string, sub: string, post: string)
    ensures Contains(pre + sub + post, sub)
  {
    assert sub <= (pre + sub + post)[|pre|..];
  }

  /** For a one-character needle, the substring test is membership. */
  lemma ContainsChar(s: string, c: char)
    ensures Contains(s, [c]) <==> c in s
  {
    if Contains(s, [c]) {
      var i :| 0 <= i <= |s| - 1 && [c] <= s[i..];
      assert s[i] == c;
    }
    if c in s {
      var i :| 0 <= i < |s| && s[i] == c;
      assert [c] <= s[i..];
    }
  }
}
