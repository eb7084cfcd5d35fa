/** The JavaScript string built-ins the application relies on: `includes`,
    `trim`, and the decimal rendering of a non-negative integer inside a
    template literal. Strings are sequences of Unicode scalar values. */
module JsString {

  predicate StartsWith(s: string, p: string)
  {
    |p| <= |s| && s[..|p|] == p
  }

  /** `p` occurs somewhere in `s`. */
  predicate Contains(s: string, p: string)
  {
    exists i :: 0 <= i <= |s| && StartsWith(s[i..], p)
  }

  /** `s.includes(p)`: the scan from the left for a position where `s`
      starts with `p`. */
  function Includes(s: string, p: string): (r: bool)
    ensures r ==> |p| <= |s|
    decreases |s|
  {
    StartsWith(s, p) || (s != [] && Includes(s[1..], p))
  }

  /** The scan finds `p` exactly when `p` occurs in `s`. */
  lemma {:induction false} IncludesIsContains(s: string, p: string)
    ensures Includes(s, p) <==> Contains(s, p)
    decreases |s|
  {
    if s == [] {
      if Contains(s, p) {
        var i :| 0 <= i <= |s| && StartsWith(s[i..], p);
        assert s[i..] == s;
      }
    } else {
      IncludesIsContains(s[1..], p);
      if Contains(s[1..], p) {
        var i :| 0 <= i <= |s| - 1 && StartsWith(s[1..][i..], p);
        assert s[1..][i..] == s[i + 1..];
        ContainsAt(s, p, i + 1);
      }
      if StartsWith(s, p) {
        assert s[0..] == s;
        ContainsAt(s, p, 0);
      }
      if Contains(s, p) && !StartsWith(s, p) {
        var i :| 0 <= i <= |s| && StartsWith(s[i..], p);
        assert i != 0 by { assert s[0..] == s; }
        assert s[i..] == s[1..][i - 1..];
        assert Contains(s[1..], p);
      }
    }
  }

  lemma ContainsAt(s: string, p: string, i: nat)
    requires i <= |s| && StartsWith(s[i..], p)
    ensures Contains(s, p)
  {
  }

  /** An occurrence inside a slice is an occurrence in the whole string. */
  lemma {:induction false} ContainsSlice(s: string, i: nat, j: nat, p: string)
    requires i <= j <= |s| && Contains(s[i..j], p)
    ensures Contains(s, p)
  {
    var k :| 0 <= k <= j - i && StartsWith(s[i..j][k..], p);
    assert s[i..j][k..][..|p|] == s[i + k..][..|p|];
    ContainsAt(s, p, i + k);
  }

  /** A slice of a string without an occurrence has none either. */
  lemma {:induction false} NotContainsSlice(s: string, i: nat, j: nat, p: string)
    requires i <= j <= |s| && !Contains(s, p)
    ensures !Contains(s[i..j], p)
  {
    var t := s[i..j];
    forall k | 0 <= k <= |t| ensures !StartsWith(t[k..], p) {
      assert !StartsWith(s[i + k..], p);
      if |p| <= |t| - k {
        assert t[k..][..|p|] == s[i + k..][..|p|];
      }
    }
  }

  /** A pattern holding a character the text lacks does not occur in it. */
  lemma {:induction false} AbsentChar(s: string, p: string, i: nat)
    requires i < |p| && p[i] !in s
    ensures !Contains(s, p)
  {
    forall k | 0 <= k <= |s| ensures !StartsWith(s[k..], p) {
      if |p| <= |s| - k {
        assert s[k..][..|p|][i] == s[k + i];
      }
    }
  }

  /** A pattern whose `i`-th character occurs exactly once in the text,
      at a place where the pattern's `j`-th character cannot line up, does
      not occur. */
  lemma {:induction false} AbsentAtOnlyPlace(a: string, b: string, p: string, i: nat, j: nat)
    requires j < i < |p| && p[i] !in a && p[i] !in b
    requires i <= |a| ==> a[|a| - i + j] != p[j]
    ensures !Contains(a + [p[i]] + b, p)
  {
    var s := a + [p[i]] + b;
    forall k | 0 <= k <= |s| ensures !StartsWith(s[k..], p) {
      if |p| <= |s| - k {
        assert s[k..][..|p|][i] == s[k + i];
        if k + i == |a| {
          assert s[k..][..|p|][j] == a[k + j];
        }
      }
    }
  }

  /** The characters `String.prototype.trim` removes: WhiteSpace and
      LineTerminator of ECMAScript (section 12.2 and 12.3 of ECMA-262). */
  function IsWhitespace(c: char): (r: bool)
    ensures c == ' ' || c == '\t' || c == '\n' || c == '\U{A0}' || c == '\U{FEFF}' ==> r
    ensures IsDigit(c) || c == '-' || c == '<' || c == '&' ==> !r
  {
    || c == '\t' || c == '\n' || c == '\U{B}' || c == '\U{C}' || c == '\r'
    || c == ' ' || c == '\U{A0}' || c == '\U{1680}'
    || ('\U{2000}' <= c <= '\U{200A}')
    || c == '\U{2028}' || c == '\U{2029}' || c == '\U{202F}' || c == '\U{205F}'
    || c == '\U{3000}' || c == '\U{FEFF}'
  }

  /** Every character of `s` from `lo` up to `hi` is whitespace. */
  predicate WhitespaceBetween(s: string, lo: nat, hi: nat)
    requires lo <= hi <= |s|
  {
    forall k :: lo <= k < hi ==> IsWhitespace(s[k])
  }

  /** Neither end of `s` is whitespace. */
  predicate Trimmed(s: string)
  {
    s == [] || (!IsWhitespace(s[0]) && !IsWhitespace(s[|s| - 1]))
  }

  /** Where the whitespace that starts at `from` ends: the scan
      `String.prototype.trim` makes from the front. */
  function SpaceRun(s: string, from: nat): (i: nat)
    requires from <= |s|
    ensures from <= i <= |s| && WhitespaceBetween(s, from, i)
    ensures i < |s| ==> !IsWhitespace(s[i])
    decreases |s| - from
  {
    if from < |s| && IsWhitespace(s[from]) then SpaceRun(s, from + 1) else from
  }

  /** Where the text of `s[lo..hi]` ends once the whitespace before `hi`
      is dropped: the scan `String.prototype.trim` makes from the back. */
  function TextEnd(s: string, lo: nat, hi: nat): (j: nat)
    requires lo <= hi <= |s|
    ensures lo <= j <= hi && WhitespaceBetween(s, j, hi)
    ensures j > lo ==> !IsWhitespace(s[j - 1])
    decreases hi
  {
    if hi > lo && IsWhitespace(s[hi - 1]) then TextEnd(s, lo, hi - 1) else hi
  }

  /** How much whitespace `s` starts with. */
  function LeadingSpace(s: string): (i: nat)
    ensures i <= |s| && WhitespaceBetween(s, 0, i)
    ensures i < |s| ==> !IsWhitespace(s[i])
  {
    SpaceRun(s, 0)
  }

  /** `s.trim()`: the longest middle part of `s` whose ends are not
      whitespace, obtained by dropping whitespace at both ends. */
  function Trim(s: string): (r: string)
    ensures Trimmed(r) && |r| <= |s|
  {
    var i := LeadingSpace(s);
    s[i..TextEnd(s, i, |s|)]
  }

  /** The trimmed text is the slice of `s` after its leading whitespace,
      and only whitespace follows it. */
  lemma TrimIsMiddle(s: string)
    ensures var r := Trim(s);
            var i := LeadingSpace(s);
            && i + |r| <= |s| && r == s[i..i + |r|] && WhitespaceBetween(s, i + |r|, |s|)
  {
  }

  /** Trimming cannot create an occurrence. */
  lemma {:induction false} TrimNotContains(s: string, p: string)
    requires !Contains(s, p)
    ensures !Contains(Trim(s), p)
  {
    TrimIsMiddle(s);
    NotContainsPart(s, Trim(s), LeadingSpace(s), p);
  }

  /** A part of `s` found at offset `i` has no occurrence `s` lacks. */
  lemma NotContainsPart(s: string, r: string, i: nat, p: string)
    requires i + |r| <= |s| && r == s[i..i + |r|] && !Contains(s, p)
    ensures !Contains(r, p)
  {
    NotContainsSlice(s, i, i + |r|, p);
  }

  /** Trimming a string whose ends are not whitespace returns it unchanged. */
  lemma TrimTrimmed(s: string)
    requires Trimmed(s)
    ensures Trim(s) == s
  {
  }

  lemma {:induction false} TrimIdempotent(s: string)
    ensures Trim(Trim(s)) == Trim(s)
  {
    TrimTrimmed(Trim(s));
  }

  function DigitChar(d: nat): (c: char)
    requires d < 10
  {
    "0123456789"[d]
  }

  predicate IsDigit(c: char)
  {
    '0' <= c <= '9'
  }

  function DigitValue(c: char): (d: nat)
    requires IsDigit(c)
  {
    (c as int - '0' as int) as nat
  }

  /** `${n}` for a non-negative integer below 10^21: its decimal digits,
      most significant first, with no leading zero. */
  function NatToDecimal(n: nat): (r: string)
    ensures r != [] && forall i :: 0 <= i < |r| ==> IsDigit(r[i])
    ensures |r| > 1 ==> r[0] != '0'
  {
    if n < 10 then [DigitChar(n)] else NatToDecimal(n / 10) + [DigitChar(n % 10)]
  }

  /** The number a string of decimal digits denotes. */
  function DecimalValue(s: string): nat
    requires forall i :: 0 <= i < |s| ==> IsDigit(s[i])
  {
    if s == [] then 0 else DecimalValue(s[..|s| - 1]) * 10 + DigitValue(s[|s| - 1])
  }

  /** Reading the rendered digits back gives the number. */
  lemma {:induction false} DecimalRoundTrip(n: nat)
    ensures DecimalValue(NatToDecimal(n)) == n
  {
    var r := NatToDecimal(n);
    if n >= 10 {
      DecimalRoundTrip(n / 10);
      assert r[..|r| - 1] == NatToDecimal(n / 10);
    }
  }

  /** Distinct numbers render to distinct strings. */
  lemma {:induction false} DecimalInjective(m: nat, n: nat)
    requires NatToDecimal(m) == NatToDecimal(n)
    ensures m == n
  {
    DecimalRoundTrip(m);
    DecimalRoundTrip(n);
  }
}
