/** The few string operations the app relies on: `trim`, `startsWith`,
    `includes`, decimal rendering and `padStart`. Strings are `seq<char>`. */
module Strings {

  /** ECMAScript WhiteSpace and LineTerminator code points, the set `trim` strips. */
  predicate IsWhitespace(c: char) {
    || c == '\t' || c == '\n' || c == '\U{000B}' || c == '\U{000C}' || c == '\r'
    || c == ' ' || c == '\U{00A0}' || c == '\U{1680}'
    || ('\U{2000}' <= c <= '\U{200A}')
    || c == '\U{2028}' || c == '\U{2029}' || c == '\U{202F}' || c == '\U{205F}'
    || c == '\U{3000}' || c == '\U{FEFF}'
  }

  predicate AllWhitespace(s: string) {
    forall i :: 0 <= i < |s| ==> IsWhitespace(s[i])
  }

  /** Drops leading whitespace: the result is a suffix of `s`, everything
      dropped is whitespace, and what is left does not start with whitespace. */
  function TrimStart(s: string): (r: string)
    ensures |r| <= |s| && r == s[|s| - |r|..]
    ensures AllWhitespace(s[..|s| - |r|])
    ensures r == [] || !IsWhitespace(r[0])
  {
    if |s| > 0 && IsWhitespace(s[0]) then
      var r := TrimStart(s[1..]);
      assert s[1..][..|s[1..]| - |r|] == s[1..|s| - |r|];
      r
    else s
  }

  /** Drops trailing whitespace: the result is a prefix of `s`, everything
      dropped is whitespace, and what is left does not end with whitespace. */
  function TrimEnd(s: string): (r: string)
    ensures |r| <= |s| && r == s[..|r|]
    ensures AllWhitespace(s[|r|..])
    ensures r == [] || !IsWhitespace(r[|r| - 1])
  {
    if |s| > 0 && IsWhitespace(s[|s| - 1]) then
      var front := s[..|s| - 1];
      var r := TrimEnd(front);
      assert front[..|r|] == s[..|r|];
      assert s[|r|..] == front[|r|..] + [s[|s| - 1]];
      r
    else s
  }

  /** `String.prototype.trim`. */
  function Trim(s: string): string {
    TrimEnd(TrimStart(s))
  }

  /** Trimming keeps the piece of `s` left between a whitespace run at the
      front and one at the back, and that piece neither starts nor ends with
      whitespace. */
  lemma TrimIsInnerPiece(s: string)
    ensures var r := Trim(s);
      && (exists i :: OccursAt(s, r, i) && AllWhitespace(s[..i]) && AllWhitespace(s[i + |r|..]))
      && (r == [] || (!IsWhitespace(r[0]) && !IsWhitespace(r[|r| - 1])))
  {
    var t := TrimStart(s);
    var i := |s| - |t|;
    assert t == s[i..];
    var r := TrimEnd(t);
    assert r == t[..|r|];
    assert s[i..i + |r|] == r;
    assert s[i + |r|..] == t[|r|..];
    assert OccursAt(s, r, i);
    assert AllWhitespace(s[..i]);
    assert AllWhitespace(s[i + |r|..]);
    assert r != [] ==> r[0] == t[0];
  }

  /** `!s.trim()`: the trimmed string is the empty, falsy string. An empty
      field is blank; a field starting with a visible character is not. */
  predicate IsBlank(s: string)
    ensures s == [] ==> IsBlank(s)
    ensures |s| > 0 && !IsWhitespace(s[0]) ==> !IsBlank(s)
  {
    Trim(s) == []
  }

  /** A string is blank exactly when every character of it is whitespace. */
  lemma BlankIffAllWhitespace(s: string)
    ensures IsBlank(s) <==> AllWhitespace(s)
  {
    var t := TrimStart(s);
    var u := TrimEnd(t);
    assert s[..|s|] == s;
    assert t[0..] == t;
    assert t != [] ==> t[0] == s[|s| - |t|];
  }

  /** `s.startsWith(p)`. */
  predicate StartsWith(s: string, p: string) {
    |p| <= |s| && s[..|p|] == p
  }

  /** `s.includes(t)`, as the left-to-right search the engine performs. A
      term longer than the string is never found. */
  predicate Includes(s: string, t: string)
    ensures Includes(s, t) ==> |t| <= |s|
    decreases |s|
  {
    StartsWith(s, t) || (|s| > 0 && Includes(s[1..], t))
  }

  /** `t` occurs in `s` at position `i`. */
  predicate OccursAt(s: string, t: string, i: int) {
    0 <= i && i + |t| <= |s| && s[i..i + |t|] == t
  }

  /** The search finds `t` exactly when `t` occurs somewhere in `s`. */
  lemma {:induction false} IncludesIffOccurs(s: string, t: string)
    ensures Includes(s, t) <==> exists i :: OccursAt(s, t, i)
    decreases |s|
  {
    if StartsWith(s, t) {
      assert OccursAt(s, t, 0);
    } else if |s| > 0 {
      IncludesIffOccurs(s[1..], t);
      if Includes(s[1..], t) {
        var i :| OccursAt(s[1..], t, i);
        assert s[i + 1..i + 1 + |t|] == s[1..][i..i + |t|];
        assert OccursAt(s, t, i + 1);
      }
      if exists i :: OccursAt(s, t, i) {
        var i :| OccursAt(s, t, i);
        assert i != 0;
        assert s[1..][i - 1..i - 1 + |t|] == s[i..i + |t|];
        assert OccursAt(s[1..], t, i - 1);
      }
    }
  }

  /** Every string includes the empty string. */
  lemma IncludesEmpty(s: string)
    ensures Includes(s, [])
  {
  }

  // ---- Decimal rendering (`Number.prototype.toString` on naturals) ----

  function DigitChar(d: nat): (c: char)
    requires d < 10
    ensures '0' <= c <= '9'
  {
    "0123456789"[d]
  }

  /** The value of a decimal digit; any other character reads as 0. */
  function DigitValue(c: char): nat {
    if '0' <= c <= '9' then c as int - '0' as int else 0
  }

  predicate IsDigits(s: string) {
    forall i :: 0 <= i < |s| ==> '0' <= s[i] <= '9'
  }

  /** The shortest decimal numeral of `n`, without sign or leading zeros. */
  function ToDecimal(n: nat): (r: string)
    ensures |r| >= 1 && IsDigits(r)
    ensures n < 10 <==> |r| == 1
    ensures 10 <= n < 100 <==> |r| == 2
  {
    if n < 10 then [DigitChar(n)] else ToDecimal(n / 10) + [DigitChar(n % 10)]
  }

  /** Reads a string of decimal digits back as a natural. */
  function ParseDecimal(s: string): nat {
    if |s| == 0 then 0 else 10 * ParseDecimal(s[..|s| - 1]) + DigitValue(s[|s| - 1])
  }

  lemma DigitRoundTrip(d: nat)
    requires d < 10
    ensures DigitValue(DigitChar(d)) == d
  {
    assert "0123456789"[d] as int == '0' as int + d;
  }

  /** Rendering a natural in decimal and reading it back gives the natural. */
  lemma {:induction false} DecimalRoundTrip(n: nat)
    ensures ParseDecimal(ToDecimal(n)) == n
  {
    if n < 10 {
      DigitRoundTrip(n);
    } else {
      var r := ToDecimal(n);
      assert r[..|r| - 1] == ToDecimal(n / 10);
      DecimalRoundTrip(n / 10);
      DigitRoundTrip(n % 10);
    }
  }

  /** `s.padStart(width, fill)` with a one-character fill. */
  function PadStart(s: string, width: nat, fill: char): (r: string)
    ensures |r| == if |s| >= width then |s| else width
    ensures r[|r| - |s|..] == s
    ensures forall i :: 0 <= i < |r| - |s| ==> r[i] == fill
  {
    if |s| >= width then s else seq(width - |s|, _ => fill) + s
  }

  /** Leading zeros do not change the value of a numeral. */
  lemma {:induction false} LeadingZeros(z: string, s: string)
    requires forall i :: 0 <= i < |z| ==> z[i] == '0'
    ensures ParseDecimal(z + s) == ParseDecimal(s)
    decreases |s|
  {
    if |s| == 0 {
      ZerosParseToZero(z);
      assert z + s == z;
    } else {
      assert (z + s)[..|z + s| - 1] == z + s[..|s| - 1];
      LeadingZeros(z, s[..|s| - 1]);
    }
  }

  lemma {:induction false} ZerosParseToZero(z: string)
    requires forall i :: 0 <= i < |z| ==> z[i] == '0'
    ensures ParseDecimal(z) == 0
  {
    if |z| > 0 {
      ZerosParseToZero(z[..|z| - 1]);
    }
  }
}
