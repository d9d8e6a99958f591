/** The clock display used by the quiz: two zero-padded decimal fields
    separated by a colon, and how to read such a display back. */
module TimeFormat {
  import opened Strings

  /** `n.toString().padStart(2, '0')`. */
  function Pad2(n: nat): (r: string)
    ensures IsDigits(r) && ParseDecimal(r) == n
    ensures n < 100 <==> |r| == 2
    ensures |r| >= 2
  {
    var d := ToDecimal(n);
    var r := PadStart(d, 2, '0');
    assert r == r[..|r| - |d|] + d;
    DecimalRoundTrip(n);
    LeadingZeros(r[..|r| - |d|], d);
    r
  }

  /** Two zero-padded fields joined by a colon. */
  function Clock(m: nat, sec: nat): (r: string)
    requires sec < 60
    ensures |r| >= 5 && r[|r| - 3] == ':'
    ensures r[..|r| - 3] == Pad2(m) && r[|r| - 2..] == Pad2(sec)
    ensures m < 100 <==> |r| == 5
  {
    var a, b := Pad2(m), Pad2(sec);
    Join(a, b);
    a + ":" + b
  }

  lemma Join(a: string, b: string)
    ensures (a + ":" + b)[..|a|] == a && (a + ":" + b)[|a| + 1..] == b
    ensures (a + ":" + b)[|a|] == ':'
  {
  }

  /** Reads a clock string back as (minutes, seconds). */
  function ParseTime(r: string): (nat, nat)
    requires |r| >= 3
  {
    (ParseDecimal(r[..|r| - 3]), ParseDecimal(r[|r| - 2..]))
  }

  /** Reading a clock display back gives the two fields it was made from. */
  lemma ClockRoundTrip(m: nat, sec: nat)
    requires sec < 60
    ensures ParseTime(Clock(m, sec)) == (m, sec)
  {
  }
}
