/**
 * `formatDuration` of the recordings list: a whole number of seconds shown as
 * minutes and seconds, each zero-padded to two characters. Durations are
 * modelled as integers; `undefined` is `None`.
 */
module Duration {
  import opened Common
  import opened Text

  predicate IsDigit(c: char) {
    '0' <= c <= '9'
  }

  predicate AllDigits(s: string) {
    forall i :: 0 <= i < |s| ==> IsDigit(s[i])
  }

  function DigitChar(d: nat): char
    requires d < 10
  {
    ('0' as int + d) as char
  }

  /** `n.toString()` for a non-negative integer. */
  function ShowNat(n: nat): (s: string)
    ensures s != [] && AllDigits(s)
    ensures n < 10 ==> |s| == 1
    ensures 10 <= n < 100 ==> |s| == 2
  {
    if n < 10 then [DigitChar(n)] else ShowNat(n / 10) + [DigitChar(n % 10)]
  }

  /** `n.toString()` for any integer: a minus sign before the digits of a negative one. */
  function ShowInt(n: int): string {
    if n < 0 then "-" + ShowNat(-n) else ShowNat(n)
  }

  /** `s.padStart(2, '0')`: zeros in front up to two characters; a longer string is kept as it is. */
  function PadStart2(s: string): (r: string)
    ensures |r| == if |s| < 2 then 2 else |s|
    ensures |s| >= 2 ==> r == s
    ensures |s| < 2 ==> r == seq(2 - |s|, _ => '0') + s
  {
    if |s| == 0 then "00" else if |s| == 1 then "0" + s else s
  }

  /** JavaScript `a % 60`: the remainder takes the sign of `a` (Dafny's `%` never returns a negative). */
  function JsRem60(a: int): (r: int)
    ensures a >= 0 ==> 0 <= r < 60 && r == a % 60
    ensures a < 0 ==> -60 < r <= 0 && (a - r) % 60 == 0
  {
    if a >= 0 then a % 60 else -((-a) % 60)
  }

  /**
   * `formatDuration`: empty for undefined and for 0; otherwise
   * `floor(n / 60)` and `n % 60`, each padded, joined by ':'. For a divisor of
   * 60 Dafny's `/` is JavaScript's `Math.floor(n / 60)`.
   */
  function FormatDuration(seconds: Option<int>): (r: string)
    ensures r == "" <==> seconds.None? || seconds.value == 0
    ensures r != "" ==> |r| >= 5 && ':' in r
  {
    if seconds.None? || seconds.value == 0 then ""
    else
      var n := seconds.value;
      PadStart2(ShowInt(n / 60)) + ":" + PadStart2(ShowInt(JsRem60(n)))
  }

  // ---- reading a formatted duration back ----

  /** The value of a string of decimal digits. */
  function DigitsValue(s: string): nat
    requires AllDigits(s)
  {
    if s == [] then 0 else DigitsValue(s[..|s| - 1]) * 10 + (s[|s| - 1] as int - '0' as int)
  }

  lemma {:induction false} DigitsValueShowNat(n: nat)
    ensures DigitsValue(ShowNat(n)) == n
  {
    if n >= 10 {
      DigitsValueShowNat(n / 10);
      var s := ShowNat(n);
      assert s[..|s| - 1] == ShowNat(n / 10);
    }
  }

  /** A leading zero does not change the value. */
  lemma {:induction false} DigitsValueLeadingZero(s: string)
    requires AllDigits(s)
    ensures DigitsValue("0" + s) == DigitsValue(s)
  {
    if s != [] {
      var t := "0" + s;
      assert t[..|t| - 1] == "0" + s[..|s| - 1];
      DigitsValueLeadingZero(s[..|s| - 1]);
    }
  }

  lemma PaddedValue(n: nat)
    ensures AllDigits(PadStart2(ShowNat(n)))
    ensures DigitsValue(PadStart2(ShowNat(n))) == n
  {
    DigitsValueShowNat(n);
    if n < 10 {
      DigitsValueLeadingZero(ShowNat(n));
    }
  }

  /** Reads `M:S` back as `M * 60 + S`, both parts non-empty digit strings and `S` below 60. */
  function ParseDuration(s: string): Option<nat> {
    match SplitAt(s, ':')
    case None => None
    case Some(parts) =>
      if parts.0 == [] || parts.1 == [] || !AllDigits(parts.0) || !AllDigits(parts.1) then None
      else if DigitsValue(parts.1) >= 60 then None
      else Some(DigitsValue(parts.0) * 60 + DigitsValue(parts.1))
  }

  // ---- properties ----

  /** Nothing is shown for an absent duration or for zero. */
  lemma FormatDurationEmpty()
    ensures FormatDuration(None) == ""
    ensures FormatDuration(Some(0)) == ""
  {
  }

  /**
   * For a positive count of seconds the text is the padded minutes, ':', and
   * the padded seconds below 60; reading it back gives the count.
   */
  lemma FormatDurationPositive(n: int)
    requires n > 0
    ensures FormatDuration(Some(n)) == PadStart2(ShowNat(n / 60)) + ":" + PadStart2(ShowNat(n % 60))
    ensures ParseDuration(FormatDuration(Some(n))) == Some(n)
  {
    var m := PadStart2(ShowNat(n / 60));
    var s := PadStart2(ShowNat(n % 60));
    PaddedValue(n / 60);
    PaddedValue(n % 60);
    assert ':' !in m;
    SplitAtJoin(m, ':', s);
    assert m + ":" + s == m + [':'] + s;
  }

  /** Below 100 minutes the text is exactly five characters, `MM:SS`. */
  lemma FormatDurationLength(n: int)
    requires 0 < n < 6000
    ensures |FormatDuration(Some(n))| == 5
    ensures FormatDuration(Some(n))[2] == ':'
  {
    FormatDurationPositive(n);
  }

  /** Distinct positive durations are shown differently. */
  lemma FormatDurationInjective(a: int, b: int)
    requires a > 0 && b > 0 && FormatDuration(Some(a)) == FormatDuration(Some(b))
    ensures a == b
  {
    FormatDurationPositive(a);
    FormatDurationPositive(b);
  }

  /** A negative duration keeps JavaScript's signs: -5 seconds is shown as "-1:-5". */
  lemma FormatDurationNegative()
    ensures FormatDuration(Some(-5)) == "-1:-5"
    ensures FormatDuration(Some(90)) == "01:30"
  {
    assert -5 / 60 == -1;
    assert ShowNat(1) == "1" && ShowNat(5) == "5";
    assert ShowNat(30) == "30" by {
      assert ShowNat(3) == "3";
    }
  }
}
