/**
 * The run timer's text: formatTime (index.js:6-11) and the timer line of
 * loop() (index.js:153), over whole milliseconds.
 */
module Format {
  import opened Options

  predicate IsDigit(c: char) {
    '0' <= c <= '9'
  }

  predicate AllDigits(s: string) {
    forall i :: 0 <= i < |s| ==> IsDigit(s[i])
  }

  function DigitChar(d: nat): (c: char)
    requires d < 10
    ensures IsDigit(c) && c as int - '0' as int == d
  {
    ('0' as int + d) as char
  }

  /** The number written by a string of digits. */
  function ValueOf(s: string): nat
    requires AllDigits(s)
  {
    if |s| == 0 then 0 else ValueOf(s[..|s| - 1]) * 10 + (s[|s| - 1] as int - '0' as int)
  }

  /** String(n): the decimal digits of n, with no leading zero. */
  function Decimal(n: nat): (s: string)
    ensures AllDigits(s) && 1 <= |s|
    ensures n >= 10 ==> s[0] != '0'
    ensures n < 10 ==> |s| == 1
    ensures n < 100 ==> |s| <= 2
    ensures n < 1000 ==> |s| <= 3
  {
    if n < 10 then [DigitChar(n)] else Decimal(n / 10) + [DigitChar(n % 10)]
  }

  /** padStart(width, '0'): leading zeros up to `width`; a longer string is kept whole. */
  function PadStart(s: string, width: nat): (r: string)
    ensures |r| == if |s| >= width then |s| else width
  {
    if |s| >= width then s else seq(width - |s|, _ => '0') + s
  }

  /** The template shared by formatTime and the timer: minutes, seconds and milliseconds, zero-padded to 2, 2 and 3. */
  function Clock(m: nat, s: nat, f: nat): (r: string)
    requires s < 60 && f < 1000
    ensures |r| >= 9 && r[|r| - 7] == ':' && r[|r| - 4] == '.'
    ensures |r| == (if |Decimal(m)| >= 2 then |Decimal(m)| else 2) + 7
    ensures m < 100 ==> |r| == 9
  {
    var a, b, c := PadStart(Decimal(m), 2), PadStart(Decimal(s), 2), PadStart(Decimal(f), 3);
    Fields(a, b, c);
    a + ":" + b + "." + c
  }

  /** Where the fields sit in a text of the clock template's shape. */
  lemma Fields(a: string, b: string, c: string)
    requires |b| == 2 && |c| == 3
    ensures var r := a + ":" + b + "." + c;
            && |r| == |a| + 7 && r[|r| - 7] == ':' && r[|r| - 4] == '.'
            && r[..|r| - 7] == a && r[|r| - 6..|r| - 4] == b && r[|r| - 3..] == c
  {
  }

  /** The mm:ss.mmm text of a time in milliseconds (formatTime). */
  function FormatTime(ms: nat): (r: string)
    ensures |r| >= 9 && r[|r| - 7] == ':' && r[|r| - 4] == '.'
    ensures |r| == |PadStart(Decimal(ms / 60000), 2)| + 7
    ensures ms < 6000000 ==> |r| == 9
  {
    FieldWidths(ms);
    Clock(ms / 60000, ms % 60000 / 1000, ms % 1000)
  }

  /**
   * The timer line drawn each frame, whose seconds are written as
   * floor(t/1000) % 60: a "Time: " label followed by a clock that reads back
   * as t.
   */
  function TimerText(t: nat): (r: string)
    ensures |r| >= 15 && r[..6] == "Time: " && r[|r| - 7] == ':' && r[|r| - 4] == '.'
    ensures ParseTime(r[6..]) == Some(t)
    ensures |r| == |PadStart(Decimal(t / 60000), 2)| + 13
    ensures t < 6000000 ==> |r| == 15
  {
    SecondsAgree(t);
    FormatTimeRoundTrip(t);
    "Time: " + Clock(t / 60000, t / 1000 % 60, t % 1000)
  }

  /**
   * The three fields of a time: seconds below 60, milliseconds below 1000,
   * and together they give back the time.
   */
  lemma FieldWidths(ms: nat)
    ensures ms % 60000 / 1000 < 60 && ms % 1000 < 1000
    ensures ms / 60000 * 60000 + ms % 60000 / 1000 * 1000 + ms % 1000 == ms
  {
    var q, r := ms / 60000, ms % 60000;
    var s, f := r / 1000, r % 1000;
    DivMod1000(r, s, f);
    DivMod1000(ms, q * 60 + s, f);
  }

  /** Division by 1000 is unique: a quotient and a remainder in range are the ones `/` and `%` give. */
  lemma DivMod1000(a: int, q: int, r: int)
    requires 0 <= r < 1000 && a == q * 1000 + r
    ensures a / 1000 == q && a % 1000 == r
  {
  }

  /** Division by 60 is unique in the same way. */
  lemma DivMod60(a: int, q: int, r: int)
    requires 0 <= r < 60 && a == q * 60 + r
    ensures a / 60 == q && a % 60 == r
  {
  }

  /** The timer's seconds agree with formatTime's: floor(t/1000) % 60 == floor((t % 60000)/1000). */
  lemma SecondsAgree(t: nat)
    ensures t / 1000 % 60 == t % 60000 / 1000
  {
    var q, r := t / 60000, t % 60000;
    var s, f := r / 1000, r % 1000;
    DivMod1000(r, s, f);
    DivMod1000(t, q * 60 + s, f);
    DivMod60(q * 60 + s, q, s);
  }

  /** The timer line is "Time: " followed by formatTime of the elapsed time. */
  lemma TimerIsFormatTime(t: nat)
    ensures TimerText(t) == "Time: " + FormatTime(t)
  {
    SecondsAgree(t);
  }

  /** Reading the number back from a string of digits, as in the timer's fields. */
  lemma {:induction false} DecimalValue(n: nat)
    ensures ValueOf(Decimal(n)) == n
  {
    if n >= 10 {
      var s := Decimal(n);
      DecimalValue(n / 10);
      assert s[..|s| - 1] == Decimal(n / 10);
    }
  }

  /** Leading zeros do not change the number a string of digits writes. */
  lemma {:induction false} LeadingZeros(z: string, s: string)
    requires AllDigits(s) && forall i :: 0 <= i < |z| ==> z[i] == '0'
    ensures AllDigits(z + s) && ValueOf(z + s) == ValueOf(s)
  {
    if |s| == 0 {
      assert z + s == z;
      Zeros(z);
    } else {
      LeadingZeros(z, s[..|s| - 1]);
      assert (z + s)[..|z + s| - 1] == z + s[..|s| - 1];
    }
  }

  lemma {:induction false} Zeros(z: string)
    requires forall i :: 0 <= i < |z| ==> z[i] == '0'
    ensures AllDigits(z) && ValueOf(z) == 0
  {
    if |z| > 0 {
      Zeros(z[..|z| - 1]);
    }
  }

  lemma PaddedValue(n: nat, width: nat)
    ensures AllDigits(PadStart(Decimal(n), width)) && ValueOf(PadStart(Decimal(n), width)) == n
  {
    var s := Decimal(n);
    DecimalValue(n);
    if |s| < width {
      LeadingZeros(seq(width - |s|, _ => '0'), s);
    }
  }

  /**
   * The inverse of formatTime: the minutes before the ':', two digits of
   * seconds below 60, and three digits of milliseconds after the '.'.
   */
  function ParseTime(r: string): Option<nat> {
    if |r| < 9 || r[|r| - 7] != ':' || r[|r| - 4] != '.' then None
    else
      var mm, ss, ff := r[..|r| - 7], r[|r| - 6..|r| - 4], r[|r| - 3..];
      if AllDigits(mm) && AllDigits(ss) && AllDigits(ff) && ValueOf(ss) < 60
      then Some(ValueOf(mm) * 60000 + ValueOf(ss) * 1000 + ValueOf(ff))
      else None
  }

  /** The clock template reads back as the three fields it was given. */
  lemma ClockRoundTrip(m: nat, s: nat, f: nat)
    requires s < 60 && f < 1000
    ensures ParseTime(Clock(m, s, f)) == Some(m * 60000 + s * 1000 + f)
  {
    var a, b, c := PadStart(Decimal(m), 2), PadStart(Decimal(s), 2), PadStart(Decimal(f), 3);
    Fields(a, b, c);
    PaddedValue(m, 2);
    PaddedValue(s, 2);
    PaddedValue(f, 3);
  }

  /** Formatting loses nothing: every time reads back from its text. */
  lemma FormatTimeRoundTrip(ms: nat)
    ensures ParseTime(FormatTime(ms)) == Some(ms)
  {
    FieldWidths(ms);
    ClockRoundTrip(ms / 60000, ms % 60000 / 1000, ms % 1000);
  }

  /** Different times give different texts. */
  lemma FormatTimeInjective(ms1: nat, ms2: nat)
    requires FormatTime(ms1) == FormatTime(ms2)
    ensures ms1 == ms2
  {
    FormatTimeRoundTrip(ms1);
    FormatTimeRoundTrip(ms2);
  }
}
