/**
 * The `HH:MM:SS` duration formatter of the tracker (`format_time`), over whole
 * seconds.  `ParseDigits`, the value of one field of digits, is not part of
 * the tracker; it exists to state what the formatted text means.
 */
module TimeFormat {

  /** Hours, minutes and seconds of a duration. */
  datatype Hms = Hms(hours: int, minutes: int, secs: int)

  /**
   * The split done by `format_time`.  Python's `//` and `%` by a positive
   * divisor round toward minus infinity, which is what Dafny's `/` and `%` do
   * for a positive divisor, so the split is exact for every integer.
   */
  function Split(seconds: int): Hms {
    Hms(seconds / 3600, (seconds % 3600) / 60, seconds % 60)
  }

  /**
   * The three fields add back up to the duration, minutes and seconds are
   * below 60, and a non-negative duration has non-negative hours.
   */
  lemma SplitExact(seconds: int)
    ensures var t := Split(seconds);
      t.hours * 3600 + t.minutes * 60 + t.secs == seconds &&
      0 <= t.minutes < 60 && 0 <= t.secs < 60 &&
      (seconds >= 0 ==> t.hours >= 0)
  {
  }

  predicate IsDigit(c: char) {
    '0' <= c <= '9'
  }

  /** Every character of `s` is a decimal digit. */
  predicate AllDigits(s: string) {
    s == [] || (IsDigit(s[|s| - 1]) && AllDigits(s[..|s| - 1]))
  }

  function DigitChar(d: nat): (c: char)
    requires d < 10
    ensures IsDigit(c) && (c as int) - ('0' as int) == d
  {
    (('0' as int) + d) as char
  }

  /** The decimal numeral of `n`, without leading zeros. */
  function Digits(n: nat): (s: string)
    ensures 1 <= |s|
    ensures n < 10 <==> |s| == 1
    ensures n > 0 ==> s[0] != '0'
  {
    if n < 10 then [DigitChar(n)] else Digits(n / 10) + [DigitChar(n % 10)]
  }

  /** The value of a string of decimal digits (leading zeros allowed). */
  function ParseDigits(s: string): nat
    requires AllDigits(s)
  {
    if s == [] then 0
    else ParseDigits(s[..|s| - 1]) * 10 + ((s[|s| - 1] as int) - ('0' as int))
  }

  /** Python's `f"{n:02d}"`: at least two characters, zero-padded after the sign. */
  function Pad2(n: int): string {
    if n < 0 then "-" + Digits(-n)
    else if n < 10 then "0" + Digits(n)
    else Digits(n)
  }

  /** `format_time(seconds)` for whole seconds: `HH:MM:SS`. */
  function FormatTime(seconds: int): string {
    var t := Split(seconds);
    Pad2(t.hours) + ":" + Pad2(t.minutes) + ":" + Pad2(t.secs)
  }

  /** `ParseDigits` of a string with one more digit at its end. */
  lemma ParseDigitsSnoc(s: string, c: char)
    requires AllDigits(s) && IsDigit(c)
    ensures AllDigits(s + [c])
    ensures ParseDigits(s + [c]) == ParseDigits(s) * 10 + ((c as int) - ('0' as int))
  {
  }

  /** The decimal numeral of `n` reads back as `n`. */
  lemma {:induction false} DigitsRoundTrip(n: nat)
    ensures AllDigits(Digits(n)) && ParseDigits(Digits(n)) == n
  {
    if n >= 10 {
      DigitsRoundTrip(n / 10);
      ParseDigitsSnoc(Digits(n / 10), DigitChar(n % 10));
    }
  }

  /** A non-negative field below 100 is rendered with exactly two digits that read back as it. */
  lemma Pad2RoundTrip(n: int)
    requires 0 <= n
    ensures AllDigits(Pad2(n)) && ParseDigits(Pad2(n)) == n
    ensures n < 100 ==> |Pad2(n)| == 2
    ensures 2 <= |Pad2(n)|
    ensures |Pad2(n)| == 2 || Pad2(n)[0] != '0'
  {
    DigitsRoundTrip(n);
    if n < 10 {
      ParseDigitsSnoc("0", DigitChar(n));
    } else if n < 100 {
      assert Digits(n) == Digits(n / 10) + [DigitChar(n % 10)];
    }
  }

  /**
   * The text of a non-negative duration is three colon-separated fields of
   * decimal digits, the minutes and the seconds exactly two digits each, and
   * read as numbers the fields give back the duration: hours times 3600 plus
   * minutes times 60 plus seconds, with minutes and seconds below 60.
   */
  lemma FormatTimeRoundTrip(seconds: int)
    requires seconds >= 0
    ensures exists hs: string, ms: string, ss: string {:trigger hs + ":" + ms + ":" + ss} ::
      FormatTime(seconds) == hs + ":" + ms + ":" + ss &&
      2 <= |hs| && |ms| == 2 && |ss| == 2 &&
      (|hs| == 2 || hs[0] != '0') && (seconds < 360000 ==> |hs| == 2) &&
      AllDigits(hs) && AllDigits(ms) && AllDigits(ss) &&
      ParseDigits(ms) < 60 && ParseDigits(ss) < 60 &&
      ParseDigits(hs) * 3600 + ParseDigits(ms) * 60 + ParseDigits(ss) == seconds
  {
    var t := Split(seconds);
    SplitExact(seconds);
    Pad2RoundTrip(t.hours);
    Pad2RoundTrip(t.minutes);
    Pad2RoundTrip(t.secs);
    var hs, ms, ss := Pad2(t.hours), Pad2(t.minutes), Pad2(t.secs);
    assert FormatTime(seconds) == hs + ":" + ms + ":" + ss;
  }
}
