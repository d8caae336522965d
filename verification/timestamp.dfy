/**
 * format_timestamp of whisper_utils.py: a time in seconds, as the recogniser
 * reports it, rendered as "HH:MM:SS". The fields are computed with Python's
 * floor division and modulo and then truncated with int(), so sub-second
 * precision is dropped, never rounded. Each field is printed with the format
 * spec "02": at least two characters, zero-padded after any sign.
 *
 * Python floats are modelled as exact reals; rounding of float arithmetic is
 * not part of this model.
 */
module Timestamp {

  /** The three integers format_timestamp prints, in order. */
  datatype Clock = Clock(hours: int, minutes: int, seconds: int)

  // ---------------------------------------------------------------------------
  // Python's numeric operators on a float and a positive int divisor
  // ---------------------------------------------------------------------------

  /** Python's `x // d` for a float `x` and an int `d > 0`: the floor of x / d. */
  function FloorDiv(x: real, d: int): int
    requires d > 0
  {
    (x / d as real).Floor
  }

  /** Python's `x % d` for a float `x` and an int `d > 0`: the remainder takes
      the divisor's sign. */
  function FloorMod(x: real, d: int): real
    requires d > 0
  {
    x - (d * FloorDiv(x, d)) as real
  }

  /** Python's `int(x)` for a float: truncation toward zero. */
  function Truncate(x: real): int
  {
    if x >= 0.0 then x.Floor else -((-x).Floor)
  }

  /** For the two divisors format_timestamp uses, float `//` agrees with integer
      division of the whole part: the fraction never carries into the quotient. */
  lemma FloorDivOfWhole(x: real, d: int)
    requires d == 60 || d == 3600
    ensures FloorDiv(x, d) == x.Floor / d
  {
    var n := x.Floor;
    if d == 60 {
      var y := x / 60.0;
      assert y * 60.0 == x;
      assert (n / 60) as real <= y < (n / 60) as real + 1.0;
    } else {
      var y := x / 3600.0;
      assert y * 3600.0 == x;
      assert (n / 3600) as real <= y < (n / 3600) as real + 1.0;
    }
  }

  /** ... and float `%` is the integer remainder of the whole part with the same
      fraction added back, so it lies in [0, d) even for negative x. */
  lemma FloorModOfWhole(x: real, d: int)
    requires d == 60 || d == 3600
    ensures FloorMod(x, d) == (x.Floor % d) as real + (x - x.Floor as real)
    ensures 0.0 <= FloorMod(x, d) < d as real
  {
    FloorDivOfWhole(x, d);
    var n := x.Floor;
    assert n == d * (n / d) + n % d;
  }

  // ---------------------------------------------------------------------------
  // The fields
  // ---------------------------------------------------------------------------

  /** Lines 17-19 of format_timestamp as written: the hour is the truncated
      floor quotient of t by 3600; the minute is the truncated floor quotient by
      60 of the floor remainder of t by 3600; the second is the truncated floor
      remainder of t by 60. */
  function FieldsOf(t: real): Clock
  {
    Clock(Truncate(FloorDiv(t, 3600) as real),
          Truncate(FloorDiv(FloorMod(t, 3600), 60) as real),
          Truncate(FloorMod(t, 60)))
  }

  /** The decomposition of a whole number of seconds into hours, minutes below
      60 and seconds below 60. */
  function ClockOf(n: int): (c: Clock)
    ensures 0 <= c.minutes < 60 && 0 <= c.seconds < 60
    ensures c.hours * 3600 + c.minutes * 60 + c.seconds == n
    ensures n >= 0 <==> c.hours >= 0
  {
    Clock(n / 3600, (n % 3600) / 60, n % 60)
  }

  /** There is only one such decomposition: whatever hours, minutes and seconds
      add up to n with minutes and seconds below 60 are ClockOf(n). */
  lemma ClockOfUnique(n: int, c: Clock)
    requires 0 <= c.minutes < 60 && 0 <= c.seconds < 60
    requires c.hours * 3600 + c.minutes * 60 + c.seconds == n
    ensures c == ClockOf(n)
  {
    var d := ClockOf(n);
    assert (c.hours - d.hours) * 3600 == (d.minutes * 60 + d.seconds) - (c.minutes * 60 + c.seconds);
    assert c.hours == d.hours;
    assert (c.minutes - d.minutes) * 60 == d.seconds - c.seconds;
  }

  /** Every field format_timestamp computes depends only on the whole seconds of
      t: the fractional part is truncated away, never rounded up. */
  lemma FieldsTruncate(t: real)
    ensures FieldsOf(t) == ClockOf(t.Floor)
  {
    var n := t.Floor;
    FloorDivOfWhole(t, 3600);
    FloorModOfWhole(t, 3600);
    FloorModOfWhole(t, 60);
    var rest := FloorMod(t, 3600);
    assert rest.Floor == n % 3600;
    FloorDivOfWhole(rest, 60);
    assert FloorMod(t, 60).Floor == n % 60;
  }

  // ---------------------------------------------------------------------------
  // Rendering with the format spec "02"
  // ---------------------------------------------------------------------------

  predicate IsDigit(c: char)
  {
    '0' <= c <= '9'
  }

  predicate AllDigits(s: string)
  {
    forall i | 0 <= i < |s| :: IsDigit(s[i])
  }

  function DigitChar(d: int): char
    requires 0 <= d < 10
  {
    (d + '0' as int) as char
  }

  /** The decimal representation of a natural number, as str() gives it:
      digits only, no leading zero, one digit below 10, two below 100. */
  function DecimalString(n: nat): (r: string)
    ensures |r| >= 1 && AllDigits(r)
    ensures r[0] == '0' ==> n == 0
    ensures |r| == 1 <==> n < 10
    ensures |r| <= 2 <==> n < 100
    decreases n
  {
    if n < 10 then [DigitChar(n)] else DecimalString(n / 10) + [DigitChar(n % 10)]
  }

  /** Python's `f"{n:02}"`: width two, zero fill placed after the sign. A
      negative number already has two characters with its sign, so only the
      one-digit non-negative numbers get a leading '0'. */
  function ZeroPad2(n: int): string
  {
    if n < 0 then "-" + DecimalString(-n)
    else if n < 10 then "0" + DecimalString(n)
    else DecimalString(n)
  }

  /** A padded field has at least two characters, starts with '-' exactly
      when negative, and is exactly two digits exactly for 0..99. */
  lemma ZeroPad2Shape(n: int)
    ensures var r := ZeroPad2(n);
      && |r| >= 2
      && (r[0] == '-' <==> n < 0)
      && (n >= 0 ==> AllDigits(r))
      && (|r| == 2 && AllDigits(r) <==> 0 <= n < 100)
  {
  }

  /** The f-string of line 20: the three padded fields joined by ':'. */
  function Render(c: Clock): string
  {
    ZeroPad2(c.hours) + ":" + ZeroPad2(c.minutes) + ":" + ZeroPad2(c.seconds)
  }

  /** format_timestamp (whisper_utils.py lines 16-20). */
  function FormatTimestamp(t: real): string
  {
    Render(FieldsOf(t))
  }

  /** The same rendering for a whole number of seconds. */
  function FormatSeconds(n: int): string
  {
    Render(ClockOf(n))
  }

  /** Where the fields of a rendering with two-character minutes and seconds
      sit: the hours are everything before the last six characters. */
  lemma RenderSlices(hh: string, mm: string, ss: string)
    requires |mm| == 2 && |ss| == 2
    ensures var r := hh + ":" + mm + ":" + ss;
      && |r| == |hh| + 6
      && r[..|r| - 6] == hh && r[|r| - 6] == ':' && r[|r| - 5..|r| - 3] == mm
      && r[|r| - 3] == ':' && r[|r| - 2..] == ss
  {
    var r := hh + ":" + mm + ":" + ss;
    assert r == hh + (":" + mm + ":" + ss);
  }

  /** Minutes and seconds always take exactly two digits, so a rendering ends
      in ":MM:SS"; it is exactly "HH:MM:SS" when the hours are 0..99. */
  lemma FormatSecondsShape(n: int)
    ensures var r := FormatSeconds(n);
      && |r| >= 8 && r[|r| - 6] == ':' && r[|r| - 3] == ':'
      && AllDigits(r[|r| - 5..|r| - 3]) && AllDigits(r[|r| - 2..])
      && (IsClockText(r) <==> 0 <= n < 360000)
  {
    var c := ClockOf(n);
    var hh, mm, ss := ZeroPad2(c.hours), ZeroPad2(c.minutes), ZeroPad2(c.seconds);
    ZeroPad2Shape(c.hours);
    ZeroPad2Shape(c.minutes);
    ZeroPad2Shape(c.seconds);
    var r := Render(c);
    RenderSlices(hh, mm, ss);
    assert |hh| == 2 ==> r[..2] == hh && r[3..5] == mm && r[6..] == ss;
  }

  /** Exactly eight characters of the shape DD:DD:DD. */
  predicate IsClockText(s: string)
  {
    |s| == 8 && AllDigits(s[..2]) && s[2] == ':' && AllDigits(s[3..5]) && s[5] == ':' && AllDigits(s[6..])
  }

  /** format_timestamp prints the whole-seconds rendering of the truncated time. */
  lemma FormatTimestampTruncates(t: real)
    ensures FormatTimestamp(t) == FormatSeconds(t.Floor)
  {
    FieldsTruncate(t);
  }

  // ---------------------------------------------------------------------------
  // Reading a rendering back
  // ---------------------------------------------------------------------------

  function DigitValue(c: char): int
  {
    c as int - '0' as int
  }

  /** The value of a string of decimal digits, most significant first. */
  function ParseDecimal(s: string): int
  {
    if s == [] then 0 else ParseDecimal(s[..|s| - 1]) * 10 + DigitValue(s[|s| - 1])
  }

  /** An optional '-' followed by decimal digits. */
  function ParseSigned(s: string): int
  {
    if |s| > 0 && s[0] == '-' then -ParseDecimal(s[1..]) else ParseDecimal(s)
  }

  /** "H...H:MM:SS" back to a number of seconds. */
  function ParseTimestamp(s: string): int
  {
    if |s| < 6 then 0
    else ParseSigned(s[..|s| - 6]) * 3600 + ParseDecimal(s[|s| - 5..|s| - 3]) * 60 + ParseDecimal(s[|s| - 2..])
  }

  lemma {:induction false} DecimalStringRoundTrip(n: nat)
    ensures ParseDecimal(DecimalString(n)) == n
    decreases n
  {
    if n >= 10 {
      var s := DecimalString(n);
      assert s[..|s| - 1] == DecimalString(n / 10);
      DecimalStringRoundTrip(n / 10);
    }
  }

  /** A single digit, with or without one leading zero, reads back as itself. */
  lemma ParseOneDigit(d: int)
    requires 0 <= d < 10
    ensures ParseDecimal([DigitChar(d)]) == d
    ensures ParseDecimal(['0', DigitChar(d)]) == d
  {
    var s := ['0', DigitChar(d)];
    assert s[..1] == ['0'] && [DigitChar(d)][..0] == [] && ['0'][..0] == [];
  }

  lemma ZeroPad2RoundTrip(n: int)
    ensures ParseSigned(ZeroPad2(n)) == n
  {
    var s := ZeroPad2(n);
    if n < 0 {
      assert s[1..] == DecimalString(-n);
      DecimalStringRoundTrip(-n);
    } else if n < 10 {
      assert s == ['0', DigitChar(n)];
      ParseOneDigit(n);
    } else {
      DecimalStringRoundTrip(n);
    }
  }

  /** The rendering loses nothing of the whole seconds: reading it back gives
      the number it was made from, so distinct whole seconds render distinctly. */
  lemma FormatSecondsRoundTrip(n: int)
    ensures ParseTimestamp(FormatSeconds(n)) == n
  {
    var c := ClockOf(n);
    var hh, mm, ss := ZeroPad2(c.hours), ZeroPad2(c.minutes), ZeroPad2(c.seconds);
    ZeroPad2Shape(c.minutes);
    ZeroPad2Shape(c.seconds);
    RenderSlices(hh, mm, ss);
    ZeroPad2RoundTrip(c.hours);
    ZeroPad2RoundTrip(c.minutes);
    ZeroPad2RoundTrip(c.seconds);
  }

  /** Truncation, not rounding: what format_timestamp prints reads back as the
      whole seconds of its input. */
  lemma FormatTimestampReadsBackFloor(t: real)
    ensures ParseTimestamp(FormatTimestamp(t)) == t.Floor
  {
    FormatTimestampTruncates(t);
    FormatSecondsRoundTrip(t.Floor);
  }

  /** Two times print the same exactly when they have the same whole seconds. */
  lemma FormatTimestampSameIff(t: real, u: real)
    ensures FormatTimestamp(t) == FormatTimestamp(u) <==> t.Floor == u.Floor
  {
    FormatTimestampTruncates(t);
    FormatTimestampTruncates(u);
    FormatSecondsRoundTrip(t.Floor);
    FormatSecondsRoundTrip(u.Floor);
  }

  /** One hour, two minutes and five seconds. */
  lemma Example3725()
    ensures FormatSeconds(3725) == "01:02:05"
  {
    assert ClockOf(3725) == Clock(1, 2, 5);
    assert Render(Clock(1, 2, 5)) == "01:02:05";
  }

  /** Every time from 3725 s up to, not including, 3726 s prints "01:02:05":
      3725 and 3725.9 alike, the fraction dropped, not rounded up. */
  lemma ExampleFractionDropped(t: real)
    requires 3725.0 <= t < 3726.0
    ensures FormatTimestamp(t) == "01:02:05"
  {
    FormatTimestampTruncates(t);
    assert t.Floor == 3725;
    Example3725();
  }

  /** 59 whole seconds. */
  lemma Example59()
    ensures FormatSeconds(59) == "00:00:59"
  {
    assert ClockOf(59) == Clock(0, 0, 59);
    assert Render(Clock(0, 0, 59)) == "00:00:59";
  }

  /** Everything below a full minute, 59.999 s included, prints "00:00:59". */
  lemma ExampleNeverRoundsUp(t: real)
    requires 59.0 <= t < 60.0
    ensures FormatTimestamp(t) == "00:00:59"
  {
    FormatTimestampTruncates(t);
    assert t.Floor == 59;
    Example59();
  }

  /** Zero seconds. */
  lemma Example0()
    ensures FormatSeconds(0) == "00:00:00"
  {
    assert ClockOf(0) == Clock(0, 0, 0);
    assert Render(Clock(0, 0, 0)) == "00:00:00";
  }

  /** The first second, zero included, prints all zeros. */
  lemma ExampleZero(t: real)
    requires 0.0 <= t < 1.0
    ensures FormatTimestamp(t) == "00:00:00"
  {
    FormatTimestampTruncates(t);
    assert t.Floor == 0;
    Example0();
  }

  /** A time below ten seconds prints as "00:00:0" and its one whole-second
      digit. */
  lemma OneDigitSeconds(t: real)
    requires 0.0 <= t < 10.0
    ensures FormatTimestamp(t) == "00:00:0" + [DigitChar(t.Floor)]
  {
    var n := t.Floor;
    assert FormatSeconds(n) == "00:00:0" + [DigitChar(n)] by {
      assert ClockOf(n) == Clock(0, 0, n);
      assert ZeroPad2(n) == "0" + [DigitChar(n)];
    }
    FormatTimestampTruncates(t);
  }

  /** One second before zero. */
  lemma ExampleMinus1()
    ensures FormatSeconds(-1) == "-1:59:59"
  {
    assert ClockOf(-1) == Clock(-1, 59, 59);
    assert Render(Clock(-1, 59, 59)) == "-1:59:59";
  }

  /** A negative time, which the arithmetic accepts: floor division gives
      hour -1 and the remainders count up from it, so any time in the second
      before zero, -0.5 s say, prints as "-1:59:59". */
  lemma ExampleNegative(t: real)
    requires -1.0 <= t < 0.0
    ensures FormatTimestamp(t) == "-1:59:59"
  {
    FormatTimestampTruncates(t);
    assert t.Floor == -1;
    ExampleMinus1();
  }
}
