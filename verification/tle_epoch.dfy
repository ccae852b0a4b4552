/**
 * `parse_tle_epoch` in ingest_tles.py: the epoch of a NORAD two-line element
 * set, read from columns 19-32 of line 1 (two year digits, then the day of the
 * year with its fraction). The day is kept in fixed point, in units of 1e-8 day
 * (the resolution of the field, 864 microseconds), so the date arithmetic is exact.
 */
module TleEpoch {
  import opened Wrappers

  /** Fixed-point units per day: the day field has eight fraction digits. */
  const TICKS_PER_DAY: int := 100_000_000
  const FRACTION_DIGITS: nat := 8

  /**
   * What the source returns, `datetime(year, 1, 1) + timedelta(days=day - 1)`,
   * kept as its two parts: the year and the day of the year in fixed point.
   */
  datatype Epoch = Epoch(year: int, dayTicks: int)

  /**
   * Why the conversion raises: `int` of the year digits or `float` of the day
   * fails (`ValueError`), or the date lands past `datetime.max` (`OverflowError`).
   */
  datatype EpochError = BadYear | BadDay | Overflow

  predicate IsDigit(c: char)
  {
    '0' <= c <= '9'
  }

  predicate AllDigits(s: string)
  {
    forall i :: 0 <= i < |s| ==> IsDigit(s[i])
  }

  function DigitValue(c: char): nat
    requires IsDigit(c)
  {
    c as int - '0' as int
  }

  /** The value of a string of decimal digits; the empty string is 0. */
  function DecimalValue(s: string): nat
    requires AllDigits(s)
  {
    if s == [] then 0 else DecimalValue(s[..|s| - 1]) * 10 + DigitValue(s[|s| - 1])
  }

  function Pow10(n: nat): (p: nat)
    ensures p >= 1
  {
    if n == 0 then 1 else 10 * Pow10(n - 1)
  }

  /** Python's slice `s[a:b]` for 0 <= a <= b: both ends are clipped to the string. */
  function Slice(s: string, a: nat, b: nat): (r: string)
    requires a <= b
    ensures |r| <= b - a
    ensures b <= |s| ==> r == s[a..b]
  {
    var hi := if b < |s| then b else |s|;
    var lo := if a < hi then a else hi;
    s[lo..hi]
  }

  /** The epoch field of line 1, `tle_line1[18:32]`. */
  function EpochField(line1: string): string
  {
    Slice(line1, 18, 32)
  }

  /** The index of the first '.' in `s`, or |s| when there is none. */
  function IndexOfDot(s: string): (i: nat)
    ensures i <= |s|
    ensures forall k :: 0 <= k < i ==> s[k] != '.'
    ensures i < |s| ==> s[i] == '.'
  {
    if s == [] || s[0] == '.' then 0 else IndexOfDot(s[1..]) + 1
  }

  /**
   * `float(s)` for a decimal spelling `digits[.digits]` with at least one digit
   * and at most eight after the point, in units of 1e-8 day; None for anything else.
   */
  function ParseDay(s: string): Option<nat>
  {
    var p := IndexOfDot(s);
    var whole := s[..p];
    var frac := if p < |s| then s[p + 1..] else [];
    if AllDigits(whole) && AllDigits(frac) && |frac| <= FRACTION_DIGITS && |whole| + |frac| > 0 then
      Some(DecimalValue(whole) * TICKS_PER_DAY + DecimalValue(frac) * Pow10(FRACTION_DIGITS - |frac|))
    else None
  }

  /**
   * The epoch in a 14-character field. Only two ASCII digits are accepted as
   * the year field, read as 20YY, so the year lies in 2000..2099 whatever the
   * digits are; the instant is one a `datetime` can hold. (Python's `int` also
   * takes spellings such as "1 " or "_1" there, giving year 201.)
   */
  function ParseEpochField(f: string): (r: Result<Epoch, EpochError>)
    ensures r.Success? ==> 2000 <= r.value.year <= 2099
    ensures r.Success? ==> |f| >= 3 && AllDigits(f[..2])
    ensures r.Success? ==> Instant(r.value) < DATETIME_END
  {
    if |f| < 2 || !IsDigit(f[0]) || !IsDigit(f[1]) then Failure(BadYear)
    else
      match ParseDay(f[2..])
      case None => Failure(BadDay)
      case Some(ticks) =>
        var e := Epoch(2000 + 10 * DigitValue(f[0]) + DigitValue(f[1]), ticks);
        if Instant(e) >= DATETIME_END then Failure(Overflow) else Success(e)
  }

  /** `parse_tle_epoch`: only columns 19-32 of line 1 are read. */
  function ParseTleEpoch(line1: string): (r: Result<Epoch, EpochError>)
    ensures r.Success? ==> 2000 <= r.value.year <= 2099 && Instant(r.value) < DATETIME_END
    ensures |line1| <= 20 ==> r.Failure?
  {
    ParseEpochField(EpochField(line1))
  }

  // ---------------------------------------------------------------------------
  // The proleptic Gregorian calendar of Python's datetime

  predicate IsLeap(y: int)
  {
    y % 4 == 0 && (y % 100 != 0 || y % 400 == 0)
  }

  /** The days from 0001-01-01 to 1 January of year y. */
  function DaysBeforeYear(y: int): int
    requires y >= 1
  {
    (y - 1) * 365 + (y - 1) / 4 - (y - 1) / 100 + (y - 1) / 400
  }

  /** The end of `datetime.max`'s year 9999: no `datetime` reaches this instant. */
  const DATETIME_END: int := DaysBeforeYear(10000) * TICKS_PER_DAY

  function DaysInYear(y: int): int
  {
    if IsLeap(y) then 366 else 365
  }

  /** The instant an epoch denotes, in 1e-8 day units since 0001-01-01 00:00. */
  function Instant(e: Epoch): int
    requires e.year >= 1
  {
    DaysBeforeYear(e.year) * TICKS_PER_DAY + e.dayTicks - TICKS_PER_DAY
  }

  // ---------------------------------------------------------------------------
  // A formatter, the inverse of the parser on well-formed fields

  function DigitChar(d: nat): char
    requires d < 10
  {
    (d + '0' as int) as char
  }

  /** `n` written with exactly `w` digits, leading zeros included. */
  function Digits(n: nat, w: nat): (s: string)
    ensures |s| == w && AllDigits(s)
  {
    if w == 0 then [] else Digits(n / 10, w - 1) + [DigitChar(n % 10)]
  }

  /** The canonical 14-character epoch field "YYDDD.DDDDDDDD" of a 21st-century epoch. */
  function FormatEpochField(year: int, dayTicks: int): (f: string)
    requires 2000 <= year <= 2099 && 0 <= dayTicks < 1000 * TICKS_PER_DAY
    ensures |f| == 14
  {
    Digits(year - 2000, 2) + Digits(dayTicks / TICKS_PER_DAY, 3) + "." + Digits(dayTicks % TICKS_PER_DAY, FRACTION_DIGITS)
  }

  // ---------------------------------------------------------------------------
  // Properties

  lemma Pow10Eight()
    ensures Pow10(FRACTION_DIGITS) == TICKS_PER_DAY
  {
    assert Pow10(1) == 10;
    assert Pow10(2) == 100;
    assert Pow10(3) == 1000;
    assert Pow10(4) == 10000;
    assert Pow10(5) == 100000;
    assert Pow10(6) == 1000000;
    assert Pow10(7) == 10000000;
  }

  /** Reading back `n` written in `w` digits gives `n`, when it fits. */
  lemma {:induction false} DigitsRoundTrip(n: nat, w: nat)
    requires n < Pow10(w)
    ensures DecimalValue(Digits(n, w)) == n
  {
    if w > 0 {
      DigitsRoundTrip(n / 10, w - 1);
      var s := Digits(n, w);
      assert s[..|s| - 1] == Digits(n / 10, w - 1);
    }
  }

  lemma DigitsHaveNoDot(s: string)
    requires AllDigits(s)
    ensures forall k :: 0 <= k < |s| ==> s[k] != '.'
  {
  }

  /** Parsing a formatted field gives back the year and the fixed-point day. */
  lemma ParseFormatRoundTrip(year: int, dayTicks: int)
    requires 2000 <= year <= 2099 && 0 <= dayTicks < 1000 * TICKS_PER_DAY
    ensures ParseEpochField(FormatEpochField(year, dayTicks)) == Success(Epoch(year, dayTicks))
  {
    var yy := Digits(year - 2000, 2);
    var day := Digits(dayTicks / TICKS_PER_DAY, 3) + "." + Digits(dayTicks % TICKS_PER_DAY, FRACTION_DIGITS);
    FormatIsYearThenDay(year, dayTicks);
    YearDigitsRoundTrip(year - 2000);
    FormatDayRoundTrip(dayTicks);
    EpochFits(year, dayTicks);
    ParseYearThenDay(yy, day, dayTicks);
  }

  /** The formatted field splits into the year digits and the day part. */
  lemma FormatIsYearThenDay(year: int, dayTicks: int)
    requires 2000 <= year <= 2099 && 0 <= dayTicks < 1000 * TICKS_PER_DAY
    ensures FormatEpochField(year, dayTicks) ==
      Digits(year - 2000, 2) + (Digits(dayTicks / TICKS_PER_DAY, 3) + "." + Digits(dayTicks % TICKS_PER_DAY, FRACTION_DIGITS))
  {
  }

  /** A field made of two year digits and a day part that parses reads as that year and day, when it fits. */
  lemma ParseYearThenDay(yy: string, day: string, dayTicks: int)
    requires |yy| == 2 && IsDigit(yy[0]) && IsDigit(yy[1]) && ParseDay(day) == Some(dayTicks)
    requires Instant(Epoch(2000 + 10 * DigitValue(yy[0]) + DigitValue(yy[1]), dayTicks)) < DATETIME_END
    ensures ParseEpochField(yy + day) == Success(Epoch(2000 + 10 * DigitValue(yy[0]) + DigitValue(yy[1]), dayTicks))
  {
    var f := yy + day;
    assert f[2..] == day && f[0] == yy[0] && f[1] == yy[1];
  }

  /** The two year digits read back as the year within the century. */
  lemma YearDigitsRoundTrip(n: nat)
    requires n < 100
    ensures |Digits(n, 2)| == 2 && IsDigit(Digits(n, 2)[0]) && IsDigit(Digits(n, 2)[1])
    ensures 10 * DigitValue(Digits(n, 2)[0]) + DigitValue(Digits(n, 2)[1]) == n
  {
    var tens, units := n / 10, n % 10;
    assert Digits(tens, 1) == [DigitChar(tens % 10)];
    assert tens % 10 == tens;
    assert Digits(n, 2) == [DigitChar(tens), DigitChar(units)];
  }

  /** The day part "DDD.DDDDDDDD" reads back as the fixed-point day it was written from. */
  lemma FormatDayRoundTrip(dayTicks: int)
    requires 0 <= dayTicks < 1000 * TICKS_PER_DAY
    ensures ParseDay(Digits(dayTicks / TICKS_PER_DAY, 3) + "." + Digits(dayTicks % TICKS_PER_DAY, FRACTION_DIGITS)) == Some(dayTicks)
  {
    var whole := Digits(dayTicks / TICKS_PER_DAY, 3);
    var frac := Digits(dayTicks % TICKS_PER_DAY, FRACTION_DIGITS);
    var day := whole + "." + frac;
    Pow10Eight();
    DigitsRoundTrip(dayTicks / TICKS_PER_DAY, 3);
    DigitsRoundTrip(dayTicks % TICKS_PER_DAY, FRACTION_DIGITS);
    assert IndexOfDot(day) == 3 by {
      DigitsHaveNoDot(whole);
      IndexOfDotAfterDigits(day, 3);
    }
    assert day[..3] == whole && day[4..] == frac;
  }

  /** Every 21st-century epoch with a day below 1000 is an instant a `datetime` can hold. */
  lemma EpochFits(year: int, dayTicks: int)
    requires 2000 <= year <= 2099 && 0 <= dayTicks < 1000 * TICKS_PER_DAY
    ensures Instant(Epoch(year, dayTicks)) < DATETIME_END
  {
    assert DaysBeforeYear(10000) == 3652059;
    assert DaysBeforeYear(year) <= 367 * year;
  }

  /** The first dot of `s` is at `i` when the characters before are not dots and `s[i]` is one. */
  lemma {:induction false} IndexOfDotAfterDigits(s: string, i: nat)
    requires i < |s| && s[i] == '.' && forall k :: 0 <= k < i ==> s[k] != '.'
    ensures IndexOfDot(s) == i
  {
    if i > 0 {
      IndexOfDotAfterDigits(s[1..], i - 1);
    }
  }

  /** A string of digits has no dot. */
  lemma {:induction false} IndexOfDotInDigits(s: string)
    requires AllDigits(s)
    ensures IndexOfDot(s) == |s|
  {
    if s != [] {
      IndexOfDotInDigits(s[1..]);
    }
  }

  /**
   * A day field of three million days or more (reachable, since the field has
   * twelve characters after the year) carries the date past year 9999, and the
   * conversion raises instead of returning.
   */
  lemma HugeDayOverflows(f: string)
    requires |f| > 2 && AllDigits(f) && DecimalValue(f[2..]) >= 3_000_000
    ensures ParseEpochField(f) == Failure(Overflow)
  {
    IndexOfDotInDigits(f[2..]);
    assert f[2..][..|f| - 2] == f[2..];
  }

  /** A line carrying a formatted field in columns 19-32 parses to that field's epoch. */
  lemma ParseLineWithField(line1: string, year: int, dayTicks: int)
    requires 2000 <= year <= 2099 && 0 <= dayTicks < 1000 * TICKS_PER_DAY
    requires |line1| >= 32 && line1[18..32] == FormatEpochField(year, dayTicks)
    ensures ParseTleEpoch(line1) == Success(Epoch(year, dayTicks))
  {
    ParseFormatRoundTrip(year, dayTicks);
  }

  /**
   * The century is never consulted: year digits "57" give 2057, not the 1957
   * that the element-set convention (57-99 mean 19xx) assigns them.
   */
  lemma YearDigits57Read2057(line1: string)
    requires |line1| >= 32 && line1[18] == '5' && line1[19] == '7'
    ensures ParseTleEpoch(line1).Success? ==> ParseTleEpoch(line1).value.year == 2057
  {
    assert EpochField(line1)[0] == '5' && EpochField(line1)[1] == '7';
  }

  /** Day 1.0 is 1 January 00:00 of the epoch's year. */
  lemma DayOneIsNewYear(year: int)
    requires 2000 <= year <= 2099
    ensures ParseEpochField(FormatEpochField(year, TICKS_PER_DAY)) == Success(Epoch(year, TICKS_PER_DAY))
    ensures Instant(Epoch(year, TICKS_PER_DAY)) == DaysBeforeYear(year) * TICKS_PER_DAY
  {
    ParseFormatRoundTrip(year, TICKS_PER_DAY);
  }

  /** Within a year, a larger day value is a strictly later instant. */
  lemma LaterDayLaterInstant(f1: string, f2: string)
    requires ParseEpochField(f1).Success? && ParseEpochField(f2).Success?
    requires f1[..2] == f2[..2]
    requires ParseEpochField(f1).value.dayTicks < ParseEpochField(f2).value.dayTicks
    ensures Instant(ParseEpochField(f1).value) < Instant(ParseEpochField(f2).value)
  {
    assert f1[0] == f1[..2][0] == f2[..2][0] == f2[0];
    assert f1[1] == f1[..2][1] == f2[..2][1] == f2[1];
  }

  /** Stepping from one year to the next adds 366 days in a leap year and 365 otherwise. */
  lemma YearLength(y: int)
    requires y >= 1
    ensures DaysBeforeYear(y + 1) == DaysBeforeYear(y) + DaysInYear(y)
  {
    Multiples4(y);
    Multiples100(y);
    Multiples400(y);
  }

  /** Stepping from y - 1 to y passes one more multiple of 4 exactly when y is one. */
  lemma Multiples4(y: int)
    ensures y / 4 - (y - 1) / 4 == if y % 4 == 0 then 1 else 0
  {
    var q, r := (y - 1) / 4, (y - 1) % 4;
    if r == 3 {
      assert y == 4 * (q + 1);
    } else {
      assert y == 4 * q + (r + 1);
    }
  }

  /** Stepping from y - 1 to y passes one more multiple of 100 exactly when y is one. */
  lemma Multiples100(y: int)
    ensures y / 100 - (y - 1) / 100 == if y % 100 == 0 then 1 else 0
  {
    var q, r := (y - 1) / 100, (y - 1) % 100;
    if r == 99 {
      assert y == 100 * (q + 1);
    } else {
      assert y == 100 * q + (r + 1);
    }
  }

  /** Stepping from y - 1 to y passes one more multiple of 400 exactly when y is one. */
  lemma Multiples400(y: int)
    ensures y / 400 - (y - 1) / 400 == if y % 400 == 0 then 1 else 0
  {
    var q, r := (y - 1) / 400, (y - 1) % 400;
    if r == 399 {
      assert y == 400 * (q + 1);
    } else {
      assert y == 400 * q + (r + 1);
    }
  }

  /** A day value between 1 and the year's length plus one falls in that calendar year. */
  lemma EpochWithinYear(e: Epoch)
    requires e.year >= 1
    requires TICKS_PER_DAY <= e.dayTicks < (DaysInYear(e.year) + 1) * TICKS_PER_DAY
    ensures DaysBeforeYear(e.year) * TICKS_PER_DAY <= Instant(e) < DaysBeforeYear(e.year + 1) * TICKS_PER_DAY
  {
    YearLength(e.year);
  }
}
