/**
 * Calendar dates as the DAO reads them: ISO 8601 calendar dates in extended
 * format YYYY-MM-DD (section 5.2.1.1 of ISO 8601:2004), parsed strictly, and
 * pinned to the instant at 00:00 UTC of that day.
 *
 * The day number of a date follows java.time's LocalDate.toEpochDay formula;
 * it is proved equal to an independent day-by-day count and to be strictly
 * increasing in calendar order, so comparing instants compares dates.
 */
module CalendarDate {
  import opened Wrappers

  datatype Date = Date(year: int, month: int, day: int)

  /** The proleptic Gregorian leap-year rule. */
  predicate IsLeapYear(year: int) {
    year % 4 == 0 && (year % 100 != 0 || year % 400 == 0)
  }

  function YearLength(year: int): int {
    if IsLeapYear(year) then 366 else 365
  }

  function MonthLength(year: int, month: int): int {
    if month == 2 then (if IsLeapYear(year) then 29 else 28)
    else if month == 4 || month == 6 || month == 9 || month == 11 then 30
    else 31
  }

  /** A real date with a four-digit year: month 1-12, day within the month. */
  predicate Valid(d: Date) {
    0 <= d.year <= 9999 && 1 <= d.month <= 12 && 1 <= d.day <= MonthLength(d.year, d.month)
  }

  /** Calendar order: earlier year, then earlier month, then earlier day. */
  predicate Before(a: Date, b: Date) {
    a.year < b.year || (a.year == b.year && (a.month < b.month || (a.month == b.month && a.day < b.day)))
  }

  // ---------------------------------------------------------------------
  // Text form

  predicate IsDigit(c: char) {
    '0' <= c <= '9'
  }

  predicate AllDigits(s: string) {
    forall i :: 0 <= i < |s| ==> IsDigit(s[i])
  }

  /** The value of a string of decimal digits, most significant digit first. */
  function Number(s: string): nat
    requires AllDigits(s)
  {
    if s == [] then 0 else Number(s[..|s| - 1]) * 10 + (s[|s| - 1] as int - '0' as int)
  }

  function Pow10(n: nat): nat {
    if n == 0 then 1 else 10 * Pow10(n - 1)
  }

  /** `n` written with exactly `width` decimal digits, zero-padded on the left. */
  function Digits(n: nat, width: nat): string {
    if width == 0 then [] else Digits(n / 10, width - 1) + [('0' as int + n % 10) as char]
  }

  /**
   * Strict parse of YYYY-MM-DD: exactly four year digits, two month digits
   * and two day digits separated by '-', and the date must exist (so
   * February 29 only in leap years). Anything else is None.
   */
  function ParseDate(s: string): (r: Option<Date>)
    ensures r.Some? ==> Valid(r.value)
  {
    if |s| == 10 && s[4] == '-' && s[7] == '-'
       && AllDigits(s[..4]) && AllDigits(s[5..7]) && AllDigits(s[8..])
    then
      var d := Date(Number(s[..4]), Number(s[5..7]), Number(s[8..]));
      if Valid(d) then Some(d) else None
    else
      None
  }

  /** The YYYY-MM-DD text of a date. */
  function Format(d: Date): string
    requires Valid(d)
  {
    Digits(d.year, 4) + "-" + Digits(d.month, 2) + "-" + Digits(d.day, 2)
  }

  lemma {:induction false} DigitsRoundTrip(n: nat, width: nat)
    requires n < Pow10(width)
    ensures |Digits(n, width)| == width
    ensures AllDigits(Digits(n, width))
    ensures Number(Digits(n, width)) == n
  {
    if width > 0 {
      assert n / 10 < Pow10(width - 1);
      DigitsRoundTrip(n / 10, width - 1);
      var s := Digits(n, width);
      assert s[..|s| - 1] == Digits(n / 10, width - 1);
    }
  }

  lemma {:induction false} NumberRoundTrip(s: string)
    requires AllDigits(s)
    ensures Number(s) < Pow10(|s|)
    ensures Digits(Number(s), |s|) == s
  {
    if s != [] {
      var init := s[..|s| - 1];
      assert AllDigits(init);
      NumberRoundTrip(init);
      var n := Number(s);
      assert n / 10 == Number(init) && n % 10 == s[|s| - 1] as int - '0' as int;
      assert s == init + [s[|s| - 1]];
    }
  }

  /** Every valid date survives formatting and parsing back. */
  lemma ParseFormat(d: Date)
    requires Valid(d)
    ensures ParseDate(Format(d)) == Some(d)
  {
    DigitsRoundTrip(d.year, 4);
    DigitsRoundTrip(d.month, 2);
    DigitsRoundTrip(d.day, 2);
    var s := Format(d);
    assert s[..4] == Digits(d.year, 4);
    assert s[5..7] == Digits(d.month, 2);
    assert s[8..] == Digits(d.day, 2);
  }

  /** The parser accepts only the canonical text of a valid date. */
  lemma FormatParse(s: string)
    requires ParseDate(s).Some?
    ensures Valid(ParseDate(s).value)
    ensures Format(ParseDate(s).value) == s
  {
    NumberRoundTrip(s[..4]);
    NumberRoundTrip(s[5..7]);
    NumberRoundTrip(s[8..]);
    assert s == s[..4] + "-" + s[5..7] + "-" + s[8..];
  }

  // ---------------------------------------------------------------------
  // Day numbers and instants

  /** Days from 0000-01-01 to 1970-01-01 in the proleptic Gregorian calendar (the DayCount of 1970-01-01, by EpochOrigin). */
  const DaysFromYearZeroTo1970 := 719528

  const NanosPerDay := 86_400_000_000_000

  /**
   * Days since 1970-01-01, by the closed formula of LocalDate.toEpochDay. It
   * is the number of days counted one by one from 1970-01-01, so that date is
   * day 0 and earlier dates are negative.
   */
  function EpochDay(d: Date): (n: int)
    requires Valid(d)
    ensures n == DayCount(d) - DaysFromYearZeroTo1970
  {
    var y := d.year;
    var total := 365 * y + (y + 3) / 4 - (y + 99) / 100 + (y + 399) / 400
                 + (367 * d.month - 362) / 12 + d.day - 1;
    var adjusted := if d.month > 2 then (if IsLeapYear(y) then total - 1 else total - 2) else total;
    LeapDays(y);
    MonthDays(y, d.month);
    adjusted - DaysFromYearZeroTo1970
  }

  /**
   * The instant at 00:00 UTC of `d`, in nanoseconds since 1970-01-01T00:00Z:
   * a whole number of days, as many as `d` lies after 1970-01-01.
   */
  function StartOfDay(d: Date): (t: int)
    requires Valid(d)
    ensures t == (DayCount(d) - DaysFromYearZeroTo1970) * NanosPerDay
  {
    EpochDay(d) * NanosPerDay
  }

  /** Reference count: the days of all years before `year`, one year at a time. */
  function DaysBeforeYear(year: nat): nat {
    if year == 0 then 0 else DaysBeforeYear(year - 1) + YearLength(year - 1)
  }

  /** Reference count: the days of all months of `year` before `month`. */
  function DaysBeforeMonth(year: int, month: int): nat
    requires 1 <= month <= 13
  {
    if month == 1 then 0 else DaysBeforeMonth(year, month - 1) + MonthLength(year, month - 1)
  }

  /** Days elapsed since 0000-01-01, counted day by day. */
  function DayCount(d: Date): int
    requires Valid(d)
  {
    DaysBeforeYear(d.year) + DaysBeforeMonth(d.year, d.month) + d.day - 1
  }

  /** The leap-day terms of the closed formula count the leap years before `year`. */
  lemma {:induction false} LeapDays(year: nat)
    ensures DaysBeforeYear(year) == 365 * year + (year + 3) / 4 - (year + 99) / 100 + (year + 399) / 400
  {
    if year > 0 {
      var p := year - 1;
      LeapDays(p);
      LeapYearSteps(p);
    }
  }

  /** Each leap-day term of the formula grows by one exactly at a multiple of its period. */
  lemma LeapYearSteps(p: nat)
    ensures (p + 4) / 4 - (p + 3) / 4 == if p % 4 == 0 then 1 else 0
    ensures (p + 100) / 100 - (p + 99) / 100 == if p % 100 == 0 then 1 else 0
    ensures (p + 400) / 400 - (p + 399) / 400 == if p % 400 == 0 then 1 else 0
    ensures p % 400 == 0 ==> p % 100 == 0
    ensures p % 100 == 0 ==> p % 4 == 0
  {
    Step4(p);
    Step100(p);
    Step400(p);
    if p % 400 == 0 {
      assert p == 100 * (4 * (p / 400));
    }
    if p % 100 == 0 {
      assert p == 4 * (25 * (p / 100));
    }
  }

  lemma Step4(p: nat)
    ensures (p + 4) / 4 - (p + 3) / 4 == if p % 4 == 0 then 1 else 0
  {
  }

  lemma Step100(p: nat)
    ensures (p + 100) / 100 - (p + 99) / 100 == if p % 100 == 0 then 1 else 0
  {
  }

  lemma Step400(p: nat)
    ensures (p + 400) / 400 - (p + 399) / 400 == if p % 400 == 0 then 1 else 0
  {
  }

  /** The month terms of the closed formula count the days of the earlier months. */
  lemma {:induction false} MonthDays(year: int, month: int)
    requires 1 <= month <= 12
    ensures (367 * month - 362) / 12 - (if month > 2 then (if IsLeapYear(year) then 1 else 2) else 0)
            == DaysBeforeMonth(year, month)
  {
    if month > 1 {
      MonthDays(year, month - 1);
      if month == 2 {
      } else if month == 3 {
      } else if month == 4 {
      } else if month == 5 {
      } else if month == 6 {
      } else if month == 7 {
      } else if month == 8 {
      } else if month == 9 {
      } else if month == 10 {
      } else if month == 11 {
      } else {
      }
    }
  }

  lemma EpochOrigin()
    ensures DayCount(Date(1970, 1, 1)) == DaysFromYearZeroTo1970
  {
    LeapDays(1970);
  }

  lemma {:induction false} MonthsFitInYear(year: int, month: int, later: int)
    requires 1 <= month < later <= 13
    ensures DaysBeforeMonth(year, month) + MonthLength(year, month) <= DaysBeforeMonth(year, later)
  {
    if month + 1 < later {
      MonthsFitInYear(year, month, later - 1);
    }
  }

  lemma WholeYear(year: int)
    ensures DaysBeforeMonth(year, 13) == YearLength(year)
  {
    MonthDays(year, 12);
  }

  lemma {:induction false} YearsAccumulate(year: nat, later: nat)
    requires year < later
    ensures DaysBeforeYear(year) + YearLength(year) <= DaysBeforeYear(later)
  {
    if year + 1 < later {
      YearsAccumulate(year, later - 1);
    }
  }

  lemma DayCountIncreasing(a: Date, b: Date)
    requires Valid(a) && Valid(b) && Before(a, b)
    ensures DayCount(a) < DayCount(b)
  {
    if a.year < b.year {
      WholeYear(a.year);
      if a.month < 12 {
        MonthsFitInYear(a.year, a.month, 13);
      }
      YearsAccumulate(a.year, b.year);
    } else if a.month < b.month {
      MonthsFitInYear(a.year, a.month, b.month);
    }
  }

  /** Day numbers order dates exactly as the calendar does. */
  lemma EpochDayOrder(a: Date, b: Date)
    requires Valid(a) && Valid(b)
    ensures Before(a, b) <==> EpochDay(a) < EpochDay(b)
    ensures a == b <==> EpochDay(a) == EpochDay(b)
  {
    if Before(a, b) {
      DayCountIncreasing(a, b);
    } else if Before(b, a) {
      DayCountIncreasing(b, a);
    }
  }

  /**
   * For an instant `offset` nanoseconds into calendar day `c`: it is at or
   * after 00:00 UTC of `s` exactly when `c` is not before `s`, and at or
   * before 00:00 UTC of `e` exactly when `c` is before `e` or the instant is
   * midnight of `e` itself.
   */
  lemma DayBoundaries(c: Date, s: Date, e: Date, offset: int)
    requires Valid(c) && Valid(s) && Valid(e)
    requires 0 <= offset < NanosPerDay
    ensures StartOfDay(c) + offset >= StartOfDay(s) <==> !Before(c, s)
    ensures StartOfDay(c) + offset <= StartOfDay(e) <==> Before(c, e) || (c == e && offset == 0)
  {
    EpochDayOrder(c, s);
    EpochDayOrder(c, e);
    EpochDayOrder(s, c);
    EpochDayOrder(e, c);
  }
}
