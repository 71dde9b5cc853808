/**
 * The calendar triple (`YMD`), the `Date` value built around it, and the
 * encoder from a triple to a day count since 1 January 1970.
 */
module Calendar {
  import opened Arith
  import opened Results
  import opened Units
  import opened Cycles

  /** A year, month and day with no validity guarantee: the 74th of March is a `YMD`. */
  datatype YMD = YMD(year: int, month: Month, day: i8)

  /**
   * A local date: the triple plus the day of the year and the weekday,
   * which the constructors derive from the day count.
   */
  datatype Date = Date(ymd: YMD, yearday: i16, weekday: Weekday)

  /** Result of a three-way comparison. */
  datatype Ordering = Less | Equal | Greater

  function CompareInts(a: int, b: int): (o: Ordering)
  {
    if a < b then Less else if a == b then Equal else Greater
  }

  /** `YMD::is_valid`: the day lies within the month, for the given leapness of the year. */
  predicate IsValid(x: YMD, isLeapYear: bool)
  {
    x.day >= 1 && x.day <= DaysInMonth(x.month, isLeapYear)
  }

  /** A triple naming a real day of the proleptic Gregorian calendar. */
  predicate ValidYmd(x: YMD)
  {
    IsValid(x, IsLeapYear(x.year))
  }

  /**
   * `YMD::to_days_since_epoch`: days from 1 January 1970 to the triple, or
   * `OutOfRange` when the day is not within its month.
   */
  function ToDaysSinceEpoch(x: YMD): (r: Result<int>)
    ensures r.Err? <==> x.day < 1 || x.day > DaysInMonth(x.month, IsLeapYear(x.year))
  {
    var years := x.year - 2000;
    var calculations := LeapYearCalculations(x.year);
    var leapDaysElapsed, isLeapYear := calculations.0, calculations.1;
    if !IsValid(x, isLeapYear) then Err(OutOfRange)
    else
      Ok(years * 365
         + 10958
         + leapDaysElapsed
         + DaysBeforeStart(x.month)
         + (if isLeapYear && MonthIndex(x.month) >= MonthIndex(March) then 1 else 0)
         + (x.day - 1))
  }

  /** The day count of a valid triple. */
  function DayNumber(x: YMD): int
    requires ValidYmd(x)
  {
    ToDaysSinceEpoch(x).value
  }

  /** Day count of 1 January of `y`. */
  function JanFirst(y: int): int
  {
    DayNumber(YMD(y, January, 1))
  }

  /** Days from 1 January to the first of month `m`. */
  function MonthStart(m: Month, isLeap: bool): int
  {
    DaysBeforeStart(m) + (if isLeap && MonthIndex(m) >= 2 then 1 else 0)
  }

  /** Reference definition of the calendar: the day after a valid triple. */
  function NextDay(x: YMD): YMD
    requires ValidYmd(x)
  {
    if x.day < DaysInMonth(x.month, IsLeapYear(x.year)) then YMD(x.year, x.month, x.day + 1)
    else if x.month == December then YMD(x.year + 1, January, 1)
    else YMD(x.year, MonthFromZero(MonthIndex(x.month) + 1).Unwrap(), 1)
  }

  /** The order derived for `YMD`: by year, then month, then day. */
  function YmdCmp(a: YMD, b: YMD): Ordering
  {
    if a.year != b.year then CompareInts(a.year, b.year)
    else if a.month != b.month then CompareInts(MonthIndex(a.month), MonthIndex(b.month))
    else CompareInts(a.day, b.day)
  }

  predicate YmdLess(a: YMD, b: YMD)
  {
    YmdCmp(a, b) == Less
  }

  /** The two reference points of the encoder: 1 January 1970 is day 0 and 1 March 2000 is `EPOCH_DIFFERENCE`. */
  lemma EncoderAnchors()
    ensures ToDaysSinceEpoch(YMD(1970, January, 1)) == Ok(0)
    ensures ToDaysSinceEpoch(YMD(2000, March, 1)) == Ok(EPOCH_DIFFERENCE)
    ensures ToDaysSinceEpoch(YMD(2000, January, 1)) == Ok(10957)
  {
  }

  /** A valid day count is 1 January of its year plus the start of its month plus the day of the month. */
  lemma DayNumberInYear(x: YMD)
    requires ValidYmd(x)
    ensures DayNumber(x) == JanFirst(x.year) + MonthStart(x.month, IsLeapYear(x.year)) + x.day - 1
  {
  }

  /** Every month ends before the next one starts, and December ends at the end of the year. */
  lemma MonthStartsOrdered(m: Month, n: Month, isLeap: bool)
    ensures MonthIndex(m) < MonthIndex(n) ==> MonthStart(m, isLeap) + DaysInMonth(m, isLeap) <= MonthStart(n, isLeap)
    ensures MonthStart(m, isLeap) + DaysInMonth(m, isLeap) <= (if isLeap then 366 else 365)
    ensures MonthStart(m, isLeap) >= 0
  {
  }

  /**
   * 1 January in closed form: 365 days a year since 1970 plus one per leap
   * year since then (there are 477 leap years in 1 .. 1969).
   */
  lemma JanFirstClosedForm(y: int)
    ensures JanFirst(y) == 365 * (y - 1970) + LeapCount(y - 1) - 477
  {
  }

  /** 1 January of the next year comes one year length later. */
  lemma JanFirstStep(y: int)
    ensures JanFirst(y + 1) == JanFirst(y) + DaysInYear(y)
  {
    LeapDaysElapsedStep(y);
  }

  /** Years only move forward: a later year starts at least a whole year after an earlier one. */
  lemma {:induction false} JanFirstGrows(a: int, b: int)
    requires a < b
    ensures JanFirst(a) + DaysInYear(a) <= JanFirst(b)
    decreases b - a
  {
    JanFirstStep(a);
    if a + 1 < b {
      JanFirstGrows(a + 1, b);
    }
  }

  /** Consecutive days of the calendar have consecutive day counts. */
  lemma NextDayStep(x: YMD)
    requires ValidYmd(x)
    ensures ValidYmd(NextDay(x))
    ensures DayNumber(NextDay(x)) == DayNumber(x) + 1
    ensures YmdLess(x, NextDay(x))
  {
    var leap := IsLeapYear(x.year);
    if x.day < DaysInMonth(x.month, leap) {
    } else if x.month == December {
      JanFirstStep(x.year);
      DayNumberInYear(x);
    } else {
      var n := MonthFromZero(MonthIndex(x.month) + 1).Unwrap();
      DayNumberInYear(x);
      DayNumberInYear(NextDay(x));
      match x.month
      case February => assert n == March;
      case _ =>
        DaysBeforeStartStep(x.month);
    }
  }

  /** The encoder is strictly increasing in the calendar order. */
  lemma DayNumberMonotone(a: YMD, b: YMD)
    requires ValidYmd(a) && ValidYmd(b)
    requires YmdLess(a, b)
    ensures DayNumber(a) < DayNumber(b)
  {
    DayNumberInYear(a);
    DayNumberInYear(b);
    MonthStartsOrdered(a.month, b.month, IsLeapYear(a.year));
    if a.year < b.year {
      JanFirstGrows(a.year, b.year);
    }
  }

  /** The order on triples is the chronological order of the days they name. */
  lemma YmdCmpIsChronological(a: YMD, b: YMD)
    requires ValidYmd(a) && ValidYmd(b)
    ensures YmdCmp(a, b) == Less <==> DayNumber(a) < DayNumber(b)
    ensures YmdCmp(a, b) == Equal <==> DayNumber(a) == DayNumber(b)
    ensures YmdCmp(a, b) == Greater <==> DayNumber(a) > DayNumber(b)
    ensures YmdCmp(a, b) == Equal <==> a == b
  {
    if YmdCmp(a, b) == Less {
      DayNumberMonotone(a, b);
    } else if YmdCmp(a, b) == Greater {
      assert YmdCmp(b, a) == Less;
      DayNumberMonotone(b, a);
    } else {
      assert a.month == b.month;
    }
  }

  /** Different valid triples have different day counts. */
  lemma DayNumberInjective(a: YMD, b: YMD)
    requires ValidYmd(a) && ValidYmd(b)
    requires DayNumber(a) == DayNumber(b)
    ensures a == b
  {
    YmdCmpIsChronological(a, b);
  }

  /** A day count lies in exactly one year. */
  lemma YearOfDay(a: int, b: int, n: int)
    requires JanFirst(a) <= n < JanFirst(a) + DaysInYear(a)
    requires JanFirst(b) <= n < JanFirst(b) + DaysInYear(b)
    ensures a == b
  {
    if a < b {
      JanFirstGrows(a, b);
    } else if b < a {
      JanFirstGrows(b, a);
    }
  }

  /**
   * The day `days` (counted from 1 March 2000) is a 29 February and `x` is
   * the 1 March after it.
   */
  predicate LeapDayShifted(days: int, x: YMD)
  {
    x.month == March && x.day == 1 && IsLeapYear(x.year)
    && DayNumber(YMD(x.year, February, 29)) == days + EPOCH_DIFFERENCE
  }

  /**
   * What decoding the day count `days` (counted from 1 March 2000) yields:
   * a valid triple other than 29 February that names that day, or the
   * 1 March after it when that day is a leap day; the day of the year
   * counted from 1 January of the triple's year; and the weekday of the day
   * count. At most one date qualifies (`DecodesToUnique`).
   */
  predicate DecodesTo(days: int, d: Date)
  {
    && ValidYmd(d.ymd)
    && !(d.ymd.month == February && d.ymd.day == 29)
    && (DayNumber(d.ymd) == days + EPOCH_DIFFERENCE || LeapDayShifted(days, d.ymd))
    && d.yearday == days + EPOCH_DIFFERENCE - JanFirst(d.ymd.year) + 1
    && d.weekday == DaysToWeekday(days)
  }

  /** A day count decodes to one date at most. */
  lemma DecodesToUnique(days: int, a: Date, b: Date)
    requires DecodesTo(days, a) && DecodesTo(days, b)
    ensures a == b
  {
    var n := days + EPOCH_DIFFERENCE;
    if DayNumber(a.ymd) == n && DayNumber(b.ymd) == n {
      DayNumberInjective(a.ymd, b.ymd);
    } else if DayNumber(a.ymd) == n {
      DayNumberInjective(a.ymd, YMD(b.ymd.year, February, 29));
    } else if DayNumber(b.ymd) == n {
      DayNumberInjective(b.ymd, YMD(a.ymd.year, February, 29));
    } else {
      DayNumberInjective(YMD(a.ymd.year, February, 29), YMD(b.ymd.year, February, 29));
    }
  }

  /** The day of the year of a decoded date lies within its year; a shifted leap day keeps 60. */
  lemma DecodesToYearday(days: int, d: Date)
    requires DecodesTo(days, d)
    ensures 1 <= d.yearday <= DaysInYear(d.ymd.year)
    ensures LeapDayShifted(days, d.ymd) ==> d.yearday == 60
  {
    DayNumberInYear(d.ymd);
    MonthStartsOrdered(d.ymd.month, d.ymd.month, IsLeapYear(d.ymd.year));
    if LeapDayShifted(days, d.ymd) {
      DayNumberInYear(YMD(d.ymd.year, February, 29));
    }
  }

  /**
   * Decoding the day count of a valid triple gives the triple back, except
   * 29 February, which gives 1 March of its year; the day of the year is
   * the triple's own in both cases.
   */
  lemma DecodesToTriple(x: YMD, d: Date)
    requires ValidYmd(x) && DecodesTo(DayNumber(x) - EPOCH_DIFFERENCE, d)
    ensures !(x.month == February && x.day == 29) ==> d.ymd == x
    ensures x.month == February && x.day == 29 ==> d.ymd == YMD(x.year, March, 1)
    ensures d.yearday == DayNumber(x) - JanFirst(x.year) + 1
  {
    if DayNumber(d.ymd) == DayNumber(x) {
      DayNumberInjective(x, d.ymd);
    } else {
      DayNumberInjective(x, YMD(d.ymd.year, February, 29));
    }
  }

  /** A day count that lies in `year` decodes into `year`, with its day of the year counted from 1 January. */
  lemma DecodesToInYear(days: int, year: int, d: Date)
    requires DecodesTo(days, d)
    requires JanFirst(year) <= days + EPOCH_DIFFERENCE < JanFirst(year) + DaysInYear(year)
    ensures d.ymd.year == year
    ensures d.yearday == days + EPOCH_DIFFERENCE - JanFirst(year) + 1
  {
    DecodesToYearday(days, d);
    YearOfDay(year, d.ymd.year, days + EPOCH_DIFFERENCE);
  }

  /** 29 February is accepted exactly in leap years, as the tests pin down for 2004..2017 and 1600..1602. */
  lemma LeapDayAccepted(y: int)
    ensures ToDaysSinceEpoch(YMD(y, February, 29)).Ok? <==> IsLeapYear(y)
    ensures y in {2004, 2008, 2012, 2016, 1600} ==> ToDaysSinceEpoch(YMD(y, February, 29)).Ok?
    ensures y in {2005, 2009, 2013, 2017, 1601, 1602} ==> ToDaysSinceEpoch(YMD(y, February, 29)).Err?
  {
  }

  /** The day after the last of any month is rejected, in every year: January 32, February 30, April 31, ... */
  lemma MonthOverflowRejected(y: int, m: Month)
    ensures ToDaysSinceEpoch(YMD(y, m, DaysInMonth(m, IsLeapYear(y)) + 1)).Err?
    ensures ToDaysSinceEpoch(YMD(y, m, 0)).Err?
    ensures m in {April, June, September, November} ==> ToDaysSinceEpoch(YMD(y, m, 31)).Err?
    ensures m != February ==> ToDaysSinceEpoch(YMD(y, m, 32)).Err?
    ensures ToDaysSinceEpoch(YMD(y, February, 30)).Err?
  {
  }
}
