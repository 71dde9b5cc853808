/**
 * The public constructors of `Date`: the decoder step by step, and the
 * constructors from a year, month and day; from a year and day of the
 * year (the ordinal date of ISO 8601); and from a year, week and weekday
 * (the ISO 8601 week date). Equality and order of dates look at the year,
 * month and day only.
 */
module Dates {
  import opened Arith
  import opened Results
  import opened Units
  import opened Cycles
  import opened Calendar
  import opened Decoder
  import opened DecoderFacts

  /**
   * The first steps of `Date::from_days_since_epoch`: 400-year cycles by
   * floor division, then 100-year cycles, 4-year cycles and years by
   * Rust's truncating division of what is left, and the days left over.
   */
  method CountCycles(days: int) returns (num400yCycles: int, num100yCycles: int, num4yCycles: int, years: int, remainder: int)
    ensures YearCycles(num400yCycles, num100yCycles, num4yCycles, years, remainder) == SplitDays(days)
  {
    num400yCycles, remainder := SplitCycles(days, DAYS_IN_400Y);

    num100yCycles := TDiv(remainder, DAYS_IN_100Y);
    remainder := remainder - num100yCycles * DAYS_IN_100Y;

    num4yCycles := TDiv(remainder, DAYS_IN_4Y);
    remainder := remainder - num4yCycles * DAYS_IN_4Y;

    years := TDiv(remainder, 365);
    remainder := remainder - years * 365;
  }

  /**
   * `Date::from_days_since_epoch`, step by step as the code does it: the
   * date the day count (since 1 March 2000) decodes to, 29 February
   * excepted (see `DecodesTo`).
   */
  method FromDaysSinceEpoch(days: int) returns (date: Date)
    ensures DecodesTo(days, date)
  {
    var num400yCycles, num100yCycles, num4yCycles, years, remainder := CountCycles(days);
    ghost var cycles := SplitDays(days);

    var daysThisYear := if years == 0 && !(num4yCycles == 0 && num100yCycles != 0) then 366 else 365;

    var dayOfYear := remainder + daysThisYear - 306;
    if dayOfYear >= daysThisYear {
      dayOfYear := dayOfYear - daysThisYear;
    }
    assert dayOfYear == DayOfYear(cycles);

    years := years + 4 * num4yCycles + 100 * num100yCycles + 400 * num400yCycles;

    var month, monthDays;
    match FindAtMost(TIME_TRIANGLE, remainder, 0) {
      case Some(index) =>
        month, monthDays := 11 - index, remainder - TIME_TRIANGLE[index];
      case None =>
        month, monthDays := 0, remainder;
    }
    ghost var scanned, allYears := month, years;

    month := month + 2;
    if month >= 12 {
      years := years + 1;
      month := month - 12;
    }

    var monthVariant := MonthFromZero(AsI8(month)).Unwrap();
    YmdOfParts(cycles, allYears, scanned, monthDays, years, month);

    date := Date(YMD(years + 2000, monthVariant, AsI8(monthDays + 1)),
                 AsI16(dayOfYear + 1),
                 DaysToWeekday(days));
    DecodedParts(days, date);
  }

  /** The year, month and day the method assembles from the scan are those of `DecodedYmd`. */
  lemma YmdOfParts(s: YearCycles, allYears: int, scanned: int, monthDays: int, years: int, month: int)
    requires allYears == s.years + 4 * s.c4 + 100 * s.c100 + 400 * s.c400
    requires (scanned, monthDays) == ScanTriangle(s.remainder)
    requires scanned + 2 >= 12 ==> years == allYears + 1 && month == scanned + 2 - 12
    requires scanned + 2 < 12 ==> years == allYears && month == scanned + 2
    ensures 0 <= month < 12
    ensures DecodedYmd(s) == YMD(years + 2000, MonthFromZero(AsI8(month)).Unwrap(), AsI8(monthDays + 1))
  {
  }

  /** A date assembled from the parts of the decoder's expression is the date `DecodesTo` describes. */
  lemma DecodedParts(days: int, date: Date)
    requires date.ymd == DecodedYmd(SplitDays(days))
    requires date.yearday == AsI16(DayOfYear(SplitDays(days)) + 1)
    requires date.weekday == DaysToWeekday(days)
    ensures DecodesTo(days, date)
  {
    DecodeDaysMeaning(days);
  }

  /**
   * `Date::ymd`: encode the triple, then decode the count. An error exactly
   * when the triple is invalid; otherwise that triple (1 March for a
   * 29 February) with its own day of the year.
   */
  method Ymd(year: int, month: Month, day: i8) returns (r: Result<Date>)
    ensures r.Err? <==> !ValidYmd(YMD(year, month, day))
    ensures r.Ok? ==> DecodesTo(DayNumber(YMD(year, month, day)) - EPOCH_DIFFERENCE, r.value)
    ensures r.Ok? && !(month == February && day == 29) ==> r.value.ymd == YMD(year, month, day)
    ensures r.Ok? && month == February && day == 29 ==> r.value.ymd == YMD(year, March, 1)
    ensures r.Ok? ==> r.value.yearday == MonthStart(month, IsLeapYear(year)) + day
  {
    var x := YMD(year, month, day);
    match ToDaysSinceEpoch(x)
    case Ok(days) =>
      var date := FromDaysSinceEpoch(days - EPOCH_DIFFERENCE);
      SameDayCount(days - EPOCH_DIFFERENCE, DayNumber(x) - EPOCH_DIFFERENCE, date);
      DecodesToTriple(x, date);
      DayNumberInYear(x);
      r := Ok(date);
    case Err(e) =>
      r := Err(e);
  }

  /**
   * `Date::yd`: the day `yearday - 1` days after 1 January of `year`, for
   * `yearday` in 0..366, and an error otherwise. Within the year that is
   * the ordinal date (`Calendar.DecodesToInYear`); day 0 is 31 December of
   * the year before (`YdLastDayBefore`) and day 366 of a common year is
   * 1 January of the next (`YdFirstDayAfter`).
   */
  method Yd(year: int, yearday: int) returns (r: Result<Date>)
    ensures r.Err? <==> !(0 <= yearday < 367)
    ensures r.Ok? ==> DecodesTo(JanFirst(year) + yearday - 1 - EPOCH_DIFFERENCE, r.value)
  {
    if 0 <= yearday < 367 {
      var jan1 := YMD(year, January, 1);
      match ToDaysSinceEpoch(jan1)
      case Ok(days) =>
        var date := FromDaysSinceEpoch(days + yearday - 1 - EPOCH_DIFFERENCE);
        r := Ok(date);
      case Err(e) =>
        r := Err(e);
    } else {
      r := Err(OutOfRange);
    }
  }

  /** The day before 1 January decodes to 31 December of the year before. */
  lemma YdLastDayBefore(year: int, d: Date)
    requires DecodesTo(JanFirst(year) - 1 - EPOCH_DIFFERENCE, d)
    ensures d.ymd == YMD(year - 1, December, 31)
  {
    var dec31 := YMD(year - 1, December, 31);
    JanFirstStep(year - 1);
    DayNumberInYear(dec31);
    DecodesToTriple(dec31, d);
  }

  /** The day after a common year decodes to 1 January of the next year. */
  lemma YdFirstDayAfter(year: int, d: Date)
    requires !IsLeapYear(year)
    requires DecodesTo(JanFirst(year) + 365 - EPOCH_DIFFERENCE, d)
    ensures d.ymd == YMD(year + 1, January, 1)
  {
    var jan1 := YMD(year + 1, January, 1);
    JanFirstStep(year);
    DecodesToTriple(jan1, d);
  }

  /** The documented ordinal dates of a common year: day 256 of 2015 is 13 September, day 268 the 25th. */
  lemma YdExamplesCommonYear(a: Date, b: Date)
    requires DecodesTo(JanFirst(2015) + 256 - 1 - EPOCH_DIFFERENCE, a)
    requires DecodesTo(JanFirst(2015) + 268 - 1 - EPOCH_DIFFERENCE, b)
    ensures a.ymd == YMD(2015, September, 13)
    ensures b.ymd == YMD(2015, September, 25)
  {
    OrdinalDecodes(JanFirst(2015) + 256 - 1 - EPOCH_DIFFERENCE, YMD(2015, September, 13), 256, a);
    OrdinalDecodes(JanFirst(2015) + 268 - 1 - EPOCH_DIFFERENCE, YMD(2015, September, 25), 268, b);
  }

  /** The documented ordinal date of a leap year: day 268 of 2016 is 24 September, a day earlier than in 2015. */
  lemma YdExampleLeapYear(c: Date)
    requires DecodesTo(JanFirst(2016) + 268 - 1 - EPOCH_DIFFERENCE, c)
    ensures c.ymd == YMD(2016, September, 24)
  {
    OrdinalDecodes(JanFirst(2016) + 268 - 1 - EPOCH_DIFFERENCE, YMD(2016, September, 24), 268, c);
  }

  /** Day `k` of a year, counted from 1 January as day 1, decodes to the triple whose day of the year is `k`. */
  lemma OrdinalDecodes(days: int, x: YMD, k: int, d: Date)
    requires ValidYmd(x) && !(x.month == February && x.day == 29)
    requires k == MonthStart(x.month, IsLeapYear(x.year)) + x.day
    requires days + EPOCH_DIFFERENCE == JanFirst(x.year) + k - 1
    requires DecodesTo(days, d)
    ensures d.ymd == x && d.yearday == k
  {
    DayNumberInYear(x);
    DecodesToTriple(x, d);
  }

  /**
   * Day count (since 1 January 1970) of the Monday of week 1 of `year` in
   * ISO 8601: the Monday of the week that holds 4 January, which lies
   * between 29 December and 4 January.
   */
  function WeekOneMonday(year: int): (n: int)
    ensures DaysToWeekday(n - EPOCH_DIFFERENCE) == Monday
    ensures JanFirst(year) - 3 <= n <= JanFirst(year) + 3
  {
    var jan4 := JanFirst(year) + 3;
    MondayOfWeek(jan4 - EPOCH_DIFFERENCE);
    jan4 - (DaysFromMondayAsOne(DaysToWeekday(jan4 - EPOCH_DIFFERENCE)) - 1)
  }

  /** Day count of the ISO 8601 week date: weekday `weekday` of week `week` of `year`. */
  function WeekDateDay(year: int, week: int, weekday: Weekday): int
  {
    WeekOneMonday(year) + 7 * (week - 1) + DaysFromMondayAsOne(weekday) - 1
  }

  /** The day a week date names falls on its weekday. */
  lemma WeekDateWeekday(year: int, week: int, weekday: Weekday)
    ensures DaysToWeekday(WeekDateDay(year, week, weekday) - EPOCH_DIFFERENCE) == weekday
  {
    var monday := WeekOneMonday(year) - EPOCH_DIFFERENCE;
    var k := DaysFromMondayAsOne(weekday) - 1;
    WeekdayPeriodic(monday + k, week - 1);
    WeekdayShift(monday, k);
    WeekdayIndexInjective(DaysToWeekday(monday + k), weekday);
  }

  /**
   * `Date::ywd`: the ISO 8601 week date, found as a day of the year
   * relative to 1 January and handed to `Yd` in the year before, the year
   * itself or the year after (the code has one `Yd` call per branch; here
   * the branches choose the arguments of a single call). Every branch decodes the same day, so the
   * weekday is always the one asked for. Weeks 1 to 53 always succeed;
   * the code also accepts weeks well outside that range (from -50 to 104
   * at least, and never below -52 or above 105).
   */
  method Ywd(year: int, week: int, weekday: Weekday) returns (r: Result<Date>)
    ensures r.Ok? ==> DecodesTo(WeekDateDay(year, week, weekday) - EPOCH_DIFFERENCE, r.value)
    ensures r.Ok? ==> r.value.weekday == weekday
    ensures -50 <= week <= 104 ==> r.Ok?
    ensures week <= -53 || 106 <= week ==> r.Err?
  {
    var yearday := YwdYearday(year, week, weekday);

    var y, k;
    if yearday <= 0 {
      var daysInYear := if IsLeapYear(year - 1) then 366 else 365;
      y, k := year - 1, daysInYear + yearday;
      JanFirstStep(year - 1);
    } else {
      var daysInYear := if IsLeapYear(year) then 366 else 365;
      if yearday >= daysInYear {
        y, k := year + 1, yearday - daysInYear;
        JanFirstStep(year);
      } else {
        y, k := year, yearday;
      }
    }
    r := Yd(y, k);
    YwdFromYd(year, week, weekday, y, k, r);
  }

  /**
   * Whichever year `Ywd` hands to `Yd`, the day of the year it passes names
   * the same day, so the result is the week date, on its weekday.
   */
  lemma YwdFromYd(year: int, week: int, weekday: Weekday, y: int, k: int, r: Result<Date>)
    requires JanFirst(y) + k == JanFirst(year) + YwdYearday(year, week, weekday)
    requires r.Ok? ==> DecodesTo(JanFirst(y) + k - 1 - EPOCH_DIFFERENCE, r.value)
    ensures r.Ok? ==> DecodesTo(WeekDateDay(year, week, weekday) - EPOCH_DIFFERENCE, r.value)
    ensures r.Ok? ==> r.value.weekday == weekday
  {
    if r.Ok? {
      SameDayCount(JanFirst(y) + k - 1 - EPOCH_DIFFERENCE, WeekDateDay(year, week, weekday) - EPOCH_DIFFERENCE, r.value);
      WeekDateWeekday(year, week, weekday);
    }
  }

  /**
   * The first two steps of `Date::ywd`: the weekday of 4 January fixes a
   * correction, and the week and weekday then give the day of the year
   * counted from 1 January (0 or less falls in the year before, past the
   * year's length in the year after). It is the week date's offset from
   * 1 January, within 9 days before to 3 days after `7 * week`.
   */
  function YwdYearday(year: int, week: int, weekday: Weekday): (yearday: int)
    ensures JanFirst(year) + yearday - 1 == WeekDateDay(year, week, weekday)
    ensures 7 * week - 9 <= yearday <= 7 * week + 3
  {
    var jan4 := YMD(year, January, 4);
    JanFourth(year);
    var correction := DaysFromMondayAsOne(DaysToWeekday(ToDaysSinceEpoch(jan4).Unwrap() - EPOCH_DIFFERENCE)) as int + 3;
    7 * week + DaysFromMondayAsOne(weekday) as int - correction
  }

  /** 4 January is a valid date three days after 1 January. */
  lemma JanFourth(year: int)
    ensures ToDaysSinceEpoch(YMD(year, January, 4)) == Ok(JanFirst(year) + 3)
  {
    DayNumberInYear(YMD(year, January, 4));
  }

  /** `DecodesTo` depends on the day count only through its value. */
  lemma SameDayCount(a: int, b: int, d: Date)
    requires a == b && DecodesTo(a, d)
    ensures DecodesTo(b, d)
  {
  }

  /** The documented week date inside its own year: Friday of week 37 of 2015 is 11 September 2015. */
  lemma YwdExampleMidYear(a: Date)
    requires DecodesTo(WeekDateDay(2015, 37, Friday) - EPOCH_DIFFERENCE, a)
    ensures a.ymd == YMD(2015, September, 11)
  {
    WeekDateOrdinals();
    OrdinalDecodes(WeekDateDay(2015, 37, Friday) - EPOCH_DIFFERENCE, YMD(2015, September, 11), 254, a);
  }

  /** Monday of week 1 of 2009 falls in the previous year: 29 December 2008. */
  lemma YwdExampleYearBefore(b: Date)
    requires DecodesTo(WeekDateDay(2009, 1, Monday) - EPOCH_DIFFERENCE, b)
    ensures b.ymd == YMD(2008, December, 29)
  {
    WeekDateOrdinals();
    OrdinalDecodes(WeekDateDay(2009, 1, Monday) - EPOCH_DIFFERENCE, YMD(2008, December, 29), 364, b);
  }

  /** Sunday of week 53 of 2009 falls in the next year: 3 January 2010. */
  lemma YwdExampleYearAfter(c: Date)
    requires DecodesTo(WeekDateDay(2009, 53, Sunday) - EPOCH_DIFFERENCE, c)
    ensures c.ymd == YMD(2010, January, 3)
  {
    WeekDateOrdinals();
    OrdinalDecodes(WeekDateDay(2009, 53, Sunday) - EPOCH_DIFFERENCE, YMD(2010, January, 3), 3, c);
  }

  /**
   * The documented week dates as ordinal dates: Friday of week 37 of 2015
   * is day 254 of 2015, Monday of week 1 of 2009 is day 364 of 2008, and
   * Sunday of week 53 of 2009 is day 3 of 2010.
   */
  lemma WeekDateOrdinals()
    ensures WeekDateDay(2015, 37, Friday) == JanFirst(2015) + 254 - 1
    ensures WeekDateDay(2009, 1, Monday) == JanFirst(2008) + 364 - 1
    ensures WeekDateDay(2009, 53, Sunday) == JanFirst(2010) + 3 - 1
  {
    WeekDateOrdinal(2015, 37, Friday, 16436, 0, 2015, 16436, 254);
    WeekDateOrdinal(2009, 1, Monday, 14245, 0, 2008, 13879, 364);
    WeekDateOrdinal(2009, 53, Sunday, 14245, 0, 2010, 14610, 3);
  }

  /**
   * A week date as an ordinal date, from the closed forms of the two
   * years' 1 January (`jan1`, `ordinalJan1`) and the weekday position of
   * 4 January (Sunday 0): week 1 starts `DaysFromMondayAsOne - 1` days
   * before 4 January.
   */
  lemma WeekDateOrdinal(year: int, week: int, weekday: Weekday, jan1: int, jan4Index: int,
                        ordinalYear: int, ordinalJan1: int, k: int)
    requires 365 * (year - 1970) + LeapCount(year - 1) - 477 == jan1
    requires (jan1 + 3 - EPOCH_DIFFERENCE + 3) % 7 == jan4Index
    requires 365 * (ordinalYear - 1970) + LeapCount(ordinalYear - 1) - 477 == ordinalJan1
    requires jan1 + 3 - (if jan4Index == 0 then 6 else jan4Index - 1) + 7 * (week - 1)
             + DaysFromMondayAsOne(weekday) - 1 == ordinalJan1 + k - 1
    ensures WeekDateDay(year, week, weekday) == JanFirst(ordinalYear) + k - 1
  {
    JanFirstClosedForm(year);
    JanFirstClosedForm(ordinalYear);
  }

  /**
   * `Date::_new_with_prefilled_values`: the fields as given. The code trusts
   * its caller; here the caller must pass a valid triple with its own day
   * of the year and weekday. The result is then the date `Ymd` builds for
   * that triple, unless the triple is a 29 February, which `Ymd` never
   * returns.
   */
  function NewWithPrefilledValues(year: int, month: Month, day: i8, weekday: Weekday, yearday: i16): (d: Date)
    requires ValidYmd(YMD(year, month, day))
    requires yearday == MonthStart(month, IsLeapYear(year)) + day
    requires weekday == DaysToWeekday(DayNumber(YMD(year, month, day)) - EPOCH_DIFFERENCE)
    ensures d.ymd == YMD(year, month, day)
    ensures !(month == February && day == 29) ==> DecodesTo(DayNumber(YMD(year, month, day)) - EPOCH_DIFFERENCE, d)
  {
    DayNumberInYear(YMD(year, month, day));
    Date(YMD(year, month, day), yearday, weekday)
  }

  /** `PartialEq for Date`: two dates are equal when their triples are; day of the year and weekday are ignored. */
  predicate DateEq(a: Date, b: Date)
  {
    a.ymd == b.ymd
  }

  /** `Ord for Date`: the triples' derived order, by year, then month, then day. */
  function DateCmp(a: Date, b: Date): Ordering
  {
    YmdCmp(a.ymd, b.ymd)
  }

  /** The day count of a decoded date's triple: the decoded count, one more for a shifted leap day. */
  lemma DecodedDayNumber(days: int, d: Date)
    requires DecodesTo(days, d)
    ensures DayNumber(d.ymd) == days + EPOCH_DIFFERENCE + (if LeapDayShifted(days, d.ymd) then 1 else 0)
  {
    if LeapDayShifted(days, d.ymd) {
      DayNumberInYear(d.ymd);
      DayNumberInYear(YMD(d.ymd.year, February, 29));
    }
  }

  /**
   * Decoded dates are ordered as their day counts: a date that compares
   * less came from an earlier count and one that compares greater from a
   * later one. Equal dates came from the same count, or from a leap day and
   * the day after it.
   */
  lemma DateOrderFollowsDayCount(da: int, db: int, a: Date, b: Date)
    requires DecodesTo(da, a) && DecodesTo(db, b)
    ensures DateCmp(a, b) == Less ==> da < db
    ensures DateCmp(a, b) == Greater ==> da > db
    ensures DateEq(a, b) <==>
      da == db || (db == da + 1 && LeapDayShifted(da, a.ymd)) || (da == db + 1 && LeapDayShifted(db, b.ymd))
  {
    DecodedDayNumber(da, a);
    DecodedDayNumber(db, b);
    YmdCmpIsChronological(a.ymd, b.ymd);
    if da == db {
      DecodesToUnique(da, a, b);
    }
    if db == da + 1 && LeapDayShifted(da, a.ymd) && !LeapDayShifted(db, b.ymd) {
      DayNumberInjective(a.ymd, b.ymd);
    }
    if da == db + 1 && LeapDayShifted(db, b.ymd) && !LeapDayShifted(da, a.ymd) {
      DayNumberInjective(a.ymd, b.ymd);
    }
    if db == da + 1 && LeapDayShifted(da, a.ymd) && LeapDayShifted(db, b.ymd) {
      LeapDaysApart(a.ymd.year, b.ymd.year);
    }
    if da == db + 1 && LeapDayShifted(db, b.ymd) && LeapDayShifted(da, a.ymd) {
      LeapDaysApart(b.ymd.year, a.ymd.year);
    }
  }

  /** Two leap days are never on consecutive days. */
  lemma LeapDaysApart(y: int, z: int)
    requires IsLeapYear(y) && IsLeapYear(z)
    ensures DayNumber(YMD(z, February, 29)) != DayNumber(YMD(y, February, 29)) + 1
  {
    var feb29 := YMD(y, February, 29);
    NextDayStep(feb29);
    assert NextDay(feb29) == YMD(y, March, 1);
    if DayNumber(YMD(z, February, 29)) == DayNumber(feb29) + 1 {
      DayNumberInjective(YMD(z, February, 29), YMD(y, March, 1));
    }
  }

  /**
   * `Date::ymd(y, February, 29)` and `Date::ymd(y, March, 1)` compare equal,
   * yet the first keeps day of the year 60 and the weekday of 29 February
   * while the second has 61 and the next weekday.
   */
  lemma LeapDayEqualsMarchFirst(y: int, a: Date, b: Date)
    requires IsLeapYear(y)
    requires DecodesTo(DayNumber(YMD(y, February, 29)) - EPOCH_DIFFERENCE, a)
    requires DecodesTo(DayNumber(YMD(y, March, 1)) - EPOCH_DIFFERENCE, b)
    ensures DateEq(a, b) && DateCmp(a, b) == Equal
    ensures a.yearday == 60 && b.yearday == 61
    ensures a.weekday != b.weekday
  {
    LeapDayNeighbour(y);
    DecodedLeapDay(y, a);
    DecodedMarchFirst(y, b);
    WeekdayNext(JanFirst(y) + 59 - EPOCH_DIFFERENCE);
  }

  /** What `Ymd` returns for 29 February of a leap year: 1 March, day 60, and the weekday of 29 February. */
  lemma DecodedLeapDay(y: int, a: Date)
    requires IsLeapYear(y)
    requires DecodesTo(DayNumber(YMD(y, February, 29)) - EPOCH_DIFFERENCE, a)
    ensures a.ymd == YMD(y, March, 1) && a.yearday == 60
    ensures a.weekday == DaysToWeekday(JanFirst(y) + 59 - EPOCH_DIFFERENCE)
  {
    LeapDayNeighbour(y);
    DecodesToTriple(YMD(y, February, 29), a);
  }

  /** What `Ymd` returns for 1 March of a leap year: 1 March, day 61, and the weekday of the day after 29 February. */
  lemma DecodedMarchFirst(y: int, b: Date)
    requires IsLeapYear(y)
    requires DecodesTo(DayNumber(YMD(y, March, 1)) - EPOCH_DIFFERENCE, b)
    ensures b.ymd == YMD(y, March, 1) && b.yearday == 61
    ensures b.weekday == DaysToWeekday(JanFirst(y) + 60 - EPOCH_DIFFERENCE)
  {
    LeapDayNeighbour(y);
    DecodesToTriple(YMD(y, March, 1), b);
  }

  /** In a leap year 29 February is day 60 of the year and 1 March follows it. */
  lemma LeapDayNeighbour(y: int)
    requires IsLeapYear(y)
    ensures ValidYmd(YMD(y, February, 29)) && ValidYmd(YMD(y, March, 1))
    ensures DayNumber(YMD(y, February, 29)) == JanFirst(y) + 59
    ensures DayNumber(YMD(y, March, 1)) == DayNumber(YMD(y, February, 29)) + 1
  {
    var feb29 := YMD(y, February, 29);
    NextDayStep(feb29);
    assert NextDay(feb29) == YMD(y, March, 1);
    DayNumberInYear(feb29);
  }

  /**
   * Re-encoding a decoded date's triple and decoding again gives an equal
   * date (the test at the end of the module); unless the date is a shifted
   * leap day, it gives the very same date, day of the year and weekday
   * included.
   */
  lemma ReencodeDecode(days: int, d: Date, e: Date)
    requires DecodesTo(days, d)
    requires DecodesTo(ToDaysSinceEpoch(d.ymd).Unwrap() - EPOCH_DIFFERENCE, e)
    ensures DateEq(d, e)
    ensures !LeapDayShifted(days, d.ymd) ==> e == d
  {
    DecodesToTriple(d.ymd, e);
    DecodedDayNumber(days, d);
    if !LeapDayShifted(days, d.ymd) {
      DecodesToUnique(days, d, e);
    }
  }
}
