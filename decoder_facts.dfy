/**
 * What the decoder computes: for every day count, a valid triple that is
 * never 29 February, naming that very day except on a leap day, which comes
 * out as the following 1 March; the day of the year and the weekday are
 * always those of the day count.
 */
module DecoderFacts {
  import opened Arith
  import opened Results
  import opened Units
  import opened Cycles
  import opened Calendar
  import opened Decoder

  /**
   * Leap years up to the start of a slot of the 400-year cycle: with
   * `c` whole 400-year cycles, `h` centuries, `k` four-year blocks and `yy`
   * years after 2000, and whether that year is a leap year (the condition
   * the decoder tests on its cycle counts).
   */
  lemma LeapCountOfCycles(c: int, h: int, k: int, yy: int)
    requires 0 <= h <= 3 && 0 <= k <= 24 && 0 <= yy <= 3
    ensures LeapCount(2000 + 400 * c + 100 * h + 4 * k + yy) == 485 + 97 * c + 24 * h + k
    ensures IsLeapYear(2000 + 400 * c + 100 * h + 4 * k + yy) <==> yy == 0 && (k != 0 || h == 0)
  {
    var n := 2000 + 400 * c + 100 * h + 4 * k + yy;
    DivUnique(n, 4, 500 + 100 * c + 25 * h + k, yy);
    DivUnique(n, 100, 20 + 4 * c + h, 4 * k + yy);
    DivUnique(n, 400, 5 + c, 100 * h + 4 * k + yy);
  }

  /** The day count of 1 March in a slot of the 400-year cycle is the sum of the slot's cycle lengths. */
  lemma MarchFirstOfCycles(c: int, h: int, k: int, yy: int)
    requires 0 <= h <= 3 && 0 <= k <= 24 && 0 <= yy <= 3
    ensures DayNumber(YMD(2000 + 400 * c + 100 * h + 4 * k + yy, March, 1))
         == EPOCH_DIFFERENCE + 146097 * c + 36524 * h + 1461 * k + 365 * yy
    ensures IsLeapYear(2000 + 400 * c + 100 * h + 4 * k + yy) <==> yy == 0 && (k != 0 || h == 0)
  {
    var y := 2000 + 400 * c + 100 * h + 4 * k + yy;
    LeapCountOfCycles(c, h, k, yy);
    LeapCountStep(y);
  }

  /**
   * The month scan on a March-based day offset below 365: the month found
   * and the day of the month, read back through the month tables, give
   * the offset again; January and February (offsets from 306 on) are the
   * months the code moves into the next year.
   */
  lemma ScanTriangleMeaning(remainder: int)
    requires 0 <= remainder < 365
    ensures var scan := ScanTriangle(remainder);
      var month := scan.0 + 2;
      var month' := if month >= 12 then month - 12 else month;
      && (month >= 12 <==> remainder >= 306)
      && 0 <= month' < 12
      && 0 <= scan.1 < DaysInMonth(MonthFromZero(month').Unwrap(), false)
      && remainder == scan.1 + (if month >= 12 then 306 + DaysBeforeStart(MonthFromZero(month').Unwrap())
                                else DaysBeforeStart(MonthFromZero(month').Unwrap()) - 59)
  {
    var found := FindAtMost(TIME_TRIANGLE, remainder, 0);
    if found.Some? {
      var i := found.value;
      assert i == 0 || i == 1 || i == 2 || i == 3 || i == 4 || i == 5 || i == 6 || i == 7 || i == 8 || i == 9 || i == 10;
    } else {
      assert TIME_TRIANGLE[10] > remainder;
    }
  }

  /** A day count whose year slot is a whole year of a 4-year block and of its century. */
  predicate RegularSlot(s: YearCycles)
  {
    s.c100 < 4 && s.years < 4
  }

  /** The year a regular slot starts in: 1 March of it is day 0 of the slot. */
  function SlotYear(s: YearCycles): int
  {
    2000 + 400 * s.c400 + 100 * s.c100 + 4 * s.c4 + s.years
  }

  /** A slot offset from 306 on falls in January or February of the year after the slot year. */
  lemma DecodeJanFeb(s: YearCycles, m: int)
    requires 0 <= s.c100 <= 3 && 0 <= s.c4 <= 24 && 0 <= s.years <= 3 && 306 <= s.remainder < 365
    requires m == DayNumber(YMD(SlotYear(s), March, 1))
    ensures ValidYmd(DecodedYmd(s))
    ensures DecodedYmd(s).month == January || DecodedYmd(s).month == February
    ensures DecodedYmd(s).month == February ==> DecodedYmd(s).day <= 28
    ensures DayNumber(DecodedYmd(s)) == m + s.remainder
    ensures DecodedYmd(s).year == SlotYear(s) + 1
    ensures DayNumber(DecodedYmd(s)) - JanFirst(DecodedYmd(s).year) == s.remainder - 306
  {
    var y0 := SlotYear(s);
    var scan := ScanTriangle(s.remainder);
    ScanTriangleMeaning(s.remainder);
    var month := MonthFromZero(scan.0 + 2 - 12).Unwrap();
    var x := YMD(y0 + 1, month, scan.1 + 1);
    assert DecodedYmd(s) == x;
    MarchFirstOfCycles(s.c400, s.c100, s.c4, s.years);
    DayNumberInYear(YMD(y0, March, 1));
    JanFirstStep(y0);
    DayNumberInYear(x);
  }

  /** A slot offset below 306 falls in March to December of the slot year. */
  lemma DecodeMarDec(s: YearCycles, m: int)
    requires 0 <= s.c100 <= 3 && 0 <= s.c4 <= 24 && 0 <= s.years <= 3 && 0 <= s.remainder < 306
    requires m == DayNumber(YMD(SlotYear(s), March, 1))
    ensures ValidYmd(DecodedYmd(s))
    ensures MonthIndex(DecodedYmd(s).month) >= 2
    ensures DayNumber(DecodedYmd(s)) == m + s.remainder
    ensures DecodedYmd(s).year == SlotYear(s)
    ensures DayNumber(DecodedYmd(s)) - JanFirst(DecodedYmd(s).year) == s.remainder + DaysThisYear(s) - 306
  {
    var y0 := SlotYear(s);
    var scan := ScanTriangle(s.remainder);
    ScanTriangleMeaning(s.remainder);
    var month := MonthFromZero(scan.0 + 2).Unwrap();
    var x := YMD(y0, month, scan.1 + 1);
    assert DecodedYmd(s) == x;
    MarchFirstOfCycles(s.c400, s.c100, s.c4, s.years);
    DayNumberInYear(YMD(y0, March, 1));
    DayNumberInYear(x);
  }

  /** Decoding outside the two leap-day edges: the exact day. */
  lemma DecodeRegular(days: int)
    requires RegularSlot(SplitDays(days))
    ensures ValidYmd(DecodeDays(days).ymd)
    ensures !(DecodeDays(days).ymd.month == February && DecodeDays(days).ymd.day == 29)
    ensures DayNumber(DecodeDays(days).ymd) == days + EPOCH_DIFFERENCE
    ensures DecodeDays(days).yearday == days + EPOCH_DIFFERENCE - JanFirst(DecodeDays(days).ymd.year) + 1
    ensures 1 <= DecodeDays(days).yearday <= DaysInYear(DecodeDays(days).ymd.year)
  {
    var s := SplitDays(days);
    var m := DayNumber(YMD(SlotYear(s), March, 1));
    MarchFirstOfCycles(s.c400, s.c100, s.c4, s.years);
    assert m == days + EPOCH_DIFFERENCE - s.remainder;
    if s.remainder >= 306 {
      DecodeJanFeb(s, m);
      assert DayOfYear(s) == s.remainder - 306;
    } else {
      DecodeMarDec(s, m);
      assert DayOfYear(s) == s.remainder + DaysThisYear(s) - 306;
    }
  }

  /** Decoding the last day of a 4-year block or of a 400-year block, a 29 February: 1 March instead. */
  lemma DecodeBlockEnd(days: int)
    requires !RegularSlot(SplitDays(days))
    ensures ValidYmd(DecodeDays(days).ymd)
    ensures LeapDayShifted(days, DecodeDays(days).ymd)
    ensures DecodeDays(days).yearday == 60
    ensures DecodeDays(days).yearday == days + EPOCH_DIFFERENCE - JanFirst(DecodeDays(days).ymd.year) + 1
  {
    var s := SplitDays(days);
    var y := 2000 + s.years + 4 * s.c4 + 100 * s.c100 + 400 * s.c400;
    BlockEndYmd(s);
    if s.c100 == 4 {
      MarchFirstOfCycles(s.c400 + 1, 0, 0, 0);
    } else {
      MarchFirstOfCycles(s.c400, s.c100, s.c4 + 1, 0);
    }
    DayNumberInYear(YMD(y, March, 1));
    DayNumberInYear(YMD(y, February, 29));
  }

  /** A slot with no days left over after the years decodes to 1 March of the year the cycles reach. */
  lemma BlockEndYmd(s: YearCycles)
    requires s.remainder == 0
    ensures DecodedYmd(s) == YMD(2000 + s.years + 4 * s.c4 + 100 * s.c100 + 400 * s.c400, March, 1)
  {
    assert FindAtMost(TIME_TRIANGLE, 0, 0) == None;
  }

  /**
   * The decoder's answer for any day count since 1 March 2000: a valid
   * triple, never 29 February, naming that day (or, for a leap day, the
   * 1 March after it), with the day of the year counted from 1 January of
   * the year it reports, and the weekday of the day count.
   */
  lemma DecodeDaysMeaning(days: int)
    ensures DecodesTo(days, DecodeDays(days))
  {
    if RegularSlot(SplitDays(days)) {
      DecodeRegular(days);
    } else {
      DecodeBlockEnd(days);
    }
  }

  /**
   * Encoding a valid triple and decoding the count gives the triple back,
   * except 29 February, which comes back as 1 March of the same year; the
   * day of the year and the weekday are those of the triple in both cases.
   */
  lemma YmdRoundTrip(x: YMD)
    requires ValidYmd(x)
    ensures !(x.month == February && x.day == 29) ==> DecodeDays(DayNumber(x) - EPOCH_DIFFERENCE).ymd == x
    ensures x.month == February && x.day == 29 ==> DecodeDays(DayNumber(x) - EPOCH_DIFFERENCE).ymd == YMD(x.year, March, 1)
    ensures DecodeDays(DayNumber(x) - EPOCH_DIFFERENCE).yearday == DayNumber(x) - JanFirst(x.year) + 1
    ensures DecodeDays(DayNumber(x) - EPOCH_DIFFERENCE).weekday == DaysToWeekday(DayNumber(x) - EPOCH_DIFFERENCE)
  {
    DecodeDaysMeaning(DayNumber(x) - EPOCH_DIFFERENCE);
    DecodesToTriple(x, DecodeDays(DayNumber(x) - EPOCH_DIFFERENCE));
  }

  /**
   * A leap day `x` decodes to 1 March of its year while keeping its own day
   * of the year, 60. The day after it decodes to the same triple, with day
   * of the year 61 and a different weekday: two consecutive day counts
   * share a triple.
   */
  lemma LeapDayCollides(x: YMD)
    requires ValidYmd(x) && x.month == February && x.day == 29
    ensures DecodeDays(DayNumber(x) - EPOCH_DIFFERENCE).ymd == YMD(x.year, March, 1)
    ensures DecodeDays(DayNumber(x) - EPOCH_DIFFERENCE).yearday == 60
    ensures DecodeDays(DayNumber(x) - EPOCH_DIFFERENCE + 1).ymd == YMD(x.year, March, 1)
    ensures DecodeDays(DayNumber(x) - EPOCH_DIFFERENCE + 1).yearday == 61
    ensures DecodeDays(DayNumber(x) - EPOCH_DIFFERENCE + 1).weekday != DecodeDays(DayNumber(x) - EPOCH_DIFFERENCE).weekday
  {
    var days := DayNumber(x) - EPOCH_DIFFERENCE;
    var next := NextDay(x);
    NextDayStep(x);
    assert next == YMD(x.year, March, 1);
    DayNumberInYear(x);
    YmdRoundTrip(x);
    YmdRoundTrip(next);
    WeekdayNext(days);
  }
}
