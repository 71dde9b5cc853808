/**
 * `Date::from_days_since_epoch`: from a day count since 1 March 2000 to a
 * year, month, day, day of the year and weekday.
 *
 * `DecodeDays` is the decoder as an expression, the reference that
 * `DecoderFacts` proves correct; `Dates.FromDaysSinceEpoch` is the same
 * computation step by step, with the linear scan of `TIME_TRIANGLE`,
 * proved to agree with it.
 *
 * As in the code, the 100-year count and the year count within a 4-year
 * block are not capped at 3. The last day of a 4-year block and the last
 * day of a 400-year block, both a 29 February, therefore come out as
 * 1 March of the same year; the day of the year and the weekday still are
 * those of 29 February.
 *
 * The postconditions give the cycle lengths by value, 146097
 * (`DAYS_IN_400Y`), 36524 (`DAYS_IN_100Y`) and 1461 (`DAYS_IN_4Y`), as
 * `Cycles.CycleLengths` confirms; that keeps the arithmetic linear for the
 * verifier.
 */
module Decoder {
  import opened Arith
  import opened Results
  import opened Units
  import opened Cycles
  import opened Calendar

  /**
   * Days elapsed from 1 March to the end of each month, ending with
   * January and going back to March (February is left out). Entry `i` is
   * the offset from 1 March of the first day of month `(13 - i) % 12`.
   */
  const TIME_TRIANGLE: seq<int> := [
    31 + 30 + 31 + 30 + 31 + 31 + 30 + 31 + 30 + 31 + 31,
    31 + 30 + 31 + 30 + 31 + 31 + 30 + 31 + 30 + 31,
    31 + 30 + 31 + 30 + 31 + 31 + 30 + 31 + 30,
    31 + 30 + 31 + 30 + 31 + 31 + 30 + 31,
    31 + 30 + 31 + 30 + 31 + 31 + 30,
    31 + 30 + 31 + 30 + 31 + 31,
    31 + 30 + 31 + 30 + 31,
    31 + 30 + 31 + 30,
    31 + 30 + 31,
    31 + 30,
    31]

  /** The first position at or after `from` whose entry is at most `bound` (`iter().enumerate().find(..)`). */
  function FindAtMost(table: seq<int>, bound: int, from: nat): (r: Option<nat>)
    requires from <= |table|
    ensures r.Some? ==> from <= r.value < |table| && table[r.value] <= bound
    ensures forall j :: from <= j < (if r.Some? then r.value else |table|) ==> table[j] > bound
    decreases |table| - from
  {
    if from == |table| then None
    else if table[from] <= bound then Some(from)
    else FindAtMost(table, bound, from + 1)
  }

  /** The counts of 400-, 100-, 4- and 1-year spans in a day count, and the days left over. */
  datatype YearCycles = YearCycles(c400: int, c100: int, c4: int, years: int, remainder: int)

  /**
   * The cycle decomposition: a floor split by 400 years, then plain
   * divisions of what is left (never negative, so Rust's truncating `/`
   * agrees). Neither the 100-year count nor the year count is capped at
   * 3, which the last two postconditions make visible.
   */
  function SplitDays(days: int): (s: YearCycles)
    ensures days == s.c400 * 146097 + s.c100 * 36524 + s.c4 * 1461 + s.years * 365 + s.remainder
    ensures 0 <= s.c100 <= 4 && 0 <= s.c4 <= 24 && 0 <= s.years <= 4 && 0 <= s.remainder < 365
    ensures s.c100 == 4 ==> s.c4 == 0 && s.years == 0 && s.remainder == 0
    ensures s.years == 4 ==> s.remainder == 0 && s.c100 < 4 && s.c4 < 24
  {
    var split := FloorSplit(days, DAYS_IN_400Y);
    var c100 := split.1 / DAYS_IN_100Y;
    var r100 := split.1 - c100 * DAYS_IN_100Y;
    var c4 := r100 / DAYS_IN_4Y;
    var r4 := r100 - c4 * DAYS_IN_4Y;
    var years := r4 / 365;
    YearCycles(split.0, c100, c4, years, r4 - years * 365)
  }

  /**
   * The month scan: the March-based month number (before the `+ 2`) and
   * the day of the month counted from 0.
   */
  function ScanTriangle(remainder: int): (r: (int, int))
    ensures 0 <= r.0 <= 11
  {
    match FindAtMost(TIME_TRIANGLE, remainder, 0)
    case Some(index) => (11 - index, remainder - TIME_TRIANGLE[index])
    case None => (0, remainder)
  }

  /** Days in the year the slot of `s` starts in, as the code decides it from the cycle counts. */
  function DaysThisYear(s: YearCycles): int
  {
    if s.years == 0 && !(s.c4 == 0 && s.c100 != 0) then 366 else 365
  }

  /** The zero-based day of the year (lines 297-303): March-based offset re-based on 1 January. */
  function DayOfYear(s: YearCycles): int
  {
    var daysThisYear := DaysThisYear(s);
    var dayOfYear := s.remainder + daysThisYear - 306;
    if dayOfYear >= daysThisYear then dayOfYear - daysThisYear else dayOfYear
  }

  /** The year, month and day (lines 305-346): the month scan, then the shift from March-based months. */
  function DecodedYmd(s: YearCycles): YMD
  {
    var years := s.years + 4 * s.c4 + 100 * s.c100 + 400 * s.c400;
    var scan := ScanTriangle(s.remainder);
    var month := scan.0 + 2;
    var year := if month >= 12 then years + 1 else years;
    var month' := if month >= 12 then month - 12 else month;
    YMD(year + 2000, MonthFromZero(AsI8(month')).Unwrap(), AsI8(scan.1 + 1))
  }

  /** `Date::from_days_since_epoch` as an expression. */
  function DecodeDays(days: int): (date: Date)
  {
    var s := SplitDays(days);
    Date(DecodedYmd(s), AsI16(DayOfYear(s) + 1), DaysToWeekday(days))
  }
}
