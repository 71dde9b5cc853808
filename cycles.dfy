/**
 * The constants of the calendar arithmetic, cycle splitting (floor division
 * with a non-negative remainder) and the weekday of a day count.
 *
 * Day counts in this module are "days since the anchor": day 0 is
 * 1 March 2000, the day after a leap day at the start of a 400-year
 * Gregorian cycle.
 */
module Cycles {
  import opened Arith
  import opened Results
  import opened Units

  /** Days guaranteed to be in four years. */
  const DAYS_IN_4Y: int := 365 * 4 + 1

  /** Days guaranteed to be in a hundred years. */
  const DAYS_IN_100Y: int := 365 * 100 + 24

  /** Days guaranteed to be in four hundred years. */
  const DAYS_IN_400Y: int := 365 * 400 + 97

  /** Seconds in a day; leap seconds are ignored. */
  const SECONDS_IN_DAY: int := 86400

  /** Days from 1 January 1970 to 1 March 2000: 30 years, 7 leap days, and January and February 2000. */
  const EPOCH_DIFFERENCE: int := 30 * 365 + 7 + 31 + 29

  /**
   * The cycle lengths nest: four centuries and one leap day make 400 years,
   * and a century is 25 four-year blocks less the leap day its last year
   * does not have.
   */
  lemma CycleLengths()
    ensures DAYS_IN_400Y == 4 * DAYS_IN_100Y + 1
    ensures DAYS_IN_100Y == 25 * DAYS_IN_4Y - 1
    ensures DAYS_IN_4Y == 4 * 365 + 1
    ensures EPOCH_DIFFERENCE == 11017
  {
  }

  /**
   * Specification of `split_cycles` for a positive cycle length: the floor
   * quotient and the remainder, which is never negative.
   */
  function FloorSplit(n: int, len: int): (r: (int, int))
    requires 0 < len
    ensures r.0 * len + r.1 == n
    ensures 0 <= r.1 < len
  {
    (n / len, n % len)
  }

  /**
   * `split_cycles`: divide with Rust's truncating `/` and `%`, then move a
   * negative remainder up by one cycle. The result is floor division.
   */
  method SplitCycles(numberOfPeriods: int, cycleLength: int) returns (cycles: int, remainder: int)
    requires 0 < cycleLength
    ensures cycles * cycleLength + remainder == numberOfPeriods
    ensures 0 <= remainder < cycleLength
    ensures (cycles, remainder) == FloorSplit(numberOfPeriods, cycleLength)
  {
    cycles := TDiv(numberOfPeriods, cycleLength);
    remainder := TRem(numberOfPeriods, cycleLength);

    if remainder < 0 {
      remainder := remainder + cycleLength;
      cycles := cycles - 1;
    }

    DivUnique(numberOfPeriods, cycleLength, cycles, remainder);
  }

  /**
   * `days_to_weekday`: 1 March 2000 was a Wednesday (position 3 counting
   * from Sunday), so the weekday of a day count is its offset by 3, modulo 7,
   * brought into 0..6 when Rust's `%` leaves it negative.
   */
  function DaysToWeekday(days: int): (w: Weekday)
    ensures WeekdayIndex(w) == (days + 3) % 7
  {
    var weekday := TRem(days + 3, 7);
    WeekdayFromZero(AsI8(if weekday < 0 then weekday + 7 else weekday)).Unwrap()
  }

  /** Day 0 (1 March 2000) is a Wednesday, and the weekday repeats every seven days, backwards too. */
  lemma WeekdayPeriodic(days: int, weeks: int)
    ensures DaysToWeekday(0) == Wednesday
    ensures DaysToWeekday(days + 7 * weeks) == DaysToWeekday(days)
  {
    assert (days + 7 * weeks + 3) % 7 == (days + 3) % 7;
  }

  /** Consecutive days never share a weekday. */
  lemma WeekdayNext(days: int)
    ensures DaysToWeekday(days + 1) != DaysToWeekday(days)
  {
    assert WeekdayIndex(DaysToWeekday(days + 1)) != WeekdayIndex(DaysToWeekday(days));
  }

  /** Moving `k` days on moves the weekday position `k` places on, modulo 7. */
  lemma WeekdayShift(days: int, k: int)
    ensures WeekdayIndex(DaysToWeekday(days + k)) == (WeekdayIndex(DaysToWeekday(days)) + k) % 7
  {
    var q, r := (days + 3) / 7, (days + 3) % 7;
    DivUnique(days + k + 3, 7, q + (r + k) / 7, (r + k) % 7);
  }

  /** Weekdays with the same position are the same weekday. */
  lemma WeekdayIndexInjective(a: Weekday, b: Weekday)
    requires WeekdayIndex(a) == WeekdayIndex(b)
    ensures a == b
  {
  }

  /** Going back `DaysFromMondayAsOne(w) - 1` days from a day with weekday `w` reaches a Monday. */
  lemma MondayOfWeek(days: int)
    ensures DaysToWeekday(days - (DaysFromMondayAsOne(DaysToWeekday(days)) - 1)) == Monday
  {
    var fromMonday := DaysFromMondayAsOne(DaysToWeekday(days)) as int;
    var n := days - (fromMonday - 1);
    var q := (days + 3) / 7;
    if fromMonday == 7 {
      DivUnique(n + 3, 7, q - 1, 1);
    } else {
      DivUnique(n + 3, 7, q, 1);
    }
    WeekdayIndexInjective(DaysToWeekday(n), Monday);
  }
}
