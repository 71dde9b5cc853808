/**
 * The unit types the calendar code relies on: months, weekdays and the
 * Gregorian leap-year rule. Only their interfaces are used by the core, so
 * they are defined here by the tables and rules of the proleptic Gregorian
 * calendar.
 */
module Units {
  import opened Arith
  import opened Results

  /** The twelve months, declared in calendar order (so the derived ordering is the calendar's). */
  datatype Month =
    | January | February | March | April | May | June
    | July | August | September | October | November | December

  /** Zero-based position of a month: January is 0. */
  function MonthIndex(m: Month): (i: nat)
    ensures i < 12
  {
    match m
    case January => 0   case February => 1  case March => 2
    case April => 3     case May => 4       case June => 5
    case July => 6      case August => 7    case September => 8
    case October => 9   case November => 10 case December => 11
  }

  /** `Month::from_zero`: the month at a zero-based position, if there is one. */
  function MonthFromZero(i: i8): (r: Option<Month>)
    ensures r.Some? <==> 0 <= i < 12
    ensures r.Some? ==> MonthIndex(r.value) == i
  {
    match i
    case 0 => Some(January)   case 1 => Some(February) case 2 => Some(March)
    case 3 => Some(April)     case 4 => Some(May)      case 5 => Some(June)
    case 6 => Some(July)      case 7 => Some(August)   case 8 => Some(September)
    case 9 => Some(October)   case 10 => Some(November) case 11 => Some(December)
    case _ => None
  }

  /** `Month::days_in_month`: the length of a month in a leap or a common year. */
  function DaysInMonth(m: Month, isLeap: bool): (n: i8)
    ensures 28 <= n <= 31
    ensures m == February ==> (n == 29 <==> isLeap)
  {
    match m
    case February => if isLeap then 29 else 28
    case April => 30 case June => 30 case September => 30 case November => 30
    case _ => 31
  }

  /** `Month::days_before_start`: days in the months before `m` in a common year. */
  function DaysBeforeStart(m: Month): i16
  {
    match m
    case January => 0     case February => 31   case March => 59
    case April => 90      case May => 120       case June => 151
    case July => 181      case August => 212    case September => 243
    case October => 273   case November => 304  case December => 334
  }

  /** The month after `m` starts where `m` ends, in a common year. */
  lemma DaysBeforeStartStep(m: Month)
    ensures MonthIndex(m) < 11 ==>
      exists n: Month :: MonthIndex(n) == MonthIndex(m) + 1 && DaysBeforeStart(n) == DaysBeforeStart(m) + DaysInMonth(m, false)
  {
    match m
    case January => assert MonthIndex(February) == 1;
    case February => assert MonthIndex(March) == 2;
    case March => assert MonthIndex(April) == 3;
    case April => assert MonthIndex(May) == 4;
    case May => assert MonthIndex(June) == 5;
    case June => assert MonthIndex(July) == 6;
    case July => assert MonthIndex(August) == 7;
    case August => assert MonthIndex(September) == 8;
    case September => assert MonthIndex(October) == 9;
    case October => assert MonthIndex(November) == 10;
    case November => assert MonthIndex(December) == 11;
    case December =>
  }

  /** The seven weekdays. */
  datatype Weekday = Monday | Tuesday | Wednesday | Thursday | Friday | Saturday | Sunday

  /** The position `Weekday::from_zero` gives each weekday: Sunday is 0, Saturday is 6. */
  function WeekdayIndex(w: Weekday): (i: nat)
    ensures i < 7
  {
    match w
    case Sunday => 0 case Monday => 1 case Tuesday => 2 case Wednesday => 3
    case Thursday => 4 case Friday => 5 case Saturday => 6
  }

  /** `Weekday::from_zero`: the weekday at a Sunday-based position, if there is one. */
  function WeekdayFromZero(i: i8): (r: Option<Weekday>)
    ensures r.Some? <==> 0 <= i < 7
    ensures r.Some? ==> WeekdayIndex(r.value) == i
  {
    match i
    case 0 => Some(Sunday) case 1 => Some(Monday) case 2 => Some(Tuesday)
    case 3 => Some(Wednesday) case 4 => Some(Thursday) case 5 => Some(Friday)
    case 6 => Some(Saturday) case _ => None
  }

  /** `Weekday::days_from_monday_as_one`: Monday is 1, Sunday is 7 (the ISO 8601 numbering). */
  function DaysFromMondayAsOne(w: Weekday): (n: i8)
    ensures 1 <= n <= 7
    ensures n % 7 == WeekdayIndex(w)
  {
    match w
    case Monday => 1 case Tuesday => 2 case Wednesday => 3 case Thursday => 4
    case Friday => 5 case Saturday => 6 case Sunday => 7
  }

  /** The Gregorian rule: divisible by 4, and not by 100 unless by 400 (proleptic, so also for year 0 and before). */
  predicate IsLeapYear(y: int)
  {
    y % 4 == 0 && (y % 100 != 0 || y % 400 == 0)
  }

  /** Number of days in year `y`. */
  function DaysInYear(y: int): (n: int)
  {
    if IsLeapYear(y) then 366 else 365
  }

  /**
   * Leap years in the years 1 .. n when n >= 0; minus the leap years in
   * n+1 .. 0 when n < 0. So `LeapCount(b) - LeapCount(a)` counts the leap
   * years in a+1 .. b.
   */
  function LeapCount(n: int): int
  {
    n / 4 - n / 100 + n / 400
  }

  /**
   * `Year::leap_year_calculations`: the number of leap days the day count
   * of 1 January of `y` needs on top of 365 per year since 2000 (which is
   * one less than the leap years from 2000 up to `y`, because the constant
   * it is added to counts one day too many), and whether `y` is a leap year.
   */
  function LeapYearCalculations(y: int): (r: (int, bool))
    ensures r.1 == IsLeapYear(y)
    ensures y == 2000 ==> r.0 == -1
  {
    (LeapCount(y - 1) - 485, IsLeapYear(y))
  }

  /** Reference definition: how many years in lo .. hi-1 are leap years. */
  function LeapYearsBetween(lo: int, hi: int): nat
    requires lo <= hi
    decreases hi - lo
  {
    if lo == hi then 0
    else LeapYearsBetween(lo, hi - 1) + (if IsLeapYear(hi - 1) then 1 else 0)
  }

  /** Each year adds one to the leap count exactly when it is a leap year. */
  lemma LeapCountStep(n: int)
    ensures LeapCount(n) == LeapCount(n - 1) + (if IsLeapYear(n) then 1 else 0)
  {
    QuotientSteps(n);
    assert n % 400 == 0 ==> n % 100 == 0;
    assert n % 100 == 0 ==> n % 4 == 0;
  }

  /** Stepping the year by one steps each floor quotient of `LeapCount` exactly at multiples of its divisor. */
  lemma QuotientSteps(n: int)
    ensures n / 4 - (n - 1) / 4 == (if n % 4 == 0 then 1 else 0)
    ensures n / 100 - (n - 1) / 100 == (if n % 100 == 0 then 1 else 0)
    ensures n / 400 - (n - 1) / 400 == (if n % 400 == 0 then 1 else 0)
  {
  }

  /** The leap-day count of `LeapYearCalculations` grows by one after each leap year. */
  lemma LeapDaysElapsedStep(y: int)
    ensures LeapYearCalculations(y + 1).0 == LeapYearCalculations(y).0 + (if IsLeapYear(y) then 1 else 0)
  {
    LeapCountStep(y);
  }

  /**
   * The leap-day count of `LeapYearCalculations` is the number of leap years
   * from 2000 up to (not including) `y`, less one; before 2000 it is minus the
   * number of leap years from `y` up to 1999, less one.
   */
  lemma {:induction false} LeapDaysElapsedCounts(y: int)
    ensures y >= 2000 ==> LeapYearCalculations(y).0 == LeapYearsBetween(2000, y) - 1
    ensures y < 2000 ==> LeapYearCalculations(y).0 == -(LeapYearsBetween(y, 2000) as int) - 1
    decreases if y >= 2000 then y - 2000 else 2000 - y
  {
    if y > 2000 {
      LeapDaysElapsedCounts(y - 1);
      LeapDaysElapsedStep(y - 1);
    } else if y < 2000 {
      LeapDaysElapsedCounts(y + 1);
      LeapDaysElapsedStep(y);
      LeapYearsBetweenFirst(y, 2000);
    }
  }

  /** Peeling the first year off a `LeapYearsBetween` range. */
  lemma {:induction false} LeapYearsBetweenFirst(lo: int, hi: int)
    requires lo < hi
    ensures LeapYearsBetween(lo, hi) == (if IsLeapYear(lo) then 1 else 0) + LeapYearsBetween(lo + 1, hi)
    decreases hi - lo
  {
    if lo + 1 < hi {
      LeapYearsBetweenFirst(lo, hi - 1);
    }
  }
}
