/**
 * Local date-times: `DateTime` in `src/cal/local.rs`, a `Date` and a `Time`
 * side by side.
 *
 * `at_ms` splits a second count since 1 January 1970 into whole days
 * (floor division by the day length) and the seconds left over, and lets
 * the date decoder and the time splitter do the rest; `to_instant` joins
 * the two back. Because the date decoder turns every 29 February into
 * 1 March, a second count on a 29 February comes back one day later.
 */
module DateTimes {
  import opened Arith
  import opened Results
  import opened Units
  import opened Cycles
  import opened Calendar
  import opened Dates
  import opened Times

  /**
   * An `Instant`: seconds since 1 January 1970 and the millisecond within
   * that second. The type itself is defined elsewhere in the crate; only
   * this pair of readings is used here.
   */
  datatype Instant = Instant(seconds: int, milliseconds: i16)

  /** `Duration::of(seconds)`: a whole number of seconds. */
  datatype Duration = Duration(seconds: int)

  /** `DateTime`, and `DateTime::new` as its constructor. */
  datatype DateTime = DateTime(date: Date, time: Time)

  /**
   * What `at_ms` builds from a second count and a millisecond: the date the
   * day holding the count decodes to (days counted from 1 March 2000), and
   * the clock reading of the seconds into that day.
   */
  predicate SplitsInto(seconds: int, millisecond: i16, dt: DateTime)
  {
    && DecodesTo(seconds / SECONDS_IN_DAY - EPOCH_DIFFERENCE, dt.date)
    && IsClockSecond(dt.time)
    && ToSeconds(dt.time) == seconds % SECONDS_IN_DAY
    && dt.time.millisecond == millisecond
  }

  /** A second count and a millisecond split into one date-time at most. */
  lemma SplitsIntoUnique(seconds: int, millisecond: i16, a: DateTime, b: DateTime)
    requires SplitsInto(seconds, millisecond, a) && SplitsInto(seconds, millisecond, b)
    ensures a == b
  {
    DecodesToUnique(seconds / SECONDS_IN_DAY - EPOCH_DIFFERENCE, a.date, b.date);
    ToSecondsInjective(a.time, b.time);
  }

  /**
   * `DateTime::at_ms`: shift the count to 1 March 2000, split it into days
   * and seconds with `split_cycles`, and decode each part.
   */
  method AtMs(secondsSince1970Epoch: int, millisecondOfSecond: i16) returns (dt: DateTime)
    ensures SplitsInto(secondsSince1970Epoch, millisecondOfSecond, dt)
  {
    var seconds := secondsSince1970Epoch - EPOCH_DIFFERENCE * SECONDS_IN_DAY;
    var days, secs := SplitCycles(seconds, SECONDS_IN_DAY);
    var date := FromDaysSinceEpoch(days);
    var time := FromSecondsAndMillisecondsSinceMidnight(secs, millisecondOfSecond);
    dt := DateTime(date, time);
    DivUnique(secondsSince1970Epoch, SECONDS_IN_DAY, days + EPOCH_DIFFERENCE, secs);
  }

  /** `DateTime::at`: `at_ms` with no milliseconds. */
  method At(secondsSince1970Epoch: int) returns (dt: DateTime)
    ensures SplitsInto(secondsSince1970Epoch, 0, dt)
  {
    dt := AtMs(secondsSince1970Epoch, 0);
  }

  /** `DateTime::from_instant`: `at_ms` on the instant's seconds and milliseconds. */
  method FromInstant(instant: Instant) returns (dt: DateTime)
    ensures SplitsInto(instant.seconds, instant.milliseconds, dt)
  {
    dt := AtMs(instant.seconds, instant.milliseconds);
  }

  /**
   * `DateTime::to_instant`: the date's days since 1970 in seconds plus the
   * time's seconds, with the time's milliseconds. The code unwraps the
   * encoder's result, so the date's triple must be valid, as it is for
   * every date the checked constructors build. For a clock reading the
   * seconds split back into the date's day count and the time's seconds;
   * the end-of-day sentinel 24:00:00 is midnight of the next day.
   */
  function ToInstant(dt: DateTime): (i: Instant)
    requires ValidYmd(dt.date.ymd)
    ensures i.milliseconds == dt.time.millisecond
    ensures IsClockSecond(dt.time) ==>
      i.seconds / SECONDS_IN_DAY == DayNumber(dt.date.ymd) && i.seconds % SECONDS_IN_DAY == ToSeconds(dt.time)
    ensures IsEndOfDay(dt.time) ==>
      i.seconds / SECONDS_IN_DAY == DayNumber(dt.date.ymd) + 1 && i.seconds % SECONDS_IN_DAY == 0
  {
    DaySecondsSplit(DayNumber(dt.date.ymd), ToSeconds(dt.time));
    Instant(ToDaysSinceEpoch(dt.date.ymd).Unwrap() * SECONDS_IN_DAY + ToSeconds(dt.time), dt.time.millisecond)
  }

  /** A day count and the seconds into that day, or a whole day, split back out of their sum. */
  lemma DaySecondsSplit(day: int, seconds: int)
    ensures 0 <= seconds < SECONDS_IN_DAY ==>
      (day * SECONDS_IN_DAY + seconds) / SECONDS_IN_DAY == day && (day * SECONDS_IN_DAY + seconds) % SECONDS_IN_DAY == seconds
    ensures seconds == SECONDS_IN_DAY ==>
      (day * SECONDS_IN_DAY + seconds) / SECONDS_IN_DAY == day + 1 && (day * SECONDS_IN_DAY + seconds) % SECONDS_IN_DAY == 0
  {
    if 0 <= seconds < SECONDS_IN_DAY {
      DivUnique(day * SECONDS_IN_DAY + seconds, SECONDS_IN_DAY, day, seconds);
    } else if seconds == SECONDS_IN_DAY {
      DivUnique(day * SECONDS_IN_DAY + seconds, SECONDS_IN_DAY, day + 1, 0);
    }
  }

  /**
   * `at_ms` followed by `to_instant` gives the second count back, unless
   * its day is a 29 February: the date then says 1 March and the count
   * comes back one day later.
   */
  lemma AtMsToInstant(seconds: int, millisecond: i16, dt: DateTime)
    requires SplitsInto(seconds, millisecond, dt)
    ensures ValidYmd(dt.date.ymd)
    ensures !LeapDayShifted(seconds / SECONDS_IN_DAY - EPOCH_DIFFERENCE, dt.date.ymd) ==>
      ToInstant(dt) == Instant(seconds, millisecond)
    ensures LeapDayShifted(seconds / SECONDS_IN_DAY - EPOCH_DIFFERENCE, dt.date.ymd) ==>
      ToInstant(dt) == Instant(seconds + SECONDS_IN_DAY, millisecond)
  {
    var days := seconds / SECONDS_IN_DAY - EPOCH_DIFFERENCE;
    DecodedDayNumber(days, dt.date);
    assert seconds == (days + EPOCH_DIFFERENCE) * SECONDS_IN_DAY + seconds % SECONDS_IN_DAY;
  }

  /**
   * A date-time as the validated constructors make it: a date `Date::ymd`
   * returns (valid, not a 29 February, its own day of the year and
   * weekday) and a clock reading.
   */
  predicate IsCanonical(dt: DateTime)
  {
    && ValidYmd(dt.date.ymd)
    && DecodesTo(DayNumber(dt.date.ymd) - EPOCH_DIFFERENCE, dt.date)
    && IsClockSecond(dt.time)
  }

  /**
   * `from_instant(to_instant(dt))` is `dt` again for a canonical date-time:
   * the second count and millisecond of its instant split into `dt` alone.
   */
  lemma InstantRoundTrip(dt: DateTime, seconds: int, millisecond: i16, e: DateTime)
    requires IsCanonical(dt)
    requires ToInstant(dt) == Instant(seconds, millisecond)
    requires SplitsInto(seconds, millisecond, e)
    ensures e == dt
  {
    assert seconds / SECONDS_IN_DAY - EPOCH_DIFFERENCE == DayNumber(dt.date.ymd) - EPOCH_DIFFERENCE;
    SplitsIntoUnique(seconds, millisecond, dt, e);
  }

  /**
   * Under the crate's own `==` the round trip holds for every valid date
   * other than 29 February and every clock reading, so also for the
   * 1 March that `Date::ymd` returns for a 29 February, whose day of the
   * year and weekday are not those of 1 March.
   */
  lemma InstantRoundTripEq(dt: DateTime, e: DateTime)
    requires ValidYmd(dt.date.ymd) && !(dt.date.ymd.month == February && dt.date.ymd.day == 29)
    requires IsClockSecond(dt.time)
    requires SplitsInto(ToInstant(dt).seconds, ToInstant(dt).milliseconds, e)
    ensures DateTimeEq(e, dt)
  {
    DecodesToTriple(dt.date.ymd, e.date);
    ToSecondsInjective(e.time, dt.time);
  }

  /**
   * The sentinel 24:00:00 never comes back from the round trip: it returns
   * as midnight of the next day (1 March when that day is a 29 February).
   */
  lemma EndOfDayRoundTrip(dt: DateTime, e: DateTime)
    requires ValidYmd(dt.date.ymd) && IsEndOfDay(dt.time)
    requires SplitsInto(ToInstant(dt).seconds, ToInstant(dt).milliseconds, e)
    ensures e.time == Midnight()
    ensures e.date.ymd == FollowingDate(dt.date.ymd)
    ensures !DateTimeEq(e, dt)
  {
    EndOfDaySplit(dt.date.ymd, ToInstant(dt).seconds, e);
  }

  /** A second count that is a whole number of days past the start of `x` splits into midnight of the day after. */
  lemma EndOfDaySplit(x: YMD, seconds: int, e: DateTime)
    requires ValidYmd(x)
    requires seconds / SECONDS_IN_DAY == DayNumber(x) + 1 && seconds % SECONDS_IN_DAY == 0
    requires SplitsInto(seconds, 0, e)
    ensures e.time == Midnight()
    ensures e.date.ymd == FollowingDate(x)
  {
    NextDayDecodes(x, seconds / SECONDS_IN_DAY - EPOCH_DIFFERENCE, e.date);
    MidnightUnique(e.time);
  }

  /** The triple `ymd` returns for the day after `x`: its successor, or 1 March in place of a 29 February. */
  function FollowingDate(x: YMD): YMD
    requires ValidYmd(x)
  {
    var next := NextDay(x);
    if next.month == February && next.day == 29 then YMD(next.year, March, 1) else next
  }

  /** The day after a valid triple decodes to its successor, or to 1 March for a 29 February. */
  lemma NextDayDecodes(x: YMD, days: int, d: Date)
    requires ValidYmd(x) && days == DayNumber(x) + 1 - EPOCH_DIFFERENCE && DecodesTo(days, d)
    ensures d.ymd == FollowingDate(x)
  {
    NextDayStep(x);
    SameDayCount(days, DayNumber(NextDay(x)) - EPOCH_DIFFERENCE, d);
    DecodesToTriple(NextDay(x), d);
  }

  /**
   * `DateTime::add_seconds`: to an instant, move it on by `Duration::of`
   * the given seconds, and back. Moving an instant by a duration is taken
   * to add the duration's seconds to the instant's.
   */
  method AddSeconds(dt: DateTime, seconds: int) returns (r: DateTime)
    requires ValidYmd(dt.date.ymd)
    ensures SplitsInto(ToInstant(dt).seconds + seconds, dt.time.millisecond, r)
  {
    var instant := ToInstant(dt);
    r := FromInstant(Instant(instant.seconds + Duration(seconds).seconds, instant.milliseconds));
  }

  /** `Add<Duration> for DateTime`: the same as `add_seconds` with the duration's seconds. */
  method Add(dt: DateTime, duration: Duration) returns (r: DateTime)
    requires ValidYmd(dt.date.ymd)
    ensures SplitsInto(ToInstant(dt).seconds + duration.seconds, dt.time.millisecond, r)
  {
    var instant := ToInstant(dt);
    r := FromInstant(Instant(instant.seconds + duration.seconds, instant.milliseconds));
  }

  /** `Sub<Duration> for DateTime`: the instant moved back by the duration. */
  method Sub(dt: DateTime, duration: Duration) returns (r: DateTime)
    requires ValidYmd(dt.date.ymd)
    ensures SplitsInto(ToInstant(dt).seconds - duration.seconds, dt.time.millisecond, r)
  {
    var instant := ToInstant(dt);
    r := FromInstant(Instant(instant.seconds - duration.seconds, instant.milliseconds));
  }

  /**
   * Adding a duration and subtracting it again gives a canonical
   * date-time back, provided the sum does not land on a 29 February
   * (which would come back a day late).
   */
  lemma AddThenSub(dt: DateTime, d: Duration, sum: DateTime, back: DateTime)
    requires IsCanonical(dt)
    requires SplitsInto(ToInstant(dt).seconds + d.seconds, dt.time.millisecond, sum)
    requires !LeapDayShifted((ToInstant(dt).seconds + d.seconds) / SECONDS_IN_DAY - EPOCH_DIFFERENCE, sum.date.ymd)
    requires SplitsInto(ToInstant(sum).seconds - d.seconds, sum.time.millisecond, back)
    ensures back == dt
  {
    var moved := ToInstant(dt).seconds + d.seconds;
    AtMsToInstant(moved, dt.time.millisecond, sum);
    assert ToInstant(sum) == Instant(moved, dt.time.millisecond);
    InstantRoundTrip(dt, moved - d.seconds, sum.time.millisecond, back);
  }

  /** The derived `PartialEq for DateTime`: the dates by their triples, the times field by field. */
  predicate DateTimeEq(a: DateTime, b: DateTime)
  {
    DateEq(a.date, b.date) && a.time == b.time
  }

  /** The derived `Ord for DateTime`: the dates first, the times to break a tie. */
  function DateTimeCmp(a: DateTime, b: DateTime): Ordering
  {
    var byDate := DateCmp(a.date, b.date);
    if byDate != Equal then byDate else TimeCmp(a.time, b.time)
  }

  /** Milliseconds since 1 January 1970. */
  function InstantMilliseconds(i: Instant): int
  {
    i.seconds * 1000 + i.milliseconds as int
  }

  /**
   * For valid dates and clock readings the derived order is the order of
   * the instants, and equality is equality of the instants.
   */
  lemma DateTimeCmpIsChronological(a: DateTime, b: DateTime)
    requires ValidYmd(a.date.ymd) && IsClock(a.time)
    requires ValidYmd(b.date.ymd) && IsClock(b.time)
    ensures DateTimeCmp(a, b) == CompareInts(InstantMilliseconds(ToInstant(a)), InstantMilliseconds(ToInstant(b)))
    ensures DateTimeEq(a, b) <==> ToInstant(a) == ToInstant(b)
  {
    YmdCmpIsChronological(a.date.ymd, b.date.ymd);
    TimeCmpIsChronological(a.time, b.time);
    var da, db := DayNumber(a.date.ymd), DayNumber(b.date.ymd);
    var ta, tb := MillisecondOfDay(a.time), MillisecondOfDay(b.time);
    assert InstantMilliseconds(ToInstant(a)) == da * 86400000 + ta;
    assert InstantMilliseconds(ToInstant(b)) == db * 86400000 + tb;
    if da < db {
      assert da * 86400000 + 86400000 <= db * 86400000;
    } else if db < da {
      assert db * 86400000 + 86400000 <= da * 86400000;
    } else if ta == tb {
      DivUnique(ta, 1000, ToSeconds(a.time), a.time.millisecond as int);
      DivUnique(tb, 1000, ToSeconds(b.time), b.time.millisecond as int);
      ToSecondsInjective(a.time, b.time);
    }
  }
}
