/**
 * Local times of day: `Time` and its constructors in `src/cal/local.rs`.
 *
 * The checked constructors accept exactly the clock readings (hour below
 * 24, minute and second below 60, millisecond below 1000), and `hm` and
 * `hms` also the end-of-day sentinel 24:00(:00). The unchecked
 * constructors split a second count with Rust's truncating division;
 * `to_seconds` joins the fields back.
 */
module Times {
  import opened Arith
  import opened Results
  import opened Calendar

  datatype Time = Time(hour: i8, minute: i8, second: i8, millisecond: i16)

  /** A reading of a clock: hour, minute and second within a day, millisecond within a second. */
  predicate IsClock(t: Time)
  {
    0 <= t.hour < 24 && 0 <= t.minute < 60 && 0 <= t.second < 60 && 0 <= t.millisecond < 1000
  }

  /** Hour, minute and second of a clock reading, whatever the millisecond field holds. */
  predicate IsClockSecond(t: Time)
  {
    0 <= t.hour < 24 && 0 <= t.minute < 60 && 0 <= t.second < 60
  }

  /** The end-of-day sentinel that `hm` and `hms` accept: 24:00:00. */
  predicate IsEndOfDay(t: Time)
  {
    t.hour == 24 && t.minute == 0 && t.second == 0 && t.millisecond == 0
  }

  /**
   * `Time::to_seconds`: seconds since midnight, milliseconds ignored. A
   * clock reading lies within the day and the sentinel is its very end.
   */
  function ToSeconds(t: Time): (s: int)
    ensures IsClockSecond(t) ==> 0 <= s < 86400
    ensures IsEndOfDay(t) ==> s == 86400
  {
    t.hour as int * 3600 + t.minute as int * 60 + t.second as int
  }

  /**
   * `Time::from_seconds_and_milliseconds_since_midnight`: hours, minutes
   * and seconds by truncating division, each cast to `i8`, and the
   * millisecond field as given. Within 128 hours either side of midnight
   * the fields add back up to `seconds` and all share its sign, and a count
   * within the day gives a clock reading; further out the hour wraps.
   */
  function FromSecondsAndMillisecondsSinceMidnight(seconds: int, millisecondOfSecond: i16): (t: Time)
    ensures t.millisecond == millisecondOfSecond
    ensures -460800 < seconds < 460800 ==> ToSeconds(t) == seconds
    ensures 0 <= seconds < 460800 ==> t.hour >= 0 && 0 <= t.minute < 60 && 0 <= t.second < 60
    ensures -460800 < seconds <= 0 ==> t.hour <= 0 && -60 < t.minute <= 0 && -60 < t.second <= 0
    ensures 0 <= seconds < 86400 ==> IsClockSecond(t)
  {
    var minutes := TDiv(seconds, 60);
    SplitOfSeconds(seconds);
    Time(AsI8(TDiv(minutes, 60)), AsI8(TRem(minutes, 60)), AsI8(TRem(seconds, 60)), millisecondOfSecond)
  }

  /** How the truncating divisions of `FromSecondsAndMillisecondsSinceMidnight` split a second count. */
  lemma SplitOfSeconds(seconds: int)
    ensures var minutes := TDiv(seconds, 60);
      seconds == TDiv(minutes, 60) * 3600 + TRem(minutes, 60) * 60 + TRem(seconds, 60)
    ensures -460800 < seconds < 460800 ==> -128 < TDiv(TDiv(seconds, 60), 60) < 128
    ensures 0 <= seconds < 86400 ==> 0 <= TDiv(TDiv(seconds, 60), 60) < 24
    ensures 0 <= seconds ==> 0 <= TDiv(TDiv(seconds, 60), 60)
    ensures seconds <= 0 ==> TDiv(TDiv(seconds, 60), 60) <= 0 && TRem(TDiv(seconds, 60), 60) <= 0
  {
    var minutes := TDiv(seconds, 60);
    assert seconds == minutes * 60 + TRem(seconds, 60);
    assert minutes == TDiv(minutes, 60) * 60 + TRem(minutes, 60);
  }

  /** `Time::from_seconds_since_midnight`: the same split with no milliseconds. */
  function FromSecondsSinceMidnight(seconds: int): (t: Time)
    ensures 0 <= seconds < 86400 ==> IsClock(t) && ToSeconds(t) == seconds
    ensures t.millisecond == 0
  {
    FromSecondsAndMillisecondsSinceMidnight(seconds, 0)
  }

  /** `Time::midnight`: the first clock reading of the day. */
  function Midnight(): (t: Time)
    ensures IsClock(t) && ToSeconds(t) == 0 && t.millisecond == 0
  {
    Time(0, 0, 0, 0)
  }

  /** Midnight is the only clock reading zero seconds into the day with no milliseconds. */
  lemma MidnightUnique(t: Time)
    requires IsClockSecond(t) && ToSeconds(t) == 0 && t.millisecond == 0
    ensures t == Midnight()
  {
    assert t.hour as int * 3600 <= 0;
    assert t.minute as int * 60 <= 0;
    assert t.hour == 0 && t.minute == 0 && t.second == 0;
  }

  /** `Time::hm`: a clock reading on the minute, or 24:00; `OutOfRange` otherwise. */
  function Hm(hour: i8, minute: i8): (r: Result<Time>)
    ensures r.Ok? <==> IsClock(Time(hour, minute, 0, 0)) || IsEndOfDay(Time(hour, minute, 0, 0))
    ensures r.Ok? ==> r.value == Time(hour, minute, 0, 0)
    ensures r.Ok? ==> 0 <= ToSeconds(r.value) <= 86400
  {
    if (0 <= hour < 24 && 0 <= minute < 60) || (hour == 24 && minute == 0) then
      Ok(Time(hour, minute, 0, 0))
    else
      Err(OutOfRange)
  }

  /** `Time::hms`: a clock reading on the second, or 24:00:00; `OutOfRange` otherwise. */
  function Hms(hour: i8, minute: i8, second: i8): (r: Result<Time>)
    ensures r.Ok? <==> IsClock(Time(hour, minute, second, 0)) || IsEndOfDay(Time(hour, minute, second, 0))
    ensures r.Ok? ==> r.value == Time(hour, minute, second, 0)
    ensures r.Ok? ==> 0 <= ToSeconds(r.value) <= 86400
  {
    if (0 <= hour < 24 && 0 <= minute < 60 && 0 <= second < 60)
      || (hour == 24 && minute == 0 && second == 0)
    then
      Ok(Time(hour, minute, second, 0))
    else
      Err(OutOfRange)
  }

  /** `Time::hms_ms`: exactly the clock readings; there is no sentinel here, so hour 24 is refused. */
  function HmsMs(hour: i8, minute: i8, second: i8, millisecond: i16): (r: Result<Time>)
    ensures r.Ok? <==> IsClock(Time(hour, minute, second, millisecond))
    ensures r.Ok? ==> r.value == Time(hour, minute, second, millisecond)
    ensures r.Ok? ==> 0 <= ToSeconds(r.value) < 86400
  {
    if 0 <= hour < 24 && 0 <= minute < 60 && 0 <= second < 60 && 0 <= millisecond < 1000 then
      Ok(Time(hour, minute, second, millisecond))
    else
      Err(OutOfRange)
  }

  /**
   * Splitting the seconds of a time back out gives that time again, for
   * every time whose minute and second are below 60 and which is not
   * before midnight, so for every clock reading and for 24:00:00.
   */
  lemma TimeRoundTrip(t: Time)
    requires t.hour >= 0 && 0 <= t.minute < 60 && 0 <= t.second < 60
    ensures FromSecondsAndMillisecondsSinceMidnight(ToSeconds(t), t.millisecond) == t
  {
    var s := ToSeconds(t);
    var minutes := t.hour as int * 60 + t.minute as int;
    DivUnique(s, 60, minutes, t.second as int);
    DivUnique(minutes, 60, t.hour as int, t.minute as int);
  }

  /** The checked constructor accepts exactly what the unchecked split produces within a day. */
  lemma HmsMsAcceptsSplit(seconds: int, millisecond: i16)
    requires 0 <= seconds < 86400 && 0 <= millisecond < 1000
    ensures var t := FromSecondsAndMillisecondsSinceMidnight(seconds, millisecond);
      HmsMs(t.hour, t.minute, t.second, t.millisecond) == Ok(t)
  {
  }

  /** Two clock readings with the same second count are the same reading, up to milliseconds. */
  lemma ToSecondsInjective(a: Time, b: Time)
    requires IsClockSecond(a) && IsClockSecond(b) && a.millisecond == b.millisecond
    requires ToSeconds(a) == ToSeconds(b)
    ensures a == b
  {
    TimeRoundTrip(a);
    TimeRoundTrip(b);
  }

  /** The derived `Ord for Time`: hour, then minute, then second, then millisecond. */
  function TimeCmp(a: Time, b: Time): Ordering
  {
    if a.hour != b.hour then CompareInts(a.hour, b.hour)
    else if a.minute != b.minute then CompareInts(a.minute, b.minute)
    else if a.second != b.second then CompareInts(a.second, b.second)
    else CompareInts(a.millisecond, b.millisecond)
  }

  /** Milliseconds since midnight. */
  function MillisecondOfDay(t: Time): int
  {
    ToSeconds(t) * 1000 + t.millisecond as int
  }

  /** On clock readings (and the sentinel) the field-by-field order is the order of the moments they name. */
  lemma TimeCmpIsChronological(a: Time, b: Time)
    requires IsClock(a) || IsEndOfDay(a)
    requires IsClock(b) || IsEndOfDay(b)
    ensures TimeCmp(a, b) == CompareInts(MillisecondOfDay(a), MillisecondOfDay(b))
  {
  }
}
