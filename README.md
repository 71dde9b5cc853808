# Local dates, times and date-times of the `datetime` crate, modelled in Dafny

This project models `src/cal/local.rs` of the Rust `datetime` crate. That file holds the crate's proleptic Gregorian calendar arithmetic, all of it integer-only:

- **Cycle and weekday arithmetic.** `split_cycles` is floor division with a non-negative remainder. `days_to_weekday` turns a day count into a weekday. The file also defines the cycle-length constants, `EPOCH_DIFFERENCE` and the `TIME_TRIANGLE` month table.
- **The encoder.** `YMD::to_days_since_epoch` and `YMD::is_valid` turn a year, month and day into days since 1 January 1970, or report `OutOfRange`.
- **The decoder.** `Date::from_days_since_epoch` turns days since 1 March 2000 into a year, month, day, day of the year and weekday. It splits the count into 400-, 100- and 4-year cycles and then scans `TIME_TRIANGLE` for the month.
- **`Date`.** The constructors `ymd`, `yd` (ordinal date) and `ywd` (ISO 8601 week date), and an equality and order that look only at the year, month and day.
- **`Time`.** The checked constructors `hm`, `hms` and `hms_ms`, the unchecked `from_seconds*`, `midnight` and `to_seconds`, and the derived field-by-field order.
- **`DateTime`.** `at`, `at_ms` and `from_instant` split a second count with `split_cycles`. `to_instant`, `add_seconds` and the `Duration` addition and subtraction go the other way.

The decoder is specified by one predicate, `Calendar.DecodesTo(days, d)`. It says that `d` is a valid date other than 29 February that names day `days`. If that day is a 29 February, `d` is the 1 March after it instead. Either way, `d` carries the day of the year and the weekday of day `days`.

`DecoderFacts.DecodeDaysMeaning` proves that the decoder, written as an expression, satisfies `DecodesTo`. `Dates.FromDaysSinceEpoch` is the same computation step by step and is proved to agree with it. The constructors are then stated through `DecodesTo`.

The decoder's handling of 29 February is reproduced as the code has it. Neither the 100-year count nor the year count inside a 4-year block is capped at 3. So the last day of a 4-year block, and the last day of a 400-year block, come out as 1 March of the same year. Both of those days are a 29 February. The day of the year (60) and the weekday are still those of 29 February. Consequences:

- `Date::ymd(y, February, 29)` returns a date that compares equal to 1 March (`Dates.LeapDayEqualsMarchFirst`).
- A second count that falls on a 29 February comes back from `to_instant` one day later (`DateTimes.AtMsToInstant`).

Module layout: `Arith` holds Rust's truncating `/` and `%` and the `as i8` / `as i16` casts. `Results` holds `Option`, `Result` and the error. `Units` holds months, weekdays and the leap-year rule. `Cycles` holds the constants, `split_cycles` and `days_to_weekday`. `Calendar` holds `YMD`, `Date`, the encoder, the order and `DecodesTo`. `Decoder` holds the decoder as an expression and `DecoderFacts` its correctness. `Dates` holds the `Date` operations, `Times` the `Time` operations and `DateTimes` the `DateTime` operations.

`EPOCH_DIFFERENCE` is 11017, the value of the expression at src/cal/local.rs:57-59. The comment at src/cal/local.rs:320 says the case where the scan finds no month is February; after the `+ 2` at line 325 it is March, and the model follows the code.

`DateTime::new` is the datatype constructor `DateTimes.DateTime`, and the field accessors of `DatePiece` and `TimePiece` are the datatypes' fields.

## Model

| member | source | states |
|---|---|---|
| `Arith.TDiv` | src/cal/local.rs:692 | Rust's quotient rounds toward zero: for a positive divisor `b`, `b * q` is the largest multiple of `b` not above a non-negative dividend, and the smallest multiple not below a negative one |
| `Arith.TRem` | src/cal/local.rs:693 | Rust's remainder: strictly between minus and plus the divisor, equal to `%` for a non-negative dividend, and either 0 or `%` less the divisor for a negative one |
| `Arith.DivUnique` | src/cal/local.rs:691-701 | a quotient and remainder in range are the ones division gives |
| `Arith.TruncatedRemainder` | src/cal/local.rs:693-697 | the truncated remainder differs from the floor remainder by the divisor exactly when it is negative |
| `Arith.AsI8` | src/cal/local.rs:334 | `as i8` keeps the value modulo 256 and leaves values in range unchanged |
| `Arith.AsI16` | src/cal/local.rs:340 | `as i16` keeps the value modulo 65536 and leaves values in range unchanged |
| `Units.MonthIndex` | src/cal/local.rs:653 | the month order used by the encoder's `>= March`: positions 0 to 11 |
| `Units.MonthFromZero` | src/cal/local.rs:334 | `Month::from_zero` succeeds exactly on 0..12 and inverts the position |
| `Units.DaysInMonth` | src/cal/local.rs:668-670 | month lengths 28 to 31, and February has 29 days exactly in a leap year |
| `Units.DaysBeforeStartStep` | src/cal/local.rs:650 | `days_before_start` grows month by month by the common-year month lengths |
| `Units.WeekdayFromZero` | src/cal/local.rs:680 | `Weekday::from_zero` succeeds exactly on 0..7, with Sunday at 0 |
| `Units.DaysFromMondayAsOne` | src/cal/local.rs:213-216 | Monday is 1 through Sunday 7, which is the zero-based position modulo 7 |
| `Units.LeapYearCalculations` | src/cal/local.rs:629 | the leap flag is the Gregorian rule, and 2000 starts with a leap-day count of -1 |
| `Units.LeapCountStep` | src/cal/local.rs:629 | the cumulative leap count grows by one exactly at each leap year |
| `Units.LeapDaysElapsedStep` | src/cal/local.rs:629 | the leap-day count of the next year is this year's plus one if this year is leap |
| `Units.LeapDaysElapsedCounts` | src/cal/local.rs:645-646 | the leap-day count is the number of leap years from 2000 up to the year, less one (so that, with the constant 10958, the encoder counts true days) |
| `Units.LeapYearsBetweenFirst` | src/cal/local.rs:645-646 | counting leap years in a range peels off its first year |
| `Cycles.CycleLengths` | src/cal/local.rs:19-59 | a 400-year cycle is four 100-year cycles plus a day, a 100-year cycle is 25 four-year cycles less a day, and `EPOCH_DIFFERENCE` is 11017 |
| `Cycles.FloorSplit` | src/cal/local.rs:683-701 | the split's parts recombine to the input, with a remainder in `[0, len)` |
| `Cycles.SplitCycles` | src/cal/local.rs:691-701 | `split_cycles` step by step: floor division with a non-negative remainder, for negative inputs too |
| `Cycles.DaysToWeekday` | src/cal/local.rs:675-681 | the weekday's position is `(days + 3) mod 7`, so the `unwrap` is safe |
| `Cycles.WeekdayPeriodic` | src/cal/local.rs:676 | day 0, 1 March 2000, is a Wednesday, and adding whole weeks keeps the weekday |
| `Cycles.WeekdayNext` | src/cal/local.rs:675-681 | consecutive days have different weekdays |
| `Cycles.WeekdayShift` | src/cal/local.rs:675-681 | moving `k` days moves the weekday position `k` places modulo 7 |
| `Cycles.WeekdayIndexInjective` | src/cal/local.rs:680 | weekdays are determined by their positions |
| `Cycles.MondayOfWeek` | src/cal/local.rs:213-214 | going back `days_from_monday_as_one - 1` days always lands on a Monday |
| `Calendar.ToDaysSinceEpoch` | src/cal/local.rs:627-666 | `OutOfRange` exactly when the day is below 1 or past the month's length in that year's leapness |
| `Calendar.EncoderAnchors` | src/cal/local.rs:637-663 | 1 January 1970 encodes to 0, 1 January 2000 to 10957 and 1 March 2000 to `EPOCH_DIFFERENCE` |
| `Calendar.DayNumberInYear` | src/cal/local.rs:637-663 | a valid triple's count is its 1 January's count plus the days before its month plus its day less one |
| `Calendar.MonthStartsOrdered` | src/cal/local.rs:650-653 | months start in order, each after the previous one ends, and all of them end within the year |
| `Calendar.JanFirstClosedForm` | src/cal/local.rs:637-646 | the count of 1 January in closed form from the cumulative leap count |
| `Calendar.JanFirstStep` | src/cal/local.rs:637-646 | 1 January of the next year comes one year-length after this year's |
| `Calendar.JanFirstGrows` | src/cal/local.rs:637-646 | every earlier year ends before a later year starts |
| `Calendar.NextDayStep` | src/cal/local.rs:637-663 | consecutive valid triples encode to consecutive counts, in the triples' order |
| `Calendar.DayNumberMonotone` | src/cal/local.rs:611-663 | a triple that compares less encodes to a smaller count |
| `Calendar.YmdCmpIsChronological` | src/cal/local.rs:611-663 | on valid triples the derived order (year, month, day) is the order of their counts, and equality is equality of counts |
| `Calendar.DayNumberInjective` | src/cal/local.rs:627-663 | different valid triples encode to different counts |
| `Calendar.YearOfDay` | src/cal/local.rs:637-646 | a count lies in one year only |
| `Calendar.DecodesToUnique` | src/cal/local.rs:263-348 | a count decodes to one date at most |
| `Calendar.DecodesToYearday` | src/cal/local.rs:297-303 | the decoded day of the year lies between 1 and the year's length, and is 60 for a shifted leap day |
| `Calendar.DecodesToTriple` | src/cal/local.rs:133-137 | decoding a valid triple's count gives that triple back, or 1 March for 29 February, with the triple's own day of the year |
| `Calendar.DecodesToInYear` | src/cal/local.rs:159-164 | a count within a year decodes into that year, with its ordinal day of the year |
| `Calendar.LeapDayAccepted` | src/cal/local.rs:735-743 | 29 February is accepted exactly in leap years: 2004, 2008, 2012, 2016 and 1600 in, 2005, 2009, 2013, 2017, 1601 and 1602 out |
| `Calendar.MonthOverflowRejected` | src/cal/local.rs:746-761 | day 0, the day after each month's end, day 31 of the 30-day months, day 32 and 30 February are all rejected, in every year |
| `Decoder.FindAtMost` | src/cal/local.rs:314-316 | `find`: the first position from `from` whose entry is at most the bound, and every entry before it is larger |
| `Decoder.SplitDays` | src/cal/local.rs:271-283 | the cycle counts recombine to the input, in range, with the uncapped counts visible: 4 hundred-year cycles or 4 years only with nothing left over |
| `Decoder.ScanTriangle` | src/cal/local.rs:314-321 | the March-based month number lies in 0 to 11 |
| `DecoderFacts.LeapCountOfCycles` | src/cal/local.rs:19-25 | the leap count and leap flag of the year a cycle position reaches |
| `DecoderFacts.MarchFirstOfCycles` | src/cal/local.rs:19-59 | 1 March of the year a cycle position reaches encodes to `EPOCH_DIFFERENCE` plus the cycle lengths |
| `DecoderFacts.ScanTriangleMeaning` | src/cal/local.rs:65-76 | the scan gives a month and a day within it, and wraps exactly for January and February (March-based offset 306 on) |
| `DecoderFacts.DecodeJanFeb` | src/cal/local.rs:297-330 | January and February of a regular slot: a valid triple of the next year, never 29 February, naming the day |
| `DecoderFacts.DecodeMarDec` | src/cal/local.rs:297-330 | March to December of a regular slot: a valid triple of the slot's year naming the day |
| `DecoderFacts.DecodeRegular` | src/cal/local.rs:263-348 | outside the two block ends the decoder names the day exactly, with its day of the year |
| `DecoderFacts.DecodeBlockEnd` | src/cal/local.rs:276-283 | at the end of a 4-year or 400-year block (a 29 February) the decoder gives 1 March, day of the year 60 |
| `DecoderFacts.BlockEndYmd` | src/cal/local.rs:314-346 | with nothing left over after the years, the scan finds no month and the date is 1 March |
| `DecoderFacts.DecodeDaysMeaning` | src/cal/local.rs:263-348 | the decoder satisfies `DecodesTo` for every count |
| `DecoderFacts.YmdRoundTrip` | src/cal/local.rs:764-781 | decode after encode gives the triple back (1 March for 29 February), with its day of the year and weekday |
| `DecoderFacts.LeapDayCollides` | src/cal/local.rs:276-283 | 29 February and the following 1 March decode to the same triple, with days of the year 60 and 61 and different weekdays |
| `Dates.CountCycles` | src/cal/local.rs:271-283 | the cycle steps of the decoder, step by step, agree with `SplitDays` |
| `Dates.FromDaysSinceEpoch` | src/cal/local.rs:263-348 | step by step, including the `TIME_TRIANGLE` scan: the result satisfies `DecodesTo` |
| `Dates.YmdOfParts` | src/cal/local.rs:305-334 | the year and month wrap gives the triple of the decoder expression, with the month index in 0..12 so the `unwrap` is safe |
| `Dates.DecodedParts` | src/cal/local.rs:339-346 | fields assembled as the code does satisfy `DecodesTo` |
| `Dates.Ymd` | src/cal/local.rs:133-137 | an error exactly for an invalid triple; otherwise that triple (1 March for 29 February) with its own day of the year |
| `Dates.Yd` | src/cal/local.rs:159-168 | an error exactly when the day of the year is outside `[0, 367)`; otherwise the day `yearday - 1` after 1 January |
| `Dates.YdLastDayBefore` | src/cal/local.rs:159-168 | day 0 of a year is 31 December of the year before |
| `Dates.YdFirstDayAfter` | src/cal/local.rs:159-168 | day 366 of a common year is 1 January of the next year |
| `Dates.YdExamplesCommonYear` | src/cal/local.rs:150-251 | day 256 of 2015 is 13 September, and day 268 is 25 September |
| `Dates.YdExampleLeapYear` | src/cal/local.rs:246-261 | day 268 of the leap year 2016 is 24 September |
| `Dates.OrdinalDecodes` | src/cal/local.rs:159-168 | an ordinal day of a year decodes to the triple with that day of the year |
| `Dates.WeekOneMonday` | src/cal/local.rs:212-216 | the Monday of the week holding 4 January, within three days of 1 January |
| `Dates.WeekDateWeekday` | src/cal/local.rs:185-232 | the week date's day falls on the requested weekday |
| `Dates.Ywd` | src/cal/local.rs:211-232 | the result is the ISO week date, on the requested weekday; weeks -50 to 104 always succeed, and weeks below -52 or above 105 always fail |
| `Dates.YwdFromYd` | src/cal/local.rs:218-231 | all three `yd` branches name the same day, the week date |
| `Dates.YwdYearday` | src/cal/local.rs:212-216 | the correction and the day of the year name the week date, within `7 * week - 9` to `7 * week + 3` |
| `Dates.JanFourth` | src/cal/local.rs:212-213 | 4 January is valid and three days after 1 January, so the `unwrap` is safe |
| `Dates.YwdExampleMidYear` | src/cal/local.rs:185-190 | Friday of week 37 of 2015 is 11 September 2015 |
| `Dates.YwdExampleYearBefore` | src/cal/local.rs:199-203 | Monday of week 1 of 2009 is 29 December 2008 |
| `Dates.YwdExampleYearAfter` | src/cal/local.rs:205-209 | Sunday of week 53 of 2009 is 3 January 2010 |
| `Dates.WeekDateOrdinals` | src/cal/local.rs:185-210 | the three documented week dates as ordinal days: 254 of 2015, 364 of 2008 and 3 of 2010 |
| `Dates.WeekDateOrdinal` | src/cal/local.rs:212-216 | a week date as an ordinal date from the closed form of 1 January |
| `Dates.NewWithPrefilledValues` | src/cal/local.rs:361-367 | with consistent fields, the result holds the triple given; for any triple other than 29 February it is the date `ymd` builds, while for 29 February it keeps 29 February, which `ymd` never returns (it builds 1 March) |
| `Dates.DecodedDayNumber` | src/cal/local.rs:263-348 | a decoded date's triple encodes to the decoded count, one more for a shifted leap day |
| `Dates.DateOrderFollowsDayCount` | src/cal/local.rs:387-403 | decoded dates compare as their counts; equal dates come from the same count or from a leap day and the next day |
| `Dates.LeapDaysApart` | src/cal/local.rs:627-663 | two 29 Februaries are never on consecutive days |
| `Dates.LeapDayEqualsMarchFirst` | src/cal/local.rs:387-403 | `ymd(y, February, 29)` and `ymd(y, March, 1)` compare equal, with days of the year 60 and 61 and different weekdays |
| `Dates.DecodedLeapDay` | src/cal/local.rs:133-137 | `ymd(y, February, 29)` gives 1 March, day 60, on 29 February's weekday |
| `Dates.DecodedMarchFirst` | src/cal/local.rs:133-137 | `ymd(y, March, 1)` in a leap year gives 1 March, day 61, on the next weekday |
| `Dates.LeapDayNeighbour` | src/cal/local.rs:637-663 | 29 February of a leap year is day 60 and 1 March follows it |
| `Dates.ReencodeDecode` | src/cal/local.rs:764-781 | re-encoding and decoding a decoded date gives an equal date, and the very same date unless it is a shifted leap day |
| `Times.ToSeconds` | src/cal/local.rs:477-482 | a clock reading lies within the day, and 24:00:00 is 86400 |
| `Times.FromSecondsAndMillisecondsSinceMidnight` | src/cal/local.rs:415-422 | the milliseconds as given; within 128 hours of midnight the fields add back to the seconds and share their sign; a count within the day gives a clock reading |
| `Times.SplitOfSeconds` | src/cal/local.rs:417-419 | the truncating divisions split a count into hours, minutes and seconds, with the bounds of each |
| `Times.FromSecondsSinceMidnight` | src/cal/local.rs:409-411 | a count within the day gives a clock reading whose seconds are that count, with no milliseconds |
| `Times.Midnight` | src/cal/local.rs:425-427 | a clock reading at second 0 with no milliseconds |
| `Times.MidnightUnique` | src/cal/local.rs:425-427 | midnight is the only clock reading at second 0 with no milliseconds |
| `Times.Hm` | src/cal/local.rs:434-443 | succeeds exactly on a clock reading on the minute or 24:00, with those fields |
| `Times.Hms` | src/cal/local.rs:449-458 | succeeds exactly on a clock reading on the second or 24:00:00, with those fields |
| `Times.HmsMs` | src/cal/local.rs:464-474 | succeeds exactly on a clock reading, and refuses hour 24 |
| `Times.TimeRoundTrip` | src/cal/local.rs:415-482 | splitting a time's seconds gives the time back, for every clock reading and for 24:00:00 |
| `Times.HmsMsAcceptsSplit` | src/cal/local.rs:415-474 | `hms_ms` accepts every split of a count within the day |
| `Times.ToSecondsInjective` | src/cal/local.rs:477-482 | different clock readings have different second counts |
| `Times.TimeCmpIsChronological` | src/cal/local.rs:91 | the derived order on clock readings is the order of their milliseconds since midnight |
| `DateTimes.SplitsIntoUnique` | src/cal/local.rs:515-526 | a second count splits into one date-time at most |
| `DateTimes.AtMs` | src/cal/local.rs:515-526 | the date of the count's day and the clock reading of the seconds into it, with the milliseconds as given |
| `DateTimes.At` | src/cal/local.rs:509-511 | as `at_ms` with no milliseconds |
| `DateTimes.FromInstant` | src/cal/local.rs:502-504 | as `at_ms` on the instant's seconds and milliseconds |
| `DateTimes.ToInstant` | src/cal/local.rs:552-557 | for a clock reading the seconds split into the date's count of days and the time's seconds; for the 24:00:00 that `hm` and `hms` accept they are midnight of the next day; the milliseconds are the time's |
| `DateTimes.DaySecondsSplit` | src/cal/local.rs:552-557 | a day count times the day length plus the seconds into the day, or a whole day, splits back into the day count (plus one for a whole day) and those seconds |
| `DateTimes.AtMsToInstant` | src/cal/local.rs:515-557 | `to_instant` after `at_ms` gives the count back, one day later on a 29 February |
| `DateTimes.InstantRoundTrip` | src/cal/local.rs:502-557 | `from_instant(to_instant(dt))` is structurally `dt` when the date is one `ymd` builds for a triple other than 29 February (valid, with its own day of the year and weekday) and the time a clock reading |
| `DateTimes.InstantRoundTripEq` | src/cal/local.rs:502-557 | under the crate's `==`, `from_instant(to_instant(dt))` equals `dt` for every valid date other than 29 February and every clock reading, which covers the 1 March that `ymd` returns for a 29 February |
| `DateTimes.EndOfDayRoundTrip` | src/cal/local.rs:552-557 | the 24:00:00 that `hm` and `hms` accept never round-trips: it comes back as 00:00 of the next day (1 March when that day is a 29 February) and is not `==` to the original |
| `DateTimes.EndOfDaySplit` | src/cal/local.rs:515-526 | a count a whole number of days past the start of a date splits into midnight of the following date |
| `DateTimes.NextDayDecodes` | src/cal/local.rs:263-348 | the count after a valid triple decodes to its successor, or to 1 March in place of a 29 February |
| `DateTimes.AddSeconds` | src/cal/local.rs:559-561 | the date-time of the instant moved on by the seconds |
| `DateTimes.Add` | src/cal/local.rs:585-591 | the date-time of the instant moved on by the duration |
| `DateTimes.Sub` | src/cal/local.rs:593-599 | the date-time of the instant moved back by the duration |
| `DateTimes.AddThenSub` | src/cal/local.rs:585-599 | adding and then subtracting a duration gives the date-time back unless the sum lands on a 29 February |
| `DateTimes.DateTimeCmpIsChronological` | src/cal/local.rs:101 | the derived order on date-times is the order of their instants, and equality is equality of instants |

## Left out

- `fmt::Debug` for `Date`, `Time` and `DateTime`, and the rendering tests at src/cal/local.rs:786-826. They delegate to the ISO formatter, which is not part of this model.
- `DateTime::now` reads the system clock.
- `Error`'s `Display` and `description` hold only a fixed message.
- `Instant` and `Duration` are defined elsewhere in the crate and are not part of this model. An instant is a pair of a second count and a millisecond. `Duration::of(s)` is `s` whole seconds. Adding a duration to an instant is taken to add its seconds, and subtracting it to subtract them.
- Machine-integer overflow of `i64` is not modelled: years, day counts and second counts are unbounded integers. The `as i8` and `as i16` casts are modelled exactly.
- `Cycles.SplitCycles` and `Cycles.FloorSplit` require a positive cycle length. The code is only called with positive constants.
- `DateTimes.ToInstant`, `DateTimes.AddSeconds`, `DateTimes.Add` and `DateTimes.Sub` require a valid date triple. The code unwraps the encoder there, which panics otherwise.
- `Dates.NewWithPrefilledValues` requires consistent fields. The code accepts anything, which lets a caller build a `Date` the other constructors never return.
- `Dates.Yd` states its result through `DecodesTo` only. Its meaning within the year and at its two ends is stated by `Calendar.DecodesToInYear`, `Dates.YdLastDayBefore` and `Dates.YdFirstDayAfter`.
- `Dates.Ywd` promises success only for weeks -50 to 104 and failure only for weeks below -52 or above 105. The exact cut-off in between depends on the year, and it is not stated.
- `Dates.Ywd` makes one `Yd` call after choosing its arguments in the branches. The code has one call per branch; the two are the same computation.
- `Dates.FromDaysSinceEpoch` takes its first steps from `Dates.CountCycles`. The code writes these steps inline.
