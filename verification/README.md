# JalaliFlow calendar core in Dafny

This project models the calendar arithmetic of the `JalaliFlow` class of the
JalaliFlow Laravel package (`src/JalaliFlow.php`):

- `isLeapYear`: the 33-year leap rule, written as a list of eight residues;
- `jalaliToJd`: a Jalali (year, month, day) triple to a Julian Day value;
- `jdToJalali`: a Julian Day value back to a Jalali triple;
- `isHoliday` with its fixed `$holidays` table;
- `addEvent`: building an event record from an associative array.

Modules, one per concern:

| file | module | models |
|---|---|---|
| `php_arith.dfy` | `PhpArith` | PHP's `floor(a / b)`, its truncating `%` and float-to-int truncation |
| `calendar.dfy` | `Calendar` | Jalali triples, Julian Day values in half days, (month, day) pairs |
| `leap_year.dfy` | `LeapYear` | `isLeapYear` |
| `to_julian_day.dfy` | `ToJulianDay` | `jalaliToJd` |
| `month_walk.dfy` | `MonthWalk` | the month loop at the end of `jdToJalali`, for any 12-entry table |
| `from_julian_day.dfy` | `FromJulianDay` | `jdToJalali` as written |
| `intended_conversion.dfy` | `IntendedConversion` | `jdToJalali` with the two corrections listed under Findings |
| `holidays.dfy` | `Holidays` | `$holidays` and `isHoliday` |
| `events.dfy` | `Events` | `addEvent` |

Modelling choices:

- Julian Day values are held in half days (`JulianDay(halves)` denotes `halves / 2`).
  This keeps the `.5` constants `1948320.5` and `79` exact.
- PHP's `%` keeps the sign of the dividend, and `%=` on a float first truncates it
  toward zero. Both are written out (`TruncRem`, `TruncDiv`), because Dafny's `%` is Euclidean.
- `floor(a / b)` with a positive literal `b` is `FloorDiv`.
- Integers are unbounded. The code's values stay far below 2^53, where PHP's floats are exact.

What the code does, as the model shows it:

- **The reference count is a constant.** `jdToJalali` subtracts `$g_day_no`, which is
  computed from the constant `$gy = 1600` and never from the input. It is always 1168788,
  so the offset reduced by the cycles is `jd - 3117187.5`.
- **The two conversions do not invert each other.** `jalaliToJd` yields `1948320.5 + 79`
  plus the day count from year 979. `jdToJalali` takes away that shift and the constant
  above, so for every year from 979 to 4000 the year comes back smaller.
- **Negative offsets give nonsense.** The real Julian Day of 1404/1/1 (2460756) converts to
  (-852, 1, -1185).
- **`jalaliToJd` uses its own epoch.** 1404/1/1 maps to 2103628.5, not to the Julian Day the
  PHP calendar extension assigns to that day. So even a `jdToJalali` corrected to invert
  `jalaliToJd` sends the real Julian Day of 1404/1/1 to 2381/10/11.
- **Years before 979 are irregular.** `gy` is negative there and PHP's `%` keeps its sign,
  so year 978 is 373 days long.
- **The leap rule differs from the intercalation formula below zero.** `isLeapYear` tests
  `year % 33` against `[1, 5, 9, 13, 17, 22, 26, 30]`. The formula
  `((year + 12) mod 33) mod 4 == 1` picks the same years from 0 on. Below 0 no year is leap
  under the code, because of PHP's signed remainder.
- **`isHoliday` is an exact key lookup.** It checks the two fixed strings `1404/01/01` and
  `1404/01/02`. It does not validate dates or derive holidays per year, and it keeps no
  custom overlay.

The code has no validation of dates (to years 1300–1500 or otherwise), no 2820-year grand
cycle, no per-year holiday rules and no custom holiday overlay; the model has none either.

## Model

| member | source | states |
|---|---|---|
| PhpArith.FloorDiv | src/JalaliFlow.php:67 | `floor(a / b)` is the greatest `q` with `q * b <= a` |
| PhpArith.TruncDiv | src/JalaliFlow.php:68 | the truncated quotient: below `a / b` in magnitude by less than one, and with the sign of `a` |
| PhpArith.TruncRem | src/JalaliFlow.php:105 | PHP's `%` leaves the remainder of the truncated quotient. It has the sign of the dividend and agrees with the mathematical modulus for non-negative dividends |
| LeapYear.IsLeapYear | src/JalaliFlow.php:103-107 | no negative year is leap; a non-negative year is leap exactly when its residue modulo 33 is one of the eight listed |
| LeapYear.LeapMatchesResidueFormula | src/JalaliFlow.php:105-106 | for every non-negative year, the residue list and the formula `((year + 12) mod 33) mod 4 == 1` pick the same leap years |
| LeapYear.NegativeYearsDiverge | src/JalaliFlow.php:105-106 | year -32 is leap by the formula but not by the code |
| LeapYear.LeapPeriodic | src/JalaliFlow.php:105-106 | for non-negative years the rule repeats every 33 years |
| LeapYear.EightLeapYearsPerCycle | src/JalaliFlow.php:105-106 | every window of 33 consecutive non-negative years holds exactly 8 leap years |
| LeapYear.Leap1403Not1404 | src/JalaliFlow.php:103-107 | 1403 is leap and 1404 is not |
| ToJulianDay.MonthLength | src/JalaliFlow.php:97 | every month adds between 29 and 31 days |
| ToJulianDay.MonthPrefix | src/JalaliFlow.php:96-98 | the days before a month, in closed form: 31 per month up to month 7, then 30 per month, and for months past 12 the leap-dependent month 12 |
| ToJulianDay.JalaliToJd | src/JalaliFlow.php:91-101 | every integer triple maps to a value of the form `n.5` |
| ToJulianDay.DayStep | src/JalaliFlow.php:94 | the next day of the month gives a value exactly one day later |
| ToJulianDay.MonthStep | src/JalaliFlow.php:96-98 | the next month gives a value later by the current month's length |
| ToJulianDay.LeapNeverConsulted | src/JalaliFlow.php:96-98 | for months up to 12 the offset from the first of the year is the same in every year, leap or not |
| ToJulianDay.CycleStep | src/JalaliFlow.php:94 | the cycle term grows by one day across a year exactly when the year's cycle position is a multiple of 4 other than 32 |
| ToJulianDay.YearStep | src/JalaliFlow.php:93-98 | from year 979 on, the same month and day one year later is 366 days later in a leap year and 365 days later otherwise |
| ToJulianDay.YearLengthIsLeap | src/JalaliFlow.php:94 | from year 979 on, the cycle term adds a day across a year exactly when `isLeapYear` holds |
| ToJulianDay.LeapByCyclePosition | src/JalaliFlow.php:105-106 | from year 979 on, a year is leap exactly when its position `(year - 979) mod 33` is a multiple of 4 other than 32 |
| ToJulianDay.Year978Has373Days | src/JalaliFlow.php:93-94 | year 978 comes out 373 days long, so the cycle arithmetic breaks below 979 |
| ToJulianDay.Nowruz1404Example | src/JalaliFlow.php:91-101 | 1404/1/1 maps to 2103628.5 |
| MonthWalk.Walk | src/JalaliFlow.php:82-85 | the loop ends in a month from 1 to 13. A non-negative count lands `day - 1` days after the month's start and never overruns a month of the table |
| MonthWalk.RepresentationUnique | src/JalaliFlow.php:82-88 | within the table's months, a day of the year has only one (month, day) |
| MonthWalk.WalkInsideYear | src/JalaliFlow.php:82-88 | every day inside the table's year walks to a month of the table and a day within it |
| MonthWalk.WalkInverts | src/JalaliFlow.php:82-88 | every (month, day) of the table is recovered from its day of the year |
| MonthWalk.WalkPastYear | src/JalaliFlow.php:82-88 | days past the table's year fall into month 13 |
| MonthWalk.WalkMonotone | src/JalaliFlow.php:82-88 | a later day of the year never gives an earlier (month, day) |
| FromJulianDay.LoopDaysClosedForm | src/JalaliFlow.php:59-64 | `n` loop rounds add `365 n` days plus one for each round index divisible by 4 |
| FromJulianDay.ReferenceDayCount | src/JalaliFlow.php:54-64 | `$g_day_no` is 1168788 |
| FromJulianDay.DayOffset | src/JalaliFlow.php:56-66 | `$j_day_no` is the input less 3117187.5, for every input |
| FromJulianDay.SplitBlock | src/JalaliFlow.php:73-76 | a block position below 366 stays in the first year. Positions 366–1460 advance one to three years and leave a day below 365. A non-negative split is exact |
| FromJulianDay.ReduceBlocks | src/JalaliFlow.php:70-76 | a position inside a cycle becomes 0–32 whole years and a day of the year from 0 to 365; a non-positive one stays non-positive |
| FromJulianDay.ReduceCycles | src/JalaliFlow.php:67-76 | a non-negative offset gives a year from 979 on and a day of the year from 0 to 365. A negative offset gives a year of at most 946 and a non-positive day |
| FromJulianDay.FromOffset | src/JalaliFlow.php:66-88 | the month is at least 1 |
| FromJulianDay.JdToJalali | src/JalaliFlow.php:52-89 | the month is at least 1, for every input |
| FromJulianDay.MonthLengthIsTableEntry | src/JalaliFlow.php:78-97 | the lengths `jalaliToJd` adds for months 1–11 are the entries of `$days_in_month`; for month 12 the table is one day short exactly in a leap year |
| FromJulianDay.TableStartIsMonthPrefix | src/JalaliFlow.php:78 | the month starts of `$days_in_month` match the month prefix summed by `jalaliToJd` |
| FromJulianDay.DayOfYearInRange | src/JalaliFlow.php:78-88 | days 0–364 give a month from 1 to 12 and a day within that month |
| FromJulianDay.DayOfYearPrefix | src/JalaliFlow.php:78-88 | `jalaliToJd`'s month prefix maps the walked (month, day) of days 0–364 back to the day |
| FromJulianDay.DayOfYearRoundTrip | src/JalaliFlow.php:78-88 | every (month, day) in the table comes back from the day of the year `jalaliToJd` assigns it |
| FromJulianDay.DayOfYearPastTable | src/JalaliFlow.php:78-88 | day 365 and beyond walk into month 13, with day 365 giving month 13, day 1 |
| FromJulianDay.DayOfYearMonotone | src/JalaliFlow.php:78-88 | the month walk preserves order |
| FromJulianDay.NonNegativeOffsetRange | src/JalaliFlow.php:66-88 | from `jd = 3117187.5` on, the year is at least 979 and the month is from 1 to 13. The day lies within the table's month, and month 13 only ever has day 1 |
| FromJulianDay.NegativeOffsetRange | src/JalaliFlow.php:66-88 | below `jd = 3117187.5`, the result is month 1 with a day of at most 1 and a year of at most 946 |
| FromJulianDay.CycleShift | src/JalaliFlow.php:67-70 | from a non-negative offset, 12053 more days add 33 years and leave month and day unchanged |
| FromJulianDay.PresentDayExample | src/JalaliFlow.php:52-89 | Julian Day 2460756 converts to (-852, 1, -1185) |
| FromJulianDay.Month13Example | src/JalaliFlow.php:73-88 | Julian Day 3117553 converts to (979, 13, 1) |
| FromJulianDay.RoundTripFails | src/JalaliFlow.php:52-101 | for every date of years 979–4000, converting to a Julian Day and back returns a smaller year |
| IntendedConversion.IntendedOffset | src/JalaliFlow.php:56 | the corrected offset is even exactly when the input has the form `n.5` |
| IntendedConversion.JdToJalaliIntended | src/JalaliFlow.php:52-89 | the month is at least 1 |
| IntendedConversion.DayOfYearBound | src/JalaliFlow.php:96-98 | a valid date's day of the year fits its year: at most 365 in a leap year, 364 otherwise |
| IntendedConversion.OffsetOfDate | src/JalaliFlow.php:91-100 | the corrected offset of `jalaliToJd`'s result counts the days since 979/1/1 |
| IntendedConversion.RoundTrip | src/JalaliFlow.php:52-101 | every valid date from year 979 on survives `jalaliToJd` followed by the corrected conversion |
| IntendedConversion.RoundTripFromJd | src/JalaliFlow.php:52-101 | every `n.5` value from 1948399.5 on converts to a valid date that `jalaliToJd` maps back to the same value |
| IntendedConversion.YearAndDayOfDate | src/JalaliFlow.php:67-76 | the cycle and block reductions recover a valid date's year and day of the year |
| IntendedConversion.MonthOfIntendedDay | src/JalaliFlow.php:78-88 | the walk over the corrected table recovers a valid date's month and day |
| IntendedConversion.ReduceDayCount | src/JalaliFlow.php:67-76 | the reductions invert the year term of `jalaliToJd` for every day that fits its year |
| IntendedConversion.ReduceCyclesInverse | src/JalaliFlow.php:67-76 | the reductions split every non-negative day count into whole years from 979 and a day that fits the year |
| IntendedConversion.BlockReductionInverse | src/JalaliFlow.php:70-76 | a position in a cycle splits into a cycle year 0–32 and a day that fits that year |
| IntendedConversion.DateOfDayCount | src/JalaliFlow.php:52-89 | every non-negative day count converts to a valid date whose day count it is |
| IntendedConversion.RealJulianDayStillWrong | src/JalaliFlow.php:23-24 | even the corrected pair converts 2460756, the Julian Day of 2025-03-21 (1404/1/1), to 2381/10/11 |
| IntendedConversion.DayOfYearToDate | src/JalaliFlow.php:78-88 | a day that fits the year walks to a valid date with that day of the year |
| Holidays.IsHoliday | src/JalaliFlow.php:36-39 | a string is a holiday exactly when it is `1404/01/01` or `1404/01/02` |
| Holidays.HolidaysAreExactStrings | src/JalaliFlow.php:7-11 | holidays are 10-character strings beginning `1404/01/`; `1404/1/1` and `1404-01-01` are not holidays |
| Events.AddEvent | src/JalaliFlow.php:41-49 | a missing `title` ends the call with an undefined-key error, and otherwise a missing `date` does. With both present, `title` and `date` are copied and `repeat` is copied when present and `"none"` otherwise |
| Events.AddEventIgnoresOtherKeys | src/JalaliFlow.php:41-49 | keys other than `title`, `date` and `repeat` never change the outcome |
| Events.AddEventReadsOnlyItsKeys | src/JalaliFlow.php:41-49 | arrays that agree on `title`, `date` and `repeat` give the same outcome |

## Left out

- `toJalali` and `toGregorian` (src/JalaliFlow.php:13-34) are not modelled. They wrap the
  conversions in `DateTime` parsing, the calendar extension's `gregoriantojd` and
  `jdtogregorian`, the package configuration and `sprintf`, none of which is visible here.
  Their inputs enter the model only as a Julian Day value or an integer triple.
- The Artisan commands, service provider, model trait, migration and stored event model are
  not part of this model: they are framework glue with no calendar arithmetic.
- The model uses integer inputs. `jalaliToJd` receives strings from `explode` in the code;
  PHP's numeric-string conversion is not modelled.
- Julian Day inputs that are not multiples of one half are not modelled. The code accepts any
  float, but its sources of Julian Day values produce whole numbers.
- PHP floats lose precision above 2^53. The model's integers do not; the code's values stay
  far below that bound.
- Events.AddEvent: a missing `title` or `date` is modelled as the `ErrorException` that
  Laravel's error handler makes of PHP's "Undefined array key" warning. Outside that handler
  PHP logs the warning and continues with `null`; that path is not modelled.
- Events.AddEvent: an array entry that is present but `null` is not modelled. Entries are
  strings, so `??` on `repeat` falls back to `"none"` only when the key is missing.
- `%=` on the `n.5` offset (src/JalaliFlow.php:68) makes PHP 8.1 and later emit an
  `E_DEPRECATED` notice ("Implicit conversion from float … to int loses precision") on every
  call with a whole Julian Day. That logging effect is not modelled, only the truncation.
- Holidays.IsHoliday: the `$holidays` entries are all non-null, so `isset` is modelled as key
  membership. The code has no per-year holiday rules, custom overlay, working-day checks or
  Islamic holidays.
- Validation of Jalali dates, formatting, date arithmetic, differences and the Hijri calendar
  have no code in `src/JalaliFlow.php` and are not modelled.

## Findings

| source | as written | input that shows it | evidently intended | confidence | as-written member | corrected member |
|---|---|---|---|---|---|---|
| src/JalaliFlow.php:54-66 | `jdToJalali` subtracts `1948320.5 + 79` and also `$g_day_no`. That count is computed from the constant `$gy = 1600`, so it is always 1168788 | `jalaliToJd(1404, 1, 1)` is 2103628.5, and converting it back gives a negative offset and a year of at most 946. Julian Day 2460756 gives (-852, 1, -1185) | `jdToJalali` is the inverse of `jalaliToJd` (whose epoch is itself not the Julian Day epoch): the offset is `jd - (1948320.5 + 79)`. Even then real Julian Days are misconverted: 2460756 gives 2381/10/11 (`IntendedConversion.RealJulianDayStillWrong`) | not executed | FromJulianDay.RoundTripFails | IntendedConversion.RoundTrip |
| src/JalaliFlow.php:78 | `$days_in_month` gives month 12 only 29 days. Yet the block split (lines 73-76) leaves day of the year 365 in the first year of each 4-year block, and the walk turns that day into month 13, day 1 | Julian Day 3117553 converts to (979, 13, 1) | day 365 of a leap year is month 12, day 30, the date `jalaliToJd` counts there (line 97) | not executed | FromJulianDay.Month13Example | IntendedConversion.DayOfYearToDate |
