/**
 `jalaliToJd`: a Jalali (year, month, day) triple to a Julian Day value.

 The year contributes `365 * gy + floor(gy / 33) * 8 + floor((gy % 33 + 3) / 4)`
 days with `gy = year - 979`, the day of month is added as is, the months before
 `month` are summed one by one, and the fixed offset `78 + 1948320.5` is added.
 */
module ToJulianDay {
  import opened PhpArith
  import opened Calendar
  import opened LeapYear

  /** `1948320.5` in half days. */
  const EpochHalves: int := 3896641

  /** The length the loop adds for month `i`: 31 for the first six months,
      29 for month 12 of a non-leap year, otherwise 30. */
  function MonthLength(year: int, i: int): (n: int)
    ensures 29 <= n <= 31
  {
    if i <= 6 then 31 else if i == 12 && !IsLeapYear(year) then 29 else 30
  }

  /** Days added by the loop `for ($i = 1; $i < $month; ++$i)`. */
  function MonthPrefix(year: int, month: int): (days: int)
    ensures month <= 1 ==> days == 0
    ensures 1 <= month <= 7 ==> days == 31 * (month - 1)
    ensures 7 <= month <= 12 ==> days == 186 + 30 * (month - 7)
    ensures month >= 13 ==> days == 336 + (if IsLeapYear(year) then 30 else 29) + 30 * (month - 13)
    decreases month
  {
    if month <= 1 then 0 else MonthPrefix(year, month - 1) + MonthLength(year, month - 1)
  }

  /** Days contributed by whole 33-year cycles and the 4-year blocks begun in
      the current cycle, with PHP's truncating `%`. */
  function CycleDays(gy: int): int
  {
    FloorDiv(gy, 33) * 8 + FloorDiv(TruncRem(gy, 33) + 3, 4)
  }

  /** The day count `$days` before the Julian Day offset is added. */
  function DayCount(year: int, month: int, day: int): int
  {
    var gy := year - 979;
    365 * gy + CycleDays(gy) + 78 + day + MonthPrefix(year, month)
  }

  /** For integer inputs the result is always a whole number plus one half. */
  function JalaliToJd(year: int, month: int, day: int): (jd: JulianDay)
    ensures jd.IsHalfPast()
  {
    JulianDay(2 * DayCount(year, month, day) + EpochHalves)
  }

  /** Raising the day by one raises the result by exactly one day. */
  lemma DayStep(year: int, month: int, day: int)
    ensures JalaliToJd(year, month, day + 1).halves == JalaliToJd(year, month, day).halves + 2
  {
  }

  /** Moving to the next month adds the length of the current month: 31 for
      months 1 to 6, 30 for months 7 to 11, and 29 or 30 for month 12. */
  lemma MonthStep(year: int, month: int, day: int)
    requires 1 <= month <= 12
    ensures JalaliToJd(year, month + 1, day).halves - JalaliToJd(year, month, day).halves
            == 2 * (if month <= 6 then 31 else if month <= 11 then 30
                    else if IsLeapYear(year) then 30 else 29)
  {
  }

  /** For months up to 12 the `$i == 12` branch is never taken, so the
      result does not depend on whether the year is leap. */
  lemma LeapNeverConsulted(year1: int, year2: int, month: int, day: int)
    requires month <= 12
    ensures JalaliToJd(year1, month, day).halves - JalaliToJd(year1, 1, 1).halves
            == JalaliToJd(year2, month, day).halves - JalaliToJd(year2, 1, 1).halves
  {
  }

  /** Within a 33-year cycle, the year at position `r` is 366 days long
      exactly when `r` is a multiple of 4 other than 32. */
  lemma CycleStep(gy: int)
    requires gy >= 0
    ensures CycleDays(gy + 1) - CycleDays(gy)
            == (if (gy % 33) % 4 == 0 && gy % 33 != 32 then 1 else 0)
  {
    var q, r := gy / 33, gy % 33;
    assert gy == 33 * q + r;
    if r < 32 {
      assert FloorDiv(gy + 1, 33) == q;
      assert TruncRem(gy + 1, 33) == r + 1;
    } else {
      assert FloorDiv(gy + 1, 33) == q + 1;
      assert TruncRem(gy + 1, 33) == 0;
    }
  }

  /** Cycle positions holding a 366-day year are exactly the years the
      residue table calls leap (979 is congruent to 22 modulo 33). */
  lemma CyclePositionIsLeap(r: int)
    requires 0 <= r < 33
    ensures IsLeapResidue((r + 22) % 33) <==> r % 4 == 0 && r != 32
  {
    if r < 11 {
      assert (r + 22) % 33 == r + 22;
    } else {
      assert (r + 22) % 33 == r - 11;
    }
  }

  /** From year 979 on, a year is 366 days long exactly when `isLeapYear`
      says it is leap, and 365 days long otherwise. */
  lemma YearStep(year: int, month: int, day: int)
    requires year >= 979
    requires month <= 12
    ensures JalaliToJd(year + 1, month, day).halves - JalaliToJd(year, month, day).halves
            == 2 * (if IsLeapYear(year) then 366 else 365)
  {
    var gy := year - 979;
    YearLengthIsLeap(year);
    assert MonthPrefix(year + 1, month) == MonthPrefix(year, month);
    assert DayCount(year + 1, month, day) - DayCount(year, month, day)
           == 365 + CycleDays(gy + 1) - CycleDays(gy);
  }

  /** The cycle term grows by one day across year `year` exactly when the
      year is leap. */
  lemma YearLengthIsLeap(year: int)
    requires year >= 979
    ensures CycleDays(year - 978) - CycleDays(year - 979) == if IsLeapYear(year) then 1 else 0
  {
    CycleStep(year - 979);
    LeapByCyclePosition(year);
  }

  /** The position `(year - 979) % 33` of a year in its cycle decides
      whether the year is leap. */
  lemma LeapByCyclePosition(year: int)
    requires year >= 979
    ensures var r := (year - 979) % 33;
            IsLeapYear(year) <==> r % 4 == 0 && r != 32
  {
    var r := (year - 979) % 33;
    var residue := TruncRem(year, 33);
    assert residue == (r + 22) % 33;
    CyclePositionIsLeap(r);
  }

  /** Below year 979 `gy` is negative and PHP's `%` keeps its sign, which
      breaks the cycle: year 978 comes out 373 days long. */
  lemma Year978Has373Days()
    ensures JalaliToJd(979, 1, 1).halves - JalaliToJd(978, 1, 1).halves == 2 * 373
  {
  }

  /** 1404/1/1, the day the calendar extension numbers 2460756 (Gregorian
      2025-03-21), maps to 2103628.5: the result counts days from an epoch of
      the code's own rather than the Julian Day epoch. */
  lemma Nowruz1404Example()
    ensures JalaliToJd(1404, 1, 1) == JulianDay(2 * 2103628 + 1)
  {
    assert CycleDays(425) == 104;
  }
}
