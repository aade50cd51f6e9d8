/**
 The conversion `jdToJalali` evidently aims at: the inverse of `jalaliToJd`,
 whose epoch is itself not the Julian Day epoch.

 Two changes to the code make it so:
 - the offset is `jd - (1948320.5 + 79)`, the exact reverse of the shift added by
   `jalaliToJd`, instead of also subtracting the input-independent `$g_day_no`;
 - the month table gives month 12 thirty days, so that day 365 of a 366-day year
   is month 12, day 30, instead of month 13, day 1.

 With both, the two conversions are inverse to each other on every date from
 year 979 on (the years whose offset is non-negative). They still do not agree
 with real Julian Days: the one `gregoriantojd` gives for 2025-03-21, the first
 day of 1404, converts to 2381/10/11.
 */
module IntendedConversion {
  import opened PhpArith
  import opened Calendar
  import opened LeapYear
  import opened ToJulianDay
  import opened MonthWalk
  import opened FromJulianDay

  /** The month table with a 30-day month 12. */
  const IntendedTable: seq<int> := [31, 31, 31, 31, 31, 31, 30, 30, 30, 30, 30, 30]

  /** `$j_day_no` without the reference count, in half days. */
  function IntendedOffset(jd: JulianDay): (off: int)
    ensures off % 2 == 0 <==> jd.IsHalfPast()
  {
    jd.halves - ShiftHalves
  }

  function JdToJalaliIntended(jd: JulianDay): (date: Date)
    ensures date.month >= 1
  {
    FromOffset(IntendedOffset(jd), IntendedTable)
  }

  /** A calendar date by the month lengths `jalaliToJd` uses, from year 979 on. */
  predicate ValidDate(date: Date)
  {
    date.year >= 979 && 1 <= date.month <= 12 && 1 <= date.day <= MonthLength(date.year, date.month)
  }

  /** Zero-based day of the year, as the month loop of `jalaliToJd` counts it. */
  function DayOfYear(date: Date): int
  {
    MonthPrefix(date.year, date.month) + date.day - 1
  }

  /** Days from the first day of year 979, as `jalaliToJd` counts them. */
  function DaysFrom979(date: Date): int
  {
    365 * (date.year - 979) + CycleDays(date.year - 979) + DayOfYear(date)
  }

  lemma IntendedTableFacts()
    ensures PositiveTable(IntendedTable)
    ensures TableStart(IntendedTable, 12) == 366
  {
    IntendedTableClosedForm(11);
  }

  lemma {:induction false} IntendedTableClosedForm(k: nat)
    requires k <= 11
    ensures TableStart(IntendedTable, k) == if k <= 6 then 31 * k else 186 + 30 * (k - 6)
  {
    if k > 0 {
      IntendedTableClosedForm(k - 1);
    }
  }

  lemma IntendedTableIsMonthPrefix(year: int, month: int)
    requires 1 <= month <= 12
    ensures TableStart(IntendedTable, month - 1) == MonthPrefix(year, month)
  {
    IntendedTableClosedForm(month - 1);
  }

  /** The day of the year of a valid date is below the year's length. */
  lemma DayOfYearBound(date: Date)
    requires ValidDate(date)
    ensures 0 <= DayOfYear(date) <= (if IsLeapYear(date.year) then 365 else 364)
  {
  }

  /** The intended offset of `jalaliToJd`'s result counts the days from year 979. */
  lemma OffsetOfDate(date: Date)
    ensures IntendedOffset(JalaliToJd(date.year, date.month, date.day)) == 2 * DaysFrom979(date)
  {
  }

  /** Converting a valid date to a Julian Day and back gives the date again. */
  lemma RoundTrip(date: Date)
    requires ValidDate(date)
    ensures JdToJalaliIntended(JalaliToJd(date.year, date.month, date.day)) == date
  {
    OffsetOfDate(date);
    FromOffsetOfDate(date, IntendedOffset(JalaliToJd(date.year, date.month, date.day)));
  }

  lemma FromOffsetOfDate(date: Date, off: int)
    requires ValidDate(date)
    requires off == 2 * DaysFrom979(date)
    ensures FromOffset(off, IntendedTable) == date
  {
    YearAndDayOfDate(date, off);
    MonthOfIntendedDay(date);
    AssembleDate(date, off, DayOfYear(date));
  }

  /** The conversion is the cycle reductions followed by the month walk. */
  lemma AssembleDate(date: Date, off: int, doy: int)
    requires ReduceCycles(off) == YearDay(date.year, doy)
    requires MonthOfDay(IntendedTable, doy) == MonthDay(date.month, date.day)
    ensures FromOffset(off, IntendedTable) == date
  {
  }

  /** The reductions of the day count of a valid date recover its year and
      its day of the year. */
  lemma YearAndDayOfDate(date: Date, off: int)
    requires ValidDate(date)
    requires off == 2 * DaysFrom979(date)
    ensures ReduceCycles(off) == YearDay(date.year, DayOfYear(date))
  {
    DayOfYearBound(date);
    LeapByCyclePosition(date.year);
    ReduceDayCount(off, date.year - 979, DayOfYear(date));
  }

  /** The walk over the intended table inverts the month prefix. */
  lemma MonthOfIntendedDay(date: Date)
    requires ValidDate(date)
    ensures MonthOfDay(IntendedTable, DayOfYear(date)) == MonthDay(date.month, date.day)
  {
    MonthFitsIntendedTable(date.year, date.month);
    IntendedTableFacts();
    IntendedTableIsMonthPrefix(date.year, date.month);
    WalkInvertsAt(IntendedTable, date.month, date.day, DayOfYear(date));
  }

  /** No month of `jalaliToJd` is longer than the intended table's entry. */
  lemma MonthFitsIntendedTable(year: int, month: int)
    requires 1 <= month <= 12
    ensures MonthLength(year, month) <= IntendedTable[month - 1]
  {
    if month <= 6 {
      assert IntendedTable[month - 1] == 31;
    } else {
      assert IntendedTable[month - 1] == 30;
    }
  }

  /** `CycleDays` at position `r` of cycle `q`. */
  lemma CycleDaysAt(q: int, r: int)
    requires q >= 0 && 0 <= r < 33
    ensures CycleDays(33 * q + r) == 8 * q + (r + 3) / 4
  {
    assert FloorDiv(33 * q + r, 33) == q;
    assert TruncRem(33 * q + r, 33) == r;
  }

  /** The reductions recover the year and the day of the year from the day
      count `jalaliToJd` forms, as long as the day fits the year. */
  lemma ReduceDayCount(off: int, gy: int, doy: int)
    requires gy >= 0 && 0 <= doy
    requires doy <= (if (gy % 33) % 4 == 0 && gy % 33 != 32 then 365 else 364)
    requires off == 2 * (365 * gy + CycleDays(gy) + doy)
    ensures ReduceCycles(off) == YearDay(979 + gy, doy)
  {
    var q, r := gy / 33, gy % 33;
    var k, j := r / 4, r % 4;
    var w := 365 * r + (r + 3) / 4 + doy;
    var v := BlockYearStart(j) + doy;
    CycleDaysAt(q, r);
    assert w == 1461 * k + v;
    IntendedCycleSteps(off, q, w, k, v);
    assert SplitBlock(v) == BlockPosition(j, doy);
  }

  /** The cycle and block reductions of the code, for a non-negative offset
      whose position in its cycle and block are known. */
  lemma IntendedCycleSteps(off: int, q: int, w: int, k: int, v: int)
    requires off == 2 * (12053 * q + w) && q >= 0
    requires 0 <= w < 12053 && w == 1461 * k + v && 0 <= v < 1461
    ensures FloorDiv(off, 2 * 12053) == q
    ensures TruncRem(TruncDiv(off, 2), 12053) == w
    ensures FloorDiv(w, 1461) == k && TruncRem(w, 1461) == v
  {
  }

  /** Every Julian Day of the form `n.5` from 1948399.5 on converts to a
      valid date that `jalaliToJd` maps back to the same Julian Day. */
  lemma RoundTripFromJd(jd: JulianDay)
    requires jd.IsHalfPast() && IntendedOffset(jd) >= 0
    ensures ValidDate(JdToJalaliIntended(jd))
    ensures var date := JdToJalaliIntended(jd);
            JalaliToJd(date.year, date.month, date.day) == jd
  {
    var dayCount := IntendedOffset(jd) / 2;
    assert IntendedOffset(jd) == 2 * dayCount;
    DateOfDayCount(dayCount);
    var date := FromOffset(2 * dayCount, IntendedTable);
    assert JdToJalaliIntended(jd) == date;
    OffsetOfDate(date);
  }

  /** A non-negative day count converts to a valid date whose day count it is. */
  lemma DateOfDayCount(dayCount: int)
    requires dayCount >= 0
    ensures var date := FromOffset(2 * dayCount, IntendedTable);
            ValidDate(date) && dayCount == DaysFrom979(date)
  {
    var yd := ReduceCycles(2 * dayCount);
    ReduceCyclesInverse(dayCount);
    LeapByCyclePosition(yd.year);
    DateOfYearDay(dayCount, yd.year, yd.dayOfYear);
  }

  /** A day count made of whole years from 979 and a day that fits the year
      belongs to the date the month walk gives for that day. */
  lemma DateOfYearDay(dayCount: int, year: int, t: int)
    requires year >= 979 && 0 <= t <= (if IsLeapYear(year) then 365 else 364)
    requires dayCount == 365 * (year - 979) + CycleDays(year - 979) + t
    ensures var md := MonthOfDay(IntendedTable, t);
            var date := Date(year, md.month, md.day);
            ValidDate(date) && dayCount == DaysFrom979(date)
  {
    DayOfYearToDate(year, t);
  }

  /** A day of the year that fits the year walks, over the intended table,
      to a valid date of that year and that day of the year. */
  lemma DayOfYearToDate(year: int, t: int)
    requires year >= 979 && 0 <= t <= (if IsLeapYear(year) then 365 else 364)
    ensures var md := MonthOfDay(IntendedTable, t);
            ValidDate(Date(year, md.month, md.day)) && DayOfYear(Date(year, md.month, md.day)) == t
  {
    IntendedTableFacts();
    WalkInsideYear(IntendedTable, t);
    var md := MonthOfDay(IntendedTable, t);
    IntendedTableIsMonthPrefix(year, md.month);
    IntendedDayFits(year, md.month, md.day, t);
  }

  /** A day the intended table allows is within the month's length, except
      for day 30 of month 12, which only a leap year reaches. */
  lemma IntendedDayFits(year: int, month: int, day: int, t: int)
    requires 1 <= month <= 12 && 1 <= day <= IntendedTable[month - 1]
    requires MonthPrefix(year, month) + day - 1 == t <= (if IsLeapYear(year) then 365 else 364)
    ensures day <= MonthLength(year, month)
  {
    if month == 12 && !IsLeapYear(year) {
      assert MonthPrefix(year, 12) == 336;
    }
  }

  /** The reductions split a non-negative day count into whole years from
      979 and a day of the year that fits the year. */
  lemma ReduceCyclesInverse(dayCount: int)
    requires dayCount >= 0
    ensures var yd := ReduceCycles(2 * dayCount);
            var gy := yd.year - 979;
            gy >= 0 && 0 <= yd.dayOfYear
            && yd.dayOfYear <= (if (gy % 33) % 4 == 0 && gy % 33 != 32 then 365 else 364)
            && dayCount == 365 * gy + CycleDays(gy) + yd.dayOfYear
  {
    var q, w := dayCount / 12053, dayCount % 12053;
    IntendedCycleSteps(2 * dayCount, q, w, w / 1461, w % 1461);
    var yd := ReduceBlocks(w);
    BlockReductionInverse(w);
    CyclesThenBlocks(2 * dayCount, q, w);
    YearOfCyclePosition(dayCount, q, yd.year, yd.dayOfYear);
  }

  /** `ReduceCycles` is the whole-cycle count followed by the block reduction
      of the position in the cycle. */
  lemma CyclesThenBlocks(off: int, q: int, w: int)
    requires FloorDiv(off, 2 * 12053) == q && TruncRem(TruncDiv(off, 2), 12053) == w
    ensures ReduceCycles(off) == YearDay(979 + 33 * q + ReduceBlocks(w).year, ReduceBlocks(w).dayOfYear)
  {
  }

  /** Whole cycles and a position inside a cycle make up the year count that
      `jalaliToJd` forms. */
  lemma YearOfCyclePosition(dayCount: int, q: int, r: int, doy: int)
    requires q >= 0 && 0 <= r <= 32
    requires dayCount == 12053 * q + 365 * r + (r + 3) / 4 + doy
    ensures var gy := 33 * q + r;
            gy % 33 == r && dayCount == 365 * gy + CycleDays(gy) + doy
  {
    CycleDaysAt(q, r);
    assert 365 * (33 * q + r) == 12045 * q + 365 * r;
  }

  /** The block reduction splits a position in a cycle into whole years of
      the cycle and a day of the year that fits the year. */
  lemma BlockReductionInverse(w: int)
    requires 0 <= w < 12053
    ensures var yd := ReduceBlocks(w);
            var r := yd.year;
            0 <= r <= 32 && 0 <= yd.dayOfYear
            && yd.dayOfYear <= (if r % 4 == 0 && r != 32 then 365 else 364)
            && w == 365 * r + (r + 3) / 4 + yd.dayOfYear
  {
    var k, v := w / 1461, w % 1461;
    assert FloorDiv(w, 1461) == k && TruncRem(w, 1461) == v;
    var p := SplitBlock(v);
    if k == 8 {
      assert p.years == 0 && p.dayOfYear <= 364;
    }
    var r := 4 * k + p.years;
    assert ReduceBlocks(w) == YearDay(r, p.dayOfYear);
    assert (r + 3) / 4 == k + (if p.years == 0 then 0 else 1);
  }

  /** The corrected pair still misconverts real Julian Days: 2460756, which
      `gregoriantojd` gives for 2025-03-21 (1404/1/1), becomes 2381/10/11. */
  lemma RealJulianDayStillWrong()
    ensures JdToJalaliIntended(WholeDay(2460756)) == Date(2381, 10, 11)
  {
    var off := IntendedOffset(WholeDay(2460756));
    assert off == 1024713;
    assert TruncDiv(off, 2) == 512356 && FloorDiv(off, 2 * 12053) == 42;
    assert TruncRem(512356, 12053) == 6130;
    assert FloorDiv(6130, 1461) == 4 && TruncRem(6130, 1461) == 286;
    assert ReduceBlocks(6130) == YearDay(16, 286);
    assert ReduceCycles(off) == YearDay(2381, 286);
    IntendedTableFacts();
    IntendedTableClosedForm(9);
    WalkInvertsAt(IntendedTable, 10, 11, 286);
  }
}
