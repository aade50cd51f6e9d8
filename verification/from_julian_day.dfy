/**
 `jdToJalali`: a Julian Day value to a Jalali (year, month, day) triple.

 The code subtracts `1948320.5 + 79` from the input and then a reference count
 `$g_day_no` that it computes from the constant `$gy = 1600` alone, so the
 reference count is the same for every input. What remains is reduced modulo
 the 12053-day 33-year cycle and the 1461-day 4-year block, the block position
 is split into whole years and a day of the year, and the month walk turns the
 day of the year into (month, day).
 */
module FromJulianDay {
  import opened PhpArith
  import opened Calendar
  import opened LeapYear
  import opened ToJulianDay
  import opened MonthWalk

  /** `$g_day_no` increments made by the first `i` rounds of the loop:
      365 per round and one more when the round index is a multiple of 4. */
  function LoopDays(i: nat): int
  {
    if i == 0 then 0 else LoopDays(i - 1) + 365 + (if TruncRem(i - 1, 4) == 0 then 1 else 0)
  }

  lemma {:induction false} LoopDaysClosedForm(i: nat)
    ensures LoopDays(i) == 365 * i + (i + 3) / 4
  {
    if i > 0 {
      LoopDaysClosedForm(i - 1);
    }
  }

  /** `$g_day_no`: the value the code computes from `$gy = 1600` and the loop,
      the same for every input. */
  function ReferenceDayCount(): (n: int)
    ensures n == 1168788
  {
    var gy := 1600;
    LoopDaysClosedForm(gy);
    365 * gy + FloorDiv(gy + 3, 4) - FloorDiv(gy + 99, 100) + FloorDiv(gy + 399, 400) + LoopDays(gy)
  }

  /** `1948320.5 + 79` days in half days. */
  const ShiftHalves: int := EpochHalves + 2 * 79

  /** `$j_day_no` in half days: the input less `1948320.5 + 79` less the
      reference count, which always comes to `jd - 3117187.5`. */
  function DayOffset(jd: JulianDay): (off: int)
    ensures off == jd.halves - 6234375
  {
    jd.halves - ShiftHalves - 2 * ReferenceDayCount()
  }

  /** Years advanced inside a 4-year block and the resulting day of the year. */
  datatype BlockPosition = BlockPosition(years: int, dayOfYear: int)

  /** Offset of the start of year `k` of a 4-year block whose first year has
      366 days. */
  function BlockYearStart(k: int): int
  {
    if k == 0 then 0 else 365 * k + 1
  }

  /** The `$j_day_no >= 366` adjustment: a block position below 366 stays in
      the block's first year; a larger one advances one to three years and
      leaves a day of the year below 365. Either way the split is exact. */
  function SplitBlock(r: int): (p: BlockPosition)
    ensures r < 366 ==> p.years == 0 && p.dayOfYear == r
    ensures 366 <= r <= 1460 ==> 1 <= p.years <= 3 && 0 <= p.dayOfYear <= 364
    ensures r >= 0 ==> r == BlockYearStart(p.years) + p.dayOfYear
  {
    if r >= 366 then BlockPosition(FloorDiv(r - 1, 365), TruncRem(r - 1, 365)) else BlockPosition(0, r)
  }

  /** A year and a zero-based day of that year. */
  datatype YearDay = YearDay(year: int, dayOfYear: int)

  /** The block reduction of a position inside a 33-year cycle: whole years
      since the start of the cycle and the day of the year. A position in the
      cycle's 8 full blocks and its 5-year tail stays within 33 years. */
  function ReduceBlocks(inCycle: int): (yd: YearDay)
    ensures 0 <= inCycle < 12053 ==> 0 <= yd.year <= 32 && 0 <= yd.dayOfYear <= 365
    ensures -12053 < inCycle <= 0 ==> yd.year <= 0 && yd.dayOfYear <= 0
  {
    var p := SplitBlock(TruncRem(inCycle, 1461));
    YearDay(4 * FloorDiv(inCycle, 1461) + p.years, p.dayOfYear)
  }

  /** The cycle and block reductions: `off` is `$j_day_no` in half days. */
  function ReduceCycles(off: int): (yd: YearDay)
    ensures off >= 0 ==> yd.year >= 979 && 0 <= yd.dayOfYear <= 365
    ensures off < 0 ==> yd.year <= 946 && yd.dayOfYear <= 0
  {
    var cycles := FloorDiv(off, 2 * 12053);
    var position := TruncRem(TruncDiv(off, 2), 12053);
    CycleSplitRange(off, cycles, position);
    var inCycle := ReduceBlocks(position);
    YearDay(979 + 33 * cycles + inCycle.year, inCycle.dayOfYear)
  }

  /** The whole cycles and the position in the cycle have the sign of the offset. */
  lemma CycleSplitRange(off: int, cycles: int, position: int)
    requires cycles == FloorDiv(off, 2 * 12053) && position == TruncRem(TruncDiv(off, 2), 12053)
    ensures off >= 0 ==> cycles >= 0 && 0 <= position < 12053
    ensures off < 0 ==> cycles <= -1 && -12053 < position <= 0
  {
  }

  /** The conversion after the offset has been formed, for a given month table. */
  function FromOffset(off: int, table: seq<int>): (date: Date)
    requires |table| == 12
    ensures date.month >= 1
  {
    var yd := ReduceCycles(off);
    var md := MonthOfDay(table, yd.dayOfYear);
    Date(yd.year, md.month, md.day)
  }

  function JdToJalali(jd: JulianDay): (date: Date)
    ensures date.month >= 1
  {
    FromOffset(DayOffset(jd), MonthTable)
  }

  lemma MonthTableFacts()
    ensures PositiveTable(MonthTable)
    ensures TableStart(MonthTable, 12) == 365
  {
    assert TableStart(MonthTable, 12) == 365 by { TableStartClosedForm(11); }
  }

  lemma {:induction false} TableStartClosedForm(k: nat)
    requires k <= 11
    ensures TableStart(MonthTable, k) == if k <= 6 then 31 * k else 186 + 30 * (k - 6)
  {
    if k > 0 {
      TableStartClosedForm(k - 1);
    }
  }

  /** The table walked here and the lengths summed by `jalaliToJd` agree on
      the start of every month. */
  lemma TableStartIsMonthPrefix(year: int, month: int)
    requires 1 <= month <= 12
    ensures TableStart(MonthTable, month - 1) == MonthPrefix(year, month)
  {
    TableStartClosedForm(month - 1);
  }

  /** The month lengths `jalaliToJd` adds are the entries of `$days_in_month`
      for months 1 to 11; for month 12 the table is one day short in a leap year. */
  lemma MonthLengthIsTableEntry(year: int, i: int)
    requires 1 <= i <= 12
    ensures i <= 11 ==> MonthLength(year, i) == MonthTable[i - 1]
    ensures i == 12 ==> MonthLength(year, i) == MonthTable[11] + (if IsLeapYear(year) then 1 else 0)
  {
  }

  /** Days 0 to 364 walk to a month from 1 to 12 and a day within that month. */
  lemma DayOfYearInRange(t: int)
    requires 0 <= t <= 364
    ensures var md := MonthOfDay(MonthTable, t);
            1 <= md.month <= 12 && 1 <= md.day <= MonthTable[md.month - 1]
  {
    MonthTableFacts();
    WalkInsideYear(MonthTable, t);
  }

  /** The month prefix of `jalaliToJd` leads from the walked (month, day)
      back to the day of the year it came from. */
  lemma DayOfYearPrefix(year: int, t: int)
    requires 0 <= t <= 364
    ensures var md := MonthOfDay(MonthTable, t);
            MonthPrefix(year, md.month) + md.day - 1 == t
  {
    var md := MonthOfDay(MonthTable, t);
    MonthTableFacts();
    WalkInsideYear(MonthTable, t);
    assert TableStart(MonthTable, md.month - 1) + md.day - 1 == t;
    TableStartIsMonthPrefix(year, md.month);
  }

  /** Every month and day the table allows is reached from the day of the
      year that `jalaliToJd` assigns to it. */
  lemma DayOfYearRoundTrip(year: int, month: int, day: int)
    requires 1 <= month <= 12 && 1 <= day <= MonthTable[month - 1]
    ensures MonthOfDay(MonthTable, MonthPrefix(year, month) + day - 1) == MonthDay(month, day)
  {
    var md := MonthDay(month, day);
    MonthTableFacts();
    WalkInverts(MonthTable, md);
    TableStartIsMonthPrefix(year, month);
  }

  /** Day 365 and beyond walk past the table into a thirteenth month;
      day 365 itself becomes month 13, day 1. */
  lemma DayOfYearPastTable(t: int)
    requires t >= 365
    ensures MonthOfDay(MonthTable, t) == MonthDay(13, t - 364)
    ensures t == 365 ==> MonthOfDay(MonthTable, t) == MonthDay(13, 1)
  {
    MonthTableFacts();
    WalkPastYear(MonthTable, t);
  }

  /** A later day of the year never gives an earlier (month, day). */
  lemma DayOfYearMonotone(t1: int, t2: int)
    requires t1 <= t2
    ensures LexLe(MonthOfDay(MonthTable, t1), MonthOfDay(MonthTable, t2))
  {
    MonthTableFacts();
    WalkMonotone(MonthTable, t1, t2);
  }

  /** With a non-negative offset (`jd >= 3117187.5`) the result has a year
      from 979 on, a month from 1 to 13 and a positive day within the table's
      month; month 13 occurs only as its day 1, at day of the year 365. */
  lemma NonNegativeOffsetRange(jd: JulianDay)
    requires DayOffset(jd) >= 0
    ensures var date := JdToJalali(jd);
            date.year >= 979 && 1 <= date.month <= 13 && date.day >= 1
            && (date.month <= 12 ==> date.day <= MonthTable[date.month - 1])
            && (date.month == 13 ==> date.day == 1)
  {
    FromNonNegativeOffset(DayOffset(jd));
  }

  lemma FromNonNegativeOffset(off: int)
    requires off >= 0
    ensures var date := FromOffset(off, MonthTable);
            date.year >= 979 && 1 <= date.month <= 13 && date.day >= 1
            && (date.month <= 12 ==> date.day <= MonthTable[date.month - 1])
            && (date.month == 13 ==> date.day == 1)
  {
    var t := ReduceCycles(off).dayOfYear;
    if t <= 364 {
      DayOfYearInRange(t);
    } else {
      DayOfYearPastTable(t);
    }
  }

  /** With a negative offset the result is month 1 with a day of at most 1
      and a year of at most 946: no calendar date comes out. */
  lemma NegativeOffsetRange(jd: JulianDay)
    requires DayOffset(jd) < 0
    ensures var date := JdToJalali(jd);
            date.year <= 946 && date.month == 1 && date.day <= 1
  {
  }

  /** Adding one 12053-day cycle to an input with a non-negative offset adds
      33 to the year and leaves month and day unchanged. */
  lemma CycleShift(jd: JulianDay)
    requires DayOffset(jd) >= 0
    ensures var d1, d2 := JdToJalali(jd), JdToJalali(JulianDay(jd.halves + 2 * 12053));
            d2 == Date(d1.year + 33, d1.month, d1.day)
  {
    var off := DayOffset(jd);
    assert DayOffset(JulianDay(jd.halves + 2 * 12053)) == off + 2 * 12053;
    assert FloorDiv(off + 2 * 12053, 2 * 12053) == FloorDiv(off, 2 * 12053) + 1;
    assert TruncDiv(off + 2 * 12053, 2) == TruncDiv(off, 2) + 12053;
    assert TruncRem(TruncDiv(off, 2) + 12053, 12053) == TruncRem(TruncDiv(off, 2), 12053);
  }

  /** Julian Day 2460756 (Gregorian 2025-03-21, the first day of Jalali 1404)
      converts to a negative year and a non-positive day. */
  lemma PresentDayExample()
    ensures JdToJalali(WholeDay(2460756)) == Date(-852, 1, -1185)
  {
    assert DayOffset(WholeDay(2460756)) == -1312863;
    assert TruncDiv(-1312863, 2) == -656431;
    assert FloorDiv(-1312863, 2 * 12053) == -55;
    assert TruncRem(-656431, 12053) == -5569;
    assert FloorDiv(-5569, 1461) == -4 && TruncRem(-5569, 1461) == -1186;
    assert ReduceBlocks(-5569) == YearDay(-16, -1186);
    assert ReduceCycles(-1312863) == YearDay(-852, -1186);
    assert MonthOfDay(MonthTable, -1186) == MonthDay(1, -1185);
  }

  /** Julian Day 3117553 has offset 365.5; its day of the year is 365, which
      walks into month 13. */
  lemma Month13Example()
    ensures JdToJalali(WholeDay(3117553)) == Date(979, 13, 1)
  {
    assert DayOffset(WholeDay(3117553)) == 731;
    assert ReduceCycles(731) == YearDay(979, 365);
    DayOfYearPastTable(365);
  }

  /** Converting a date of years 979 to 4000 to a Julian Day and back never
      returns it: the offset is negative, so the year comes out at most 946. */
  lemma RoundTripFails(year: int, month: int, day: int)
    requires 979 <= year <= 4000 && 1 <= month <= 12 && 1 <= day <= 31
    ensures JdToJalali(JalaliToJd(year, month, day)).year < year
  {
    var jd := JalaliToJd(year, month, day);
    var gy := year - 979;
    assert CycleDays(gy) <= 8 * 91 + 8;
    assert DayCount(year, month, day) <= 365 * 3021 + 736 + 78 + 31 + 336;
    assert DayOffset(jd) < 0;
    NegativeOffsetRange(jd);
  }
}
