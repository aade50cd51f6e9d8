/**
 The month walk at the end of `jdToJalali`: starting from a zero-based day of
 the year, whole months are subtracted from a table of month lengths while the
 remaining count still covers the current month, at most twelve times; the month
 is the number of months passed plus one and the day is what remains plus one.

 The walk is stated for any twelve-entry table so that the table the code uses
 and a corrected one can share it.
 */
module MonthWalk {
  import opened Calendar

  /** `$days_in_month`: the table the code walks. */
  const MonthTable: seq<int> := [31, 31, 31, 31, 31, 31, 30, 30, 30, 30, 30, 29]

  predicate PositiveTable(table: seq<int>)
  {
    |table| == 12 && forall k :: 0 <= k < 12 ==> table[k] > 0
  }

  /** Days in the first `m` months of the table. */
  function TableStart(table: seq<int>, m: nat): int
    requires m <= |table|
  {
    if m == 0 then 0 else TableStart(table, m - 1) + table[m - 1]
  }

  /** The loop from index `i` with `t` days still to place. A non-negative
      count is placed at month `md.month`, `md.day - 1` days after that
      month's start; a month inside the table is never overrun. */
  function Walk(table: seq<int>, t: int, i: nat): (md: MonthDay)
    requires |table| == 12 && i <= 12
    ensures i + 1 <= md.month <= 13
    ensures t >= 0 ==> 1 <= md.day
                       && TableStart(table, md.month - 1) - TableStart(table, i) + md.day - 1 == t
                       && (md.month <= 12 ==> md.day <= table[md.month - 1])
    decreases 12 - i
  {
    if i < 12 && t >= table[i] then Walk(table, t - table[i], i + 1) else MonthDay(i + 1, t + 1)
  }

  /** The (month, day) of zero-based day `t` of the year. */
  function MonthOfDay(table: seq<int>, t: int): MonthDay
    requires |table| == 12
  {
    Walk(table, t, 0)
  }

  /** A day of the year written as (month, day) within the table's months. */
  predicate Represents(table: seq<int>, md: MonthDay, t: int)
    requires |table| == 12
  {
    1 <= md.month <= 12 && 1 <= md.day <= table[md.month - 1]
    && TableStart(table, md.month - 1) + md.day - 1 == t
  }

  lemma {:induction false} TableStartGrows(table: seq<int>, a: nat, b: nat)
    requires PositiveTable(table)
    requires a <= b <= 12
    ensures TableStart(table, a) <= TableStart(table, b)
    ensures a < b ==> TableStart(table, a) + table[a] <= TableStart(table, b)
    decreases b
  {
    if a < b {
      TableStartGrows(table, a, b - 1);
    }
  }

  /** Within the table's months a day of the year has one representation. */
  lemma RepresentationUnique(table: seq<int>, md1: MonthDay, md2: MonthDay, t: int)
    requires PositiveTable(table)
    requires Represents(table, md1, t) && Represents(table, md2, t)
    ensures md1 == md2
  {
    if md1.month < md2.month {
      TableStartGrows(table, md1.month - 1, md2.month - 1);
    } else if md2.month < md1.month {
      TableStartGrows(table, md2.month - 1, md1.month - 1);
    }
  }

  /** Days inside the table's year walk to a month of the table. */
  lemma WalkInsideYear(table: seq<int>, t: int)
    requires PositiveTable(table)
    requires 0 <= t < TableStart(table, 12)
    ensures Represents(table, MonthOfDay(table, t), t)
  {
    var md := MonthOfDay(table, t);
    if md.month == 13 {
      assert false;
    }
  }

  /** Every (month, day) inside the table is reached from its day of the year:
      the walk inverts `TableStart`. */
  lemma WalkInverts(table: seq<int>, md: MonthDay)
    requires PositiveTable(table)
    requires 1 <= md.month <= 12 && 1 <= md.day <= table[md.month - 1]
    ensures MonthOfDay(table, TableStart(table, md.month - 1) + md.day - 1) == md
  {
    var t := TableStart(table, md.month - 1) + md.day - 1;
    TableStartGrows(table, 0, md.month - 1);
    TableStartGrows(table, md.month - 1, 12);
    if md.month < 12 {
      TableStartGrows(table, md.month, 12);
    }
    assert TableStart(table, md.month) == TableStart(table, md.month - 1) + table[md.month - 1];
    WalkInsideYear(table, t);
    RepresentationUnique(table, MonthOfDay(table, t), md, t);
  }

  /** `WalkInverts` for a day count given separately. */
  lemma WalkInvertsAt(table: seq<int>, month: int, day: int, t: int)
    requires PositiveTable(table)
    requires 1 <= month <= 12 && 1 <= day <= table[month - 1]
    requires t == TableStart(table, month - 1) + day - 1
    ensures MonthOfDay(table, t) == MonthDay(month, day)
  {
    var md := MonthDay(month, day);
    WalkInverts(table, md);
    assert TableStart(table, md.month - 1) + md.day - 1 == t;
  }

  /** Days past the table's year fall into a thirteenth month. */
  lemma WalkPastYear(table: seq<int>, t: int)
    requires PositiveTable(table)
    requires t >= TableStart(table, 12)
    ensures MonthOfDay(table, t) == MonthDay(13, t - TableStart(table, 12) + 1)
  {
    var md := MonthOfDay(table, t);
    if md.month <= 12 {
      TableStartGrows(table, md.month, 12);
      assert false;
    }
  }

  /** A later day of the year never walks to an earlier (month, day). */
  lemma WalkMonotone(table: seq<int>, t1: int, t2: int)
    requires PositiveTable(table)
    requires t1 <= t2
    ensures LexLe(MonthOfDay(table, t1), MonthOfDay(table, t2))
  {
    var md1, md2 := MonthOfDay(table, t1), MonthOfDay(table, t2);
    if t1 < 0 {
      assert md1 == MonthDay(1, t1 + 1);
    } else if md2.month < md1.month {
      TableStartGrows(table, md2.month, md1.month - 1);
      assert false;
    }
  }
}
