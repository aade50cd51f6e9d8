/**
 `isLeapYear`: a year is leap when its PHP remainder modulo 33 is one of eight
 fixed residues.
 */
module LeapYear {
  import opened PhpArith

  /** Membership in the list `[1, 5, 9, 13, 17, 22, 26, 30]` of the `in_array` call. */
  predicate IsLeapResidue(r: int)
  {
    r == 1 || r == 5 || r == 9 || r == 13 || r == 17 || r == 22 || r == 26 || r == 30
  }

  /** PHP's `$year % 33` keeps the sign of the year, so no negative year is leap. */
  function IsLeapYear(year: int): (leap: bool)
    ensures year < 0 ==> !leap
    ensures year >= 0 ==> (leap <==> IsLeapResidue(year % 33))
  {
    IsLeapResidue(TruncRem(year, 33))
  }

  /** The residue form of the rule: the intercalation formula
      `((year + 12) mod 33) mod 4 == 1` selects the same non-negative years. */
  lemma LeapMatchesResidueFormula(year: int)
    requires year >= 0
    ensures IsLeapYear(year) <==> ((year + 12) % 33) % 4 == 1
  {
    var r := year % 33;
    assert TruncRem(year, 33) == r;
    assert (year + 12) % 33 == (r + 12) % 33;
    ResidueTable(r);
  }

  /** The 33 residues, checked one by one. */
  lemma ResidueTable(r: int)
    requires 0 <= r < 33
    ensures IsLeapResidue(r) <==> ((r + 12) % 33) % 4 == 1
  {
  }

  /** Below zero the formula and the code part ways: -32 is congruent to 1
      modulo 33, which the formula calls leap, yet PHP computes -32 % 33 == -32. */
  lemma NegativeYearsDiverge()
    ensures !IsLeapYear(-32) && ((-32 + 12) % 33) % 4 == 1
  {
  }

  /** The rule repeats every 33 years (for non-negative years). */
  lemma LeapPeriodic(year: int)
    requires year >= 0
    ensures IsLeapYear(year + 33) == IsLeapYear(year)
  {
    assert (year + 33) % 33 == year % 33;
  }

  /** Number of leap years among `year, year + 1, ..., year + n - 1`. */
  function LeapCount(year: int, n: nat): (c: nat)
    ensures c <= n
  {
    if n == 0 then 0 else LeapCount(year, n - 1) + (if IsLeapYear(year + n - 1) then 1 else 0)
  }

  /** Any 33 consecutive non-negative years hold exactly 8 leap years. */
  lemma {:induction false} EightLeapYearsPerCycle(year: int)
    requires year >= 0
    ensures LeapCount(year, 33) == 8
    decreases year
  {
    if year % 33 == 0 {
      CycleFromStart(year / 33);
    } else {
      EightLeapYearsPerCycle(year - 1);
      ShiftWindow(year - 1, 33);
      LeapPeriodic(year - 1);
    }
  }

  /** Sliding a window by one year drops its first year and gains the next. */
  lemma {:induction false} ShiftWindow(year: int, n: nat)
    requires n >= 1
    ensures LeapCount(year + 1, n)
            == LeapCount(year, n) - (if IsLeapYear(year) then 1 else 0)
                                  + (if IsLeapYear(year + n) then 1 else 0)
  {
    if n > 1 {
      ShiftWindow(year, n - 1);
    }
  }

  /** Number of residues below `n` that the list contains. */
  function ResidueCount(n: nat): (c: nat)
    ensures c <= n
  {
    if n == 0 then 0 else ResidueCount(n - 1) + (if IsLeapResidue(n - 1) then 1 else 0)
  }

  /** A window that starts cycle `c` counts leap years as its residues do. */
  lemma {:induction false} CycleMatchesResidues(c: nat, n: nat)
    requires n <= 33
    ensures LeapCount(33 * c, n) == ResidueCount(n)
  {
    if n > 0 {
      CycleMatchesResidues(c, n - 1);
      LeapAtCyclePosition(c, n - 1);
    }
  }

  /** Year `k` of cycle `c` is leap exactly when `k` is a listed residue. */
  lemma LeapAtCyclePosition(c: nat, k: int)
    requires 0 <= k < 33
    ensures IsLeapYear(33 * c + k) == IsLeapResidue(k)
  {
    assert TruncRem(33 * c + k, 33) == k;
  }

  lemma CycleFromStart(c: nat)
    ensures LeapCount(33 * c, 33) == 8
  {
    CycleMatchesResidues(c, 33);
    EightResidues();
  }

  lemma EightResidues()
    ensures ResidueCount(33) == 8
  {
    assert ResidueCount(4) == 1;
    assert ResidueCount(8) == 2;
    assert ResidueCount(12) == 3;
    assert ResidueCount(16) == 4;
    assert ResidueCount(20) == 5;
    assert ResidueCount(24) == 6;
    assert ResidueCount(28) == 7;
  }

  /** The year boundary the calendar is known by: 1403 is leap, 1404 is not. */
  lemma Leap1403Not1404()
    ensures IsLeapYear(1403) && !IsLeapYear(1404)
  {
  }
}
