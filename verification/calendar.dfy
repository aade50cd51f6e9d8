/**
 Values exchanged by the Jalali conversion routines of the `JalaliFlow` class.
 */
module Calendar {

  /** A Jalali (year, month, day) triple exactly as the conversion returns it:
      nothing forces the fields into calendar range, because the code does not. */
  datatype Date = Date(year: int, month: int, day: int)

  /** A Julian Day value held in half days, so that the `.5` offsets used by
      the code stay exact: the value denoted is `halves / 2`. */
  datatype JulianDay = JulianDay(halves: int)
  {
    /** The value is a whole number plus one half (`n.5`). */
    predicate IsHalfPast()
    {
      halves % 2 == 1
    }
  }

  /** A Julian Day value given as a whole number, as the PHP calendar
      extension's `gregoriantojd` returns it. */
  function WholeDay(n: int): (j: JulianDay)
    ensures j.halves == 2 * n && !j.IsHalfPast()
  {
    JulianDay(2 * n)
  }

  /** A position within a year: month number and day of month. */
  datatype MonthDay = MonthDay(month: int, day: int)

  /** Lexicographic order on (month, day). */
  predicate LexLe(a: MonthDay, b: MonthDay)
  {
    a.month < b.month || (a.month == b.month && a.day <= b.day)
  }
}
