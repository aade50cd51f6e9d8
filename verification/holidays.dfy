/**
 `isHoliday`: exact key lookup in the class's fixed `$holidays` table.
 */
module Holidays {

  /** The description stored for both entries (the Persian word for the new year). */
  const Nowruz: string := "\U{0646}\U{0648}\U{0631}\U{0648}\U{0632}"

  /** `$holidays`: two fixed keys in `YYYY/MM/DD` form. */
  const HolidayTable: map<string, string> := map["1404/01/01" := Nowruz, "1404/01/02" := Nowruz]

  /** `isset($this->holidays[$jalaliDate])`. No entry of the table is null, so
      this is key membership; the string is not parsed or normalised. */
  function IsHoliday(jalaliDate: string): (holiday: bool)
    ensures holiday <==> jalaliDate == "1404/01/01" || jalaliDate == "1404/01/02"
  {
    jalaliDate in HolidayTable
  }

  /** Both holidays are the first two days of month 1 of 1404; any other
      spelling of those days, such as `1404/1/1`, is not a holiday. */
  lemma HolidaysAreExactStrings(jalaliDate: string)
    requires IsHoliday(jalaliDate)
    ensures |jalaliDate| == 10 && jalaliDate[..8] == "1404/01/"
    ensures !IsHoliday("1404/1/1") && !IsHoliday("1404-01-01")
  {
  }
}
