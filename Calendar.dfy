/**
 * The calendar check java.time.LocalDate.of performs: a year within
 * Year.MIN_VALUE..Year.MAX_VALUE, a month 1..12 and a day within the month
 * of the proleptic Gregorian calendar. Any other triple makes it throw
 * DateTimeException.
 */
module Calendar {

  const MIN_YEAR: int := -999999999
  const MAX_YEAR: int := 999999999

  datatype Date = Date(year: int, month: int, day: int)

  /** IsoChronology.isLeapYear. Dafny's % agrees with Java's on whether a remainder is zero. */
  predicate IsLeapYear(y: int)
  {
    y % 4 == 0 && (y % 100 != 0 || y % 400 == 0)
  }

  function DaysInMonth(y: int, m: int): int
    requires 1 <= m <= 12
  {
    if m == 2 then (if IsLeapYear(y) then 29 else 28)
    else if m == 4 || m == 6 || m == 9 || m == 11 then 30
    else 31
  }

  /** The triples LocalDate.of accepts. */
  predicate IsValidDate(d: Date)
  {
    MIN_YEAR <= d.year <= MAX_YEAR &&
    1 <= d.month <= 12 &&
    1 <= d.day <= DaysInMonth(d.year, d.month)
  }

  /** A LocalDate value: always a valid date. */
  type LocalDate = d: Date | IsValidDate(d) witness Date(1970, 1, 1)

  lemma DaysInMonthBound(y: int, m: int)
    requires 1 <= m <= 12
    ensures 28 <= DaysInMonth(y, m) <= 31
  {
  }
}
