/** The subset of `java.time.LocalDate` the model needs: proleptic Gregorian
    (ISO 8601) calendar dates ordered chronologically. */
module Dates {

  /** The year range of `LocalDate` (`Year.MIN_VALUE` .. `Year.MAX_VALUE`). */
  const MinYear: int := -999_999_999
  const MaxYear: int := 999_999_999

  datatype Date = Date(year: int, month: int, day: int)

  /** An opaque `LocalDateTime`: only ever copied, never inspected. */
  datatype LocalDateTime = LocalDateTime(date: Date, nanoOfDay: nat)

  /** `IsoChronology.isLeapYear`. Java tests `(y & 3) == 0` and `y % 100`,
      `y % 400` against zero; those tests agree with Euclidean remainders for
      negative years as well. */
  predicate IsLeapYear(y: int) {
    y % 4 == 0 && (y % 100 != 0 || y % 400 == 0)
  }

  /** `Month.length(leapYear)`. */
  function LengthOfMonth(year: int, month: int): (n: int)
    requires 1 <= month <= 12
    ensures 28 <= n <= 31
    ensures n == 29 <==> month == 2 && IsLeapYear(year)
    ensures n == 28 <==> month == 2 && !IsLeapYear(year)
    ensures n == 30 <==> month in {4, 6, 9, 11}
  {
    if month == 2 then (if IsLeapYear(year) then 29 else 28)
    else if month == 4 || month == 6 || month == 9 || month == 11 then 30
    else 31
  }

  /** Every `LocalDate` value satisfies this. */
  predicate ValidDate(d: Date) {
    && MinYear <= d.year <= MaxYear
    && 1 <= d.month <= 12
    && 1 <= d.day <= LengthOfMonth(d.year, d.month)
  }

  /** Chronological order (`LocalDate.compareTo(..) <= 0`). */
  predicate DateLe(a: Date, b: Date) {
    || a.year < b.year
    || (a.year == b.year && a.month < b.month)
    || (a.year == b.year && a.month == b.month && a.day <= b.day)
  }

  /** Month order: `YearMonth.compareTo(..) <= 0`. */
  predicate MonthLe(a: Date, b: Date) {
    a.year < b.year || (a.year == b.year && a.month <= b.month)
  }

  lemma DateLeTotalOrder(a: Date, b: Date, c: Date)
    ensures DateLe(a, a)
    ensures DateLe(a, b) || DateLe(b, a)
    ensures DateLe(a, b) && DateLe(b, a) ==> a == b
    ensures DateLe(a, b) && DateLe(b, c) ==> DateLe(a, c)
  {
  }
}
