/** Calendar days as the journal stores them (a `DateField`), their order,
    and the month and year truncations used by the statistics. Week
    truncation depends on weekday arithmetic and is passed in as a function
    where it is needed. */
module Dates {

  datatype Date = Date(year: int, month: int, day: int)

  predicate IsLeapYear(y: int) {
    y % 4 == 0 && (y % 100 != 0 || y % 400 == 0)
  }

  function DaysInMonth(y: int, m: int): int
    requires 1 <= m <= 12
  {
    if m == 2 then (if IsLeapYear(y) then 29 else 28)
    else if m == 4 || m == 6 || m == 9 || m == 11 then 30
    else 31
  }

  /** A day that exists in the Gregorian calendar. */
  predicate ValidDate(d: Date) {
    1 <= d.month <= 12 && 1 <= d.day <= DaysInMonth(d.year, d.month)
  }

  /** Strict chronological order: `a` is an earlier day than `b`. */
  predicate Before(a: Date, b: Date) {
    a.year < b.year
    || (a.year == b.year && (a.month < b.month || (a.month == b.month && a.day < b.day)))
  }

  /** `a` is the same day as `b` or a later one (the `__gte` lookup). */
  predicate OnOrAfter(a: Date, b: Date) {
    !Before(a, b)
  }

  /** `d.replace(day=1)`, which is also what month truncation yields. */
  function FirstOfMonth(d: Date): Date {
    d.(day := 1)
  }

  /** Year truncation: the first of January of `d`'s year. */
  function FirstOfYear(d: Date): Date {
    Date(d.year, 1, 1)
  }

  /** `Before` is a strict total order on days. */
  lemma BeforeIsStrictTotalOrder(a: Date, b: Date, c: Date)
    ensures !Before(a, a)
    ensures Before(a, b) && Before(b, c) ==> Before(a, c)
    ensures a != b ==> Before(a, b) || Before(b, a)
    ensures Before(a, b) ==> !Before(b, a)
  {
  }

  /** Month truncation gives a valid day, no later than `d`, that two days
      share exactly when they fall in the same month of the same year. */
  lemma FirstOfMonthProperties(d: Date, d': Date)
    requires ValidDate(d)
    ensures ValidDate(FirstOfMonth(d))
    ensures OnOrAfter(d, FirstOfMonth(d))
    ensures FirstOfMonth(FirstOfMonth(d)) == FirstOfMonth(d)
    ensures FirstOfMonth(d) == FirstOfMonth(d') <==> d.year == d'.year && d.month == d'.month
  {
  }

  /** Year truncation gives a valid day, no later than `d`, that two days
      share exactly when they fall in the same year; it also coarsens month
      truncation. */
  lemma FirstOfYearProperties(d: Date, d': Date)
    requires ValidDate(d)
    ensures ValidDate(FirstOfYear(d))
    ensures OnOrAfter(d, FirstOfYear(d))
    ensures FirstOfYear(FirstOfMonth(d)) == FirstOfYear(d)
    ensures FirstOfYear(d) == FirstOfYear(d') <==> d.year == d'.year
  {
  }

  /** A day on or after the first of `today`'s month lies in `today`'s year
      or in a later one. */
  lemma OnOrAfterFirstOfMonth(d: Date, today: Date)
    requires OnOrAfter(d, FirstOfMonth(today))
    ensures d.year == today.year || d.year > today.year
  {
  }
}
