/**
 * The part of java.time.LocalDate the service relies on: a date of the ISO-8601
 * proleptic calendar, its ordering (isAfter, isBefore) and minusYears.
 */
module Dates {

  datatype Date = Date(year: int, month: int, day: int)

  /** The ISO leap-year rule.  Only whether a remainder is zero matters here, and
      that is the same for Java's truncating % and Dafny's Euclidean %. */
  predicate IsLeapYear(year: int)
  {
    year % 4 == 0 && (year % 100 != 0 || year % 400 == 0)
  }

  /** LocalDate.lengthOfMonth for a month number in 1..12. */
  function LengthOfMonth(year: int, month: int): (n: int)
    ensures 28 <= n <= 31
    ensures month == 2 ==> (n == 29 <==> IsLeapYear(year))
    ensures month != 2 ==> n >= 30
  {
    if month == 2 then (if IsLeapYear(year) then 29 else 28)
    else if month == 4 || month == 6 || month == 9 || month == 11 then 30
    else 31
  }

  /** A date that LocalDate can represent (the year range is not bounded here). */
  predicate IsValid(d: Date)
  {
    1 <= d.month <= 12 && 1 <= d.day <= LengthOfMonth(d.year, d.month)
  }

  /** LocalDate.isBefore: chronological order, year first, then month, then day. */
  predicate IsBefore(a: Date, b: Date)
  {
    a.year < b.year ||
    (a.year == b.year && (a.month < b.month || (a.month == b.month && a.day < b.day)))
  }

  /** LocalDate.isAfter is the converse of isBefore. */
  predicate IsAfter(a: Date, b: Date)
  {
    IsBefore(b, a)
  }

  /**
   * LocalDate.minusYears: the same month and day in an earlier year, with the day
   * moved back to the last valid day of that month when it does not exist there
   * (only February 29 in a year that is not a leap year).
   */
  function MinusYears(d: Date, years: int): (r: Date)
    ensures r.year == d.year - years && r.month == d.month
    ensures IsValid(d) ==> IsValid(r)
    ensures IsValid(d) ==>
      (r.day == d.day || (d.month == 2 && d.day == 29 && !IsLeapYear(r.year) && r.day == 28))
    ensures IsValid(d) && years == 0 ==> r == d
  {
    var y := d.year - years;
    var last := LengthOfMonth(y, d.month);
    Date(y, d.month, if d.day <= last then d.day else last)
  }

  /** isBefore is irreflexive: no date is before or after itself. */
  lemma BeforeIrreflexive(a: Date)
    ensures !IsBefore(a, a) && !IsAfter(a, a)
  {
  }

  /** isBefore is transitive. */
  lemma BeforeTransitive(a: Date, b: Date, c: Date)
    requires IsBefore(a, b) && IsBefore(b, c)
    ensures IsBefore(a, c)
  {
  }

  /** Any two dates are equal or ordered one way or the other. */
  lemma BeforeTotal(a: Date, b: Date)
    ensures a == b || IsBefore(a, b) || IsBefore(b, a)
  {
  }

  /** Going further back in years gives a strictly earlier date. */
  lemma MinusMoreYearsIsEarlier(d: Date, m: int, n: int)
    requires n < m
    ensures IsBefore(MinusYears(d, m), MinusYears(d, n))
  {
  }

  /**
   * Independent reference for a person's age: the number of whole years from
   * birth to today, one less when this year's birthday has not been reached yet.
   */
  function AgeInYears(birth: Date, today: Date): int
  {
    var birthdayReached :=
      today.month > birth.month || (today.month == birth.month && today.day >= birth.day);
    today.year - birth.year - (if birthdayReached then 0 else 1)
  }

  /**
   * Being born after "today minus n years" means exactly being younger than n
   * whole years, also when today is February 29 and the target year is not a
   * leap year.
   */
  lemma AfterMinusYearsIffYounger(birth: Date, today: Date, n: int)
    requires IsValid(birth) && IsValid(today)
    ensures IsAfter(birth, MinusYears(today, n)) <==> AgeInYears(birth, today) < n
  {
  }
}
