/**
 The proleptic Gregorian calendar, as far as month arithmetic needs it (`pycroft/helpers/date.py`).
 Days are numbered; month m is month m % 12 + 1 of year m / 12.
 */
module Calendar {

  predicate IsLeap(year: int) {
    year % 4 == 0 && (year % 100 != 0 || year % 400 == 0)
  }

  function LengthOfMonth(m: int): (n: int)
    ensures 28 <= n <= 31
  {
    var inYear := m % 12;
    if inYear == 1 then (if IsLeap(m / 12) then 29 else 28)
    else if inYear == 3 || inYear == 5 || inYear == 8 || inYear == 10 then 30
    else 31
  }

  /** The lengths of the months of a year, from January on. */
  lemma {:induction false} MonthLengths(year: int, k: nat)
    requires k < 12
    ensures LengthOfMonth(12 * year + k)
            == [31, if IsLeap(year) then 29 else 28, 31, 30, 31, 30, 31, 31, 30, 31, 30, 31][k]
  {
    assert (12 * year + k) % 12 == k && (12 * year + k) / 12 == year;
  }

  /** Which years are leap years repeats every 400 years; among them are 2000 and 2024, but not 1900 and 2023. */
  lemma {:induction false} LeapYears(year: int)
    ensures IsLeap(year + 400) == IsLeap(year)
    ensures IsLeap(2000) && IsLeap(2024) && !IsLeap(1900) && !IsLeap(2023) && !IsLeap(2022)
    ensures year % 100 != 0 ==> (IsLeap(year) <==> exists q :: year == 4 * q)
  {
    assert year % 4 == 0 ==> year == 4 * (year / 4);
  }

  /** The number of the first day of a month. */
  function FirstDay(m: int): int
    decreases if m < 0 then -m else m
  {
    if m == 0 then 0
    else if m > 0 then FirstDay(m - 1) + LengthOfMonth(m - 1)
    else FirstDay(m + 1) - LengthOfMonth(m)
  }

  lemma NextMonth(m: int)
    ensures FirstDay(m + 1) == FirstDay(m) + LengthOfMonth(m)
  {
  }

  lemma {:induction false} MonthsInOrder(m: int, n: int)
    requires m < n
    ensures FirstDay(m) < FirstDay(n)
    decreases n - m
  {
    NextMonth(n - 1);
    if m < n - 1 {
      MonthsInOrder(m, n - 1);
    }
  }

  function MonthUp(m: int, day: int): (r: int)
    requires FirstDay(m) <= day
    ensures FirstDay(r) <= day < FirstDay(r + 1)
    decreases day - FirstDay(m)
  {
    NextMonth(m);
    if day < FirstDay(m + 1) then m else MonthUp(m + 1, day)
  }

  function MonthDown(m: int, day: int): (r: int)
    requires day < FirstDay(m)
    ensures FirstDay(r) <= day < FirstDay(r + 1)
    decreases FirstDay(m) - day
  {
    NextMonth(m - 1);
    if FirstDay(m - 1) <= day then m - 1 else MonthDown(m - 1, day)
  }

  /** The month a day lies in. */
  function MonthOf(day: int): (r: int)
    ensures FirstDay(r) <= day < FirstDay(r + 1)
  {
    if FirstDay(0) <= day then MonthUp(0, day) else MonthDown(0, day)
  }

  lemma {:induction false} MonthUnique(day: int, m: int)
    requires FirstDay(m) <= day < FirstDay(m + 1)
    ensures m == MonthOf(day)
  {
    var r := MonthOf(day);
    if m < r && m + 1 < r {
      MonthsInOrder(m + 1, r);
    }
    if r < m && r + 1 < m {
      MonthsInOrder(r + 1, m);
    }
  }

  // ----- dates -----

  datatype Date = Date(year: int, month: int, day: int) {
    function Month(): int {
      year * 12 + month - 1
    }

    predicate Valid() {
      1 <= month <= 12 && 1 <= day <= LengthOfMonth(Month())
    }

    /** `replace(day=...)` raises a `ValueError` for a day the month does not have. */
    predicate HasDay(other: int) {
      1 <= other <= LengthOfMonth(Month())
    }
  }

  function ToDay(d: Date): int {
    FirstDay(d.Month()) + d.day - 1
  }

  function ToDate(day: int): (d: Date)
    ensures d.Valid()
  {
    var m := MonthOf(day);
    NextMonth(m);
    Date(m / 12, m % 12 + 1, day - FirstDay(m) + 1)
  }

  lemma {:induction false} DayOfDate(d: Date)
    requires d.Valid()
    ensures ToDate(ToDay(d)) == d && MonthOf(ToDay(d)) == d.Month()
  {
    NextMonth(d.Month());
    MonthUnique(ToDay(d), d.Month());
  }

  lemma DateOfDay(day: int)
    ensures ToDay(ToDate(day)) == day && ToDate(day).Month() == MonthOf(day)
  {
  }

  /** The last day of a month. */
  function LastDay(m: int): int {
    FirstDay(m) + LengthOfMonth(m) - 1
  }

  /** The day before the first of a month is the last one of the month before. */
  lemma {:induction false} LastDayOfPrevious(m: int)
    ensures FirstDay(m) - 1 == LastDay(m - 1) && MonthOf(LastDay(m - 1)) == m - 1
  {
    NextMonth(m - 1);
    MonthUnique(LastDay(m - 1), m - 1);
  }

  /** `diff_month`. */
  function DiffMonth(d1: Date, d2: Date): int {
    (d1.year - d2.year) * 12 + d1.month - d2.month
  }

  lemma DiffMonthMeaning(day1: int, day2: int)
    ensures DiffMonth(ToDate(day1), ToDate(day2)) == MonthOf(day1) - MonthOf(day2)
  {
  }

  /** `last_day_of_month`. */
  function LastDayOfMonth(d: Date): (r: Date)
    requires d.Valid()
    ensures r.Valid() && r.Month() == d.Month()
  {
    Date(d.year, d.month, LengthOfMonth(d.Month()))
  }

  // ----- operations on dates, given by their day numbers -----

  predicate DayExists(m: int, day: int) {
    1 <= day <= LengthOfMonth(m)
  }

  /** `replace(day=...)`; it raises for a day the month does not have. */
  method ReplaceDay(day: int, other: int) returns (ok: bool, r: int)
    ensures ok <==> DayExists(MonthOf(day), other)
    ensures ok ==> r == FirstDay(MonthOf(day)) + other - 1
  {
    var d := ToDate(day);
    DateOfDay(day);
    if !d.HasDay(other) {
      return false, day;
    }
    return true, ToDay(d.(day := other));
  }

  /** `diff_month` counts the months between two days. */
  method MonthsBetween(day1: int, day2: int) returns (n: int)
    ensures n == MonthOf(day1) - MonthOf(day2)
  {
    DiffMonthMeaning(day1, day2);
    return DiffMonth(ToDate(day1), ToDate(day2));
  }

  method LastDayIn(day: int) returns (r: int)
    ensures r == LastDay(MonthOf(day))
  {
    DateOfDay(day);
    return ToDay(LastDayOfMonth(ToDate(day)));
  }
}
