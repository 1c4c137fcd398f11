/** Proleptic Gregorian calendar rules applied to signed years; these replace Ruby's ::Date.new check. */
module Calendar {

  /** Divisible by 4, except centuries that are not divisible by 400. */
  predicate IsLeapYear(y: int)
    ensures IsLeapYear(y) ==> y % 4 == 0
    ensures y % 400 == 0 ==> IsLeapYear(y)
    ensures y % 4 == 0 && y % 100 != 0 ==> IsLeapYear(y)
    ensures y % 100 == 0 && y % 400 != 0 ==> !IsLeapYear(y)
  {
    y % 4 == 0 && (y % 100 != 0 || y % 400 == 0)
  }

  function DaysInMonth(y: int, m: int): (n: int)
    requires 1 <= m <= 12
    ensures 28 <= n <= 31
    ensures n == 28 <==> m == 2 && !IsLeapYear(y)
    ensures n == 29 <==> m == 2 && IsLeapYear(y)
    ensures n == 30 <==> m in {4, 6, 9, 11}
    ensures n == 31 <==> m in {1, 3, 5, 7, 8, 10, 12}
  {
    if m == 2 then (if IsLeapYear(y) then 29 else 28)
    else if m == 4 || m == 6 || m == 9 || m == 11 then 30
    else 31
  }

  /** (y, m, d) names a real day of the calendar. */
  predicate IsCalendarDate(y: int, m: int, d: int)
    ensures IsCalendarDate(y, m, d) ==> 1 <= m <= 12 && 1 <= d <= 31
    ensures 1 <= m <= 12 && 1 <= d <= 28 ==> IsCalendarDate(y, m, d)
    ensures m == 2 && d == 29 ==> (IsCalendarDate(y, m, d) <==> IsLeapYear(y))
  {
    1 <= m <= 12 && 1 <= d <= DaysInMonth(y, m)
  }

  /** The leap-year rule repeats every 400 years, so it treats BCE years like CE years. */
  lemma LeapYearPeriodic(y: int)
    ensures IsLeapYear(y + 400) == IsLeapYear(y)
  {
    assert y + 400 == 400 * (y / 400 + 1) + y % 400;
    assert (y + 400) % 400 == y % 400;
    assert y + 400 == 100 * (y / 100 + 4) + y % 100;
    assert (y + 400) % 100 == y % 100;
    assert y + 400 == 4 * (y / 4 + 100) + y % 4;
    assert (y + 400) % 4 == y % 4;
  }

  lemma CalendarExamples()
    ensures IsCalendarDate(2016, 2, 29) && !IsCalendarDate(2015, 2, 29)
    ensures IsCalendarDate(2015, 2, 28) && !IsCalendarDate(2016, 2, 30)
    ensures forall y, m :: !IsCalendarDate(y, m, 32)
    ensures forall y, m :: m in {4, 6, 9, 11} ==> !IsCalendarDate(y, m, 31)
    ensures IsLeapYear(2000) && !IsLeapYear(1900)
  {
  }
}
