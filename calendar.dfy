/**
 * Gregorian month lengths, in place of Python's `calendar.monthrange`,
 * whose second component is the only part of it the converter uses.
 */
module Calendar {

  /** `calendar.isleap`: every fourth year, except centuries not divisible by 400. */
  predicate IsLeapYear(year: int)
  {
    year % 4 == 0 && (year % 100 != 0 || year % 400 == 0)
  }

  /** `calendar.mdays`: the lengths of the months of a common year; index 0 is unused. */
  const CommonMonthDays: seq<int> := [0, 31, 28, 31, 30, 31, 30, 31, 31, 30, 31, 30, 31]

  /** The number of days in `month` of `year`. */
  function DaysInMonth(year: int, month: int): (n: int)
    requires 1 <= month <= 12
    ensures 28 <= n <= 31
    ensures month == 2 ==> (n == 29 <==> IsLeapYear(year))
    ensures month != 2 ==> n == if (month <= 7) == (month % 2 == 1) then 31 else 30
  {
    CommonMonthDays[month] + if month == 2 && IsLeapYear(year) then 1 else 0
  }

  /** `day` is a day of `month` in `year`. */
  predicate IsValidDate(year: int, month: int, day: int)
  {
    1 <= month <= 12 && 1 <= day <= DaysInMonth(year, month)
  }

  /** The days of the months before `month`, added up. */
  function DaysBeforeMonth(year: int, month: int): int
    requires 1 <= month <= 13
    decreases month
  {
    if month == 1 then 0 else DaysBeforeMonth(year, month - 1) + DaysInMonth(year, month - 1)
  }

  /** The twelve month lengths add up to the length of a Gregorian year. */
  lemma YearLength(year: int)
    ensures DaysBeforeMonth(year, 13) == if IsLeapYear(year) then 366 else 365
  {
    assert DaysBeforeMonth(year, 3) == 59 + if IsLeapYear(year) then 1 else 0;
    assert DaysBeforeMonth(year, 8) == DaysBeforeMonth(year, 3) + 153;
  }
}
