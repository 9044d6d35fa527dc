/** Calendar dates as the form's birth-date rule sees them. A JavaScript
    `Date` is an instant; the rule only ever looks at its local year, month
    and day, so a date is modelled as that triple (month 1-12). */
module Dates {

  datatype Date = Date(year: int, month: int, day: int)

  /** Gregorian leap years (Dafny's `%` is never negative, so this also
      holds for years before 1). */
  predicate IsLeapYear(y: int) {
    y % 4 == 0 && (y % 100 != 0 || y % 400 == 0)
  }

  function DaysInMonth(y: int, m: int): (n: int)
    requires 1 <= m <= 12
    ensures 28 <= n <= 31
    ensures n == 29 <==> m == 2 && IsLeapYear(y)
  {
    if m == 2 then (if IsLeapYear(y) then 29 else 28)
    else if m == 4 || m == 6 || m == 9 || m == 11 then 30
    else 31
  }

  predicate IsValid(d: Date) {
    1 <= d.month <= 12 && 1 <= d.day <= DaysInMonth(d.year, d.month)
  }

  /** A day that exists in the Gregorian calendar: what a `Date` object denotes. */
  type CalendarDate = d: Date | IsValid(d) witness Date(2000, 1, 1)

  /** `a` is an earlier day than `b`. */
  predicate Before(a: Date, b: Date) {
    || a.year < b.year
    || (a.year == b.year && a.month < b.month)
    || (a.year == b.year && a.month == b.month && a.day < b.day)
  }

  /** The day after `d`. */
  function NextDay(d: CalendarDate): (r: CalendarDate)
    ensures Before(d, r)
    ensures r.year == d.year || r.year == d.year + 1
    ensures forall x: CalendarDate :: Before(d, x) ==> !Before(x, r)
  {
    if d.day < DaysInMonth(d.year, d.month) then Date(d.year, d.month, d.day + 1)
    else if d.month < 12 then Date(d.year, d.month + 1, 1)
    else Date(d.year + 1, 1, 1)
  }

  /** `new Date(year, birth.getMonth(), birth.getDate())`: the birthday of
      `birth` in `year`. JavaScript rolls the day over into the next month
      when it does not exist, which for a real date happens only to 29
      February in a common year: that birthday falls on 1 March. */
  function BirthdayIn(year: int, birth: CalendarDate): (r: CalendarDate)
    ensures r.year == year
    ensures r.month == birth.month && r.day == birth.day
      <==> !(birth.month == 2 && birth.day == 29 && !IsLeapYear(year))
  {
    if birth.month == 2 && birth.day == 29 && !IsLeapYear(year) then Date(year, 3, 1)
    else Date(year, birth.month, birth.day)
  }

  /** Age in whole years on `today`: the difference of the years, less one
      while this year's birthday is still ahead. */
  function Age(birth: CalendarDate, today: CalendarDate): (a: int)
    ensures a == today.year - birth.year || a == today.year - birth.year - 1
    ensures a == today.year - birth.year <==> !Before(today, BirthdayIn(today.year, birth))
  {
    today.year - birth.year - (if Before(today, BirthdayIn(today.year, birth)) then 1 else 0)
  }

  /** Someone is at least `k` years old exactly when their `k`-th birthday
      (as JavaScript places it) is today or already past. */
  lemma AgeAtLeast(birth: CalendarDate, today: CalendarDate, k: int)
    ensures Age(birth, today) >= k <==> !Before(today, BirthdayIn(birth.year + k, birth))
  {
  }

  /** Comparing with this year's birthday is comparing (month, day) pairs:
      the 1 March stand-in for 29 February changes no answer on a real day. */
  lemma {:induction false} BirthdayAheadIsMonthDay(birth: CalendarDate, today: CalendarDate)
    ensures Before(today, BirthdayIn(today.year, birth))
      <==> Before(today, Date(today.year, birth.month, birth.day))
  {
    if birth.month == 2 && birth.day == 29 && !IsLeapYear(today.year) {
      assert today.month == 2 ==> today.day <= 28;
    }
  }
}
