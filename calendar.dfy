/** Whole-day calendar arithmetic behind the planner's week navigation.
    A date is a day number: the count of days since 1970-01-01, which was a
    Thursday. Time of day, time zones and daylight saving are not modelled. */
module Calendar {

  /** Day of the week as JavaScript's Date.getDay reports it:
      0 = Sunday, 1 = Monday, ..., 6 = Saturday. */
  function Weekday(d: int): (w: int)
    ensures 0 <= w < 7
  {
    (d + 4) % 7
  }

  predicate IsMonday(d: int) {
    Weekday(d) == 1
  }

  /** Shift a date by a whole number of days (setDate(getDate() + days),
      whose month and year overflow is exactly day-number addition). */
  function AddDays(d: int, days: int): int {
    d + days
  }

  /** The Monday of the week holding d. Sunday is the last day of its week,
      so it moves back six days rather than forward one. */
  function GetMonday(d: int): (m: int)
    ensures IsMonday(m)
    ensures m <= d < m + 7
  {
    var day := Weekday(d);
    AddDays(d, -day + (if day == 0 then -6 else 1))
  }

  /** A Sunday belongs to the week that began six days earlier. */
  lemma GetMondayOfSunday(d: int)
    requires Weekday(d) == 0
    ensures GetMonday(d) == d - 6
  {
  }

  /** A Monday is the Monday of its own week. */
  lemma GetMondayOfMonday(d: int)
    requires IsMonday(d)
    ensures GetMonday(d) == d
  {
  }

  lemma GetMondayIdempotent(d: int)
    ensures GetMonday(GetMonday(d)) == GetMonday(d)
  {
    GetMondayOfMonday(GetMonday(d));
  }

  /** GetMonday is characterised independently of its formula: it is the
      only Monday at most six days before d. */
  lemma GetMondayUnique(d: int, m: int)
    requires IsMonday(m) && m <= d < m + 7
    ensures GetMonday(d) == m
  {
  }

  /** Every day of the week starting at Monday m has m as its Monday. */
  lemma WeekSharesMonday(m: int, i: int)
    requires IsMonday(m) && 0 <= i < 7
    ensures GetMonday(AddDays(m, i)) == m
  {
    GetMondayUnique(AddDays(m, i), m);
  }

  /** Going forward n days and back n days returns to the start, so next
      then previous restores the displayed week. */
  lemma AddDaysInverse(d: int, n: int)
    ensures AddDays(AddDays(d, n), -n) == d
  {
  }

  lemma AddDaysCompose(d: int, a: int, b: int)
    ensures AddDays(AddDays(d, a), b) == AddDays(d, a + b)
  {
  }

  /** Shifting by whole weeks keeps the day of the week. */
  lemma AddWeeksKeepsWeekday(d: int, weeks: int)
    ensures Weekday(AddDays(d, 7 * weeks)) == Weekday(d)
  {
  }

  /** Day i of a week that starts on a Monday: Monday..Friday for i < 5,
      Saturday for i = 5 and Sunday for i = 6. */
  lemma WeekdayOfWeekIndex(m: int, i: int)
    requires IsMonday(m) && 0 <= i < 7
    ensures i < 6 ==> Weekday(AddDays(m, i)) == i + 1
    ensures i == 6 ==> Weekday(AddDays(m, i)) == 0
  {
  }
}
