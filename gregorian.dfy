/** The proleptic Gregorian (year, month, day) view of a day number, standing
    in for Date.getFullYear, Date.getMonth() + 1 and Date.getDate.

    The conversion counts from 0000-03-01: a year is taken to start on
    1 March, so that the leap day is the last day of its year, and 400
    Gregorian years (an era) always have 146097 days. The year and month are
    found by searching the era's year starts and the year's month starts. */
module Gregorian {

  datatype Civil = Civil(year: int, month: int, day: int)

  predicate IsLeapYear(y: int) {
    y % 4 == 0 && (y % 100 != 0 || y % 400 == 0)
  }

  function DaysInMonth(year: int, month: int): (n: int)
    requires 1 <= month <= 12
    ensures 28 <= n <= 31
    ensures n == 29 <==> month == 2 && IsLeapYear(year)
  {
    if month == 2 then (if IsLeapYear(year) then 29 else 28)
    else if month == 4 || month == 6 || month == 9 || month == 11 then 30
    else 31
  }

  /** A date that exists in the calendar: month 1..12, day 1..length of month. */
  predicate ValidCivil(c: Civil) {
    1 <= c.month <= 12 && 1 <= c.day <= DaysInMonth(c.year, c.month)
  }

  /** Days from 0000-03-01 to 1970-01-01. */
  const EpochShift: int := 719468
  /** Days in 400 Gregorian years. */
  const EraDays: int := 146097

  lemma DivModBy400(x: int, q: int, r: int)
    requires 0 <= r < 400 && x == q * 400 + r
    ensures x / 400 == q && x % 400 == r
  {
  }

  lemma DivModByEra(x: int, q: int, r: int)
    requires 0 <= r < EraDays && x == q * 146097 + r
    ensures x / 146097 == q && x % 146097 == r
  {
  }

  /** Days from the start of an era to 1 March of its yoe-th year: each
      year before it has 366 days when the calendar year it ends in is a
      leap year and 365 otherwise. */
  function YearStart(yoe: int): int
    requires 0 <= yoe <= 400
  {
    if yoe == 0 then 0 else YearStart(yoe - 1) + (if IsLeapYear(yoe) then 366 else 365)
  }

  lemma YearStep(yoe: int)
    requires 0 <= yoe < 400
    ensures YearStart(yoe + 1) - YearStart(yoe) == if IsLeapYear(yoe + 1) then 366 else 365
  {
  }

  /** k / 4 - k / 100 + k / 400 counts the leap years among 1..k. */
  function LeapYearsUpTo(k: int): int {
    k / 4 - k / 100 + k / 400
  }

  lemma DivStep4(k: int)
    ensures k / 4 == (k - 1) / 4 + (if k % 4 == 0 then 1 else 0)
  {
  }

  lemma DivStep100(k: int)
    ensures k / 100 == (k - 1) / 100 + (if k % 100 == 0 then 1 else 0)
  {
  }

  lemma DivStep400(k: int)
    ensures k / 400 == (k - 1) / 400 + (if k % 400 == 0 then 1 else 0)
  {
  }

  lemma LeapYearsStep(k: int)
    requires k >= 1
    ensures LeapYearsUpTo(k) == LeapYearsUpTo(k - 1) + (if IsLeapYear(k) then 1 else 0)
  {
    DivStep4(k);
    DivStep100(k);
    DivStep400(k);
  }

  /** The closed form of YearStart: 365 days a year plus one leap day every
      fourth year, less the century years not divisible by 400. */
  lemma {:induction false} YearStartClosedForm(yoe: int)
    requires 0 <= yoe <= 400
    ensures YearStart(yoe) == 365 * yoe + LeapYearsUpTo(yoe)
  {
    if yoe > 0 {
      YearStartClosedForm(yoe - 1);
      LeapYearsStep(yoe);
    }
  }

  /** An era is 146097 days long. */
  lemma EraLength()
    ensures YearStart(400) == EraDays
  {
    YearStartClosedForm(400);
  }

  lemma ModShift4(a: int, k: int)
    ensures (a * 4 + k) % 4 == k % 4
  {
    assert a * 4 + k == (a + k / 4) * 4 + k % 4;
  }

  lemma ModShift100(a: int, k: int)
    ensures (a * 100 + k) % 100 == k % 100
  {
    assert a * 100 + k == (a + k / 100) * 100 + k % 100;
  }

  lemma ModShift400(a: int, k: int)
    ensures (a * 400 + k) % 400 == k % 400
  {
    assert a * 400 + k == (a + k / 400) * 400 + k % 400;
  }

  /** The leap-year rule repeats every 400 years. */
  lemma LeapYearPeriodic(era: int, k: int)
    ensures IsLeapYear(era * 400 + k) == IsLeapYear(k)
  {
    ModShift4(era * 100, k);
    ModShift100(era * 4, k);
    ModShift400(era, k);
  }

  lemma {:induction false} YearStartGrows(i: int, j: int)
    requires 0 <= i <= j <= 400
    ensures YearStart(i) + 365 * (j - i) <= YearStart(j)
    decreases j - i
  {
    if i < j {
      YearStep(i);
      YearStartGrows(i + 1, j);
    }
  }

  lemma YearStartBounds(yoe: int)
    requires 0 <= yoe <= 400
    ensures 0 <= YearStart(yoe) <= EraDays
  {
    YearStartGrows(0, yoe);
    YearStartGrows(yoe, 400);
    EraLength();
  }

  /** The year of the era holding day doe of the era, searching from year k. */
  function FindYear(doe: int, k: int): (yoe: int)
    requires 0 <= k < 400 && YearStart(k) <= doe < EraDays
    ensures k <= yoe < 400
    decreases 400 - k
  {
    if k == 399 || doe < YearStart(k + 1) then k
    else FindYear(doe, k + 1)
  }

  lemma {:induction false} FindYearSpec(doe: int, k: int)
    requires 0 <= k < 400 && YearStart(k) <= doe < EraDays
    ensures var yoe := FindYear(doe, k); YearStart(yoe) <= doe < YearStart(yoe + 1)
    decreases 400 - k
  {
    if k == 399 {
      EraLength();
    } else if doe >= YearStart(k + 1) {
      FindYearSpec(doe, k + 1);
    }
  }

  /** At most one year of an era holds a given day. */
  lemma YearOfEraUnique(doe: int, a: int, b: int)
    requires 0 <= a < 400 && YearStart(a) <= doe < YearStart(a + 1)
    requires 0 <= b < 400 && YearStart(b) <= doe < YearStart(b + 1)
    ensures a == b
  {
    if a < b {
      YearStartGrows(a + 1, b);
    } else if b < a {
      YearStartGrows(b + 1, a);
    }
  }

  /** Days from 1 March to the first day of month mp of a March-based year
      (mp = 0 is March, ..., mp = 10 is January, mp = 11 is February):
      0, 31, 61, 92, 122, 153, 184, 214, 245, 275, 306, 337. */
  function MonthStart(mp: int): int
    requires 0 <= mp <= 11
  {
    (153 * mp + 2) / 5
  }

  /** The calendar month (1..12) of March-based month mp. */
  function CalendarMonth(mp: int): int
    requires 0 <= mp <= 11
  {
    if mp < 10 then mp + 3 else mp - 9
  }

  /** Every March-based month but February is as long as the gap to the
      next month start. */
  lemma MonthStep(mp: int, year: int)
    requires 0 <= mp < 11
    ensures MonthStart(mp + 1) - MonthStart(mp) == DaysInMonth(year, CalendarMonth(mp))
  {
  }

  /** The March-based month holding day doy of a year. */
  function MonthOfYear(doy: int): (mp: int)
    requires 0 <= doy < 366
    ensures 0 <= mp <= 11 && MonthStart(mp) <= doy
    ensures mp < 11 ==> doy < MonthStart(mp + 1)
  {
    (5 * doy + 2) / 153
  }

  /** At most one month of a year holds a given day. */
  lemma MonthOfYearUnique(doy: int, a: int, b: int)
    requires 0 <= a <= 11 && MonthStart(a) <= doy && (a < 11 ==> doy < MonthStart(a + 1))
    requires 0 <= b <= 11 && MonthStart(b) <= doy && (b < 11 ==> doy < MonthStart(b + 1))
    ensures a == b
  {
  }

  /** The date of day doy (0 = 1 March) of the March-based year that starts
      in calendar year y. */
  function DateInYear(y: int, doy: int): Civil
    requires 0 <= doy < 366
  {
    var mp := MonthOfYear(doy);
    Civil(y + (if mp >= 10 then 1 else 0), CalendarMonth(mp), doy - MonthStart(mp) + 1)
  }

  /** The date of day doe of era `era` (era 0 starts on 0000-03-01). */
  function DateInEra(era: int, doe: int): Civil
    requires 0 <= doe < EraDays
  {
    var yoe := FindYear(doe, 0);
    FindYearSpec(doe, 0);
    YearStep(yoe);
    DateInYear(era * 400 + yoe, doe - YearStart(yoe))
  }

  /** The date of a day number. */
  function ToCivil(z: int): Civil {
    var s := z + EpochShift;
    DateInEra(s / 146097, s % 146097)
  }

  /** The day number of a date. */
  function FromCivil(c: Civil): int
    requires 1 <= c.month <= 12
  {
    var y := if c.month <= 2 then c.year - 1 else c.year;
    var era := y / 400;
    var yoe := y % 400;
    var mp := if c.month > 2 then c.month - 3 else c.month + 9;
    era * 146097 + YearStart(yoe) + MonthStart(mp) + c.day - 1 - EpochShift
  }

  /** Every day of a March-based year is dated by a date that exists. */
  lemma DateInYearValid(y: int, doy: int)
    requires 0 <= doy < if IsLeapYear(y + 1) then 366 else 365
    ensures ValidCivil(DateInYear(y, doy))
  {
    var mp := MonthOfYear(doy);
    if mp < 11 {
      MonthStep(mp, y);
    }
  }

  /** Day doe of an era falls in the year of the era that FindYear finds,
      and is dated within that year. */
  lemma DateInEraYear(era: int, doe: int)
    requires 0 <= doe < EraDays
    ensures var yoe := FindYear(doe, 0);
      && 0 <= yoe < 400 && YearStart(yoe) <= doe
      && doe - YearStart(yoe) < (if IsLeapYear(yoe + 1) then 366 else 365)
      && DateInEra(era, doe) == DateInYear(era * 400 + yoe, doe - YearStart(yoe))
  {
    FindYearSpec(doe, 0);
    YearStep(FindYear(doe, 0));
  }

  /** Year yoe of any era has the length it has in era 0. */
  lemma DateInEraYearValid(era: int, yoe: int, doy: int)
    requires 0 <= doy < if IsLeapYear(yoe + 1) then 366 else 365
    ensures ValidCivil(DateInYear(era * 400 + yoe, doy))
  {
    LeapYearPeriodic(era, yoe + 1);
    assert era * 400 + yoe + 1 == era * 400 + (yoe + 1);
    DateInYearValid(era * 400 + yoe, doy);
  }

  /** Every day of an era is dated by a date that exists. */
  lemma DateInEraValid(era: int, doe: int)
    requires 0 <= doe < EraDays
    ensures ValidCivil(DateInEra(era, doe))
  {
    DateInEraYear(era, doe);
    var yoe := FindYear(doe, 0);
    var d := DateInYear(era * 400 + yoe, doe - YearStart(yoe));
    DateInEraYearValid(era, yoe, doe - YearStart(yoe));
    ValidCivilOfEqual(DateInEra(era, doe), d);
  }

  /** Validity carried across an equality of dates. */
  lemma ValidCivilOfEqual(c: Civil, d: Civil)
    requires c == d && ValidCivil(d)
    ensures ValidCivil(c)
  {
  }

  /** Every day number names a date that exists. */
  lemma ToCivilValid(z: int)
    ensures ValidCivil(ToCivil(z))
  {
    var s := z + EpochShift;
    DateInEraValid(s / 146097, s % 146097);
  }

  /** The day number of day doy of the March-based year starting in calendar
      year y. */
  lemma FromDateInYear(y: int, doy: int)
    requires 0 <= doy < 366
    ensures 1 <= DateInYear(y, doy).month <= 12
    ensures FromCivil(DateInYear(y, doy)) == (y / 400) * 146097 + YearStart(y % 400) + doy - EpochShift
  {
    var mp := MonthOfYear(doy);
    var c := DateInYear(y, doy);
    assert c.month == CalendarMonth(mp) && c.day == doy - MonthStart(mp) + 1;
    assert (if c.month <= 2 then c.year - 1 else c.year) == y;
    assert (if c.month > 2 then c.month - 3 else c.month + 9) == mp;
  }

  /** The day number of day doe of an era. */
  lemma FromDateInEra(era: int, doe: int)
    requires 0 <= doe < EraDays
    ensures FromCivil(DateInEra(era, doe)) == era * 146097 + doe - EpochShift
  {
    DateInEraYear(era, doe);
    var yoe := FindYear(doe, 0);
    var doy := doe - YearStart(yoe);
    var y := era * 400 + yoe;
    DivModBy400(y, era, yoe);
    FromDateInYear(y, doy);
    assert YearStart(y % 400) == YearStart(yoe);
    assert FromCivil(DateInYear(y, doy)) == era * 146097 + YearStart(yoe) + doy - EpochShift;
    FromCivilOfEqual(DateInEra(era, doe), DateInYear(y, doy));
  }

  /** The day number carried across an equality of dates. */
  lemma FromCivilOfEqual(c: Civil, d: Civil)
    requires c == d && 1 <= d.month <= 12
    ensures 1 <= c.month <= 12 && FromCivil(c) == FromCivil(d)
  {
  }

  /** Converting a day number to its date and back gives the day number. */
  lemma FromToCivil(z: int)
    ensures FromCivil(ToCivil(z)) == z
  {
    var s := z + EpochShift;
    FromDateInEra(s / 146097, s % 146097);
  }

  /** A valid date is day doy of its March-based year, whose month search
      finds the date again. */
  lemma DateInYearOf(c: Civil, y: int, mp: int, doy: int)
    requires ValidCivil(c)
    requires y == if c.month <= 2 then c.year - 1 else c.year
    requires mp == if c.month > 2 then c.month - 3 else c.month + 9
    requires doy == MonthStart(mp) + c.day - 1
    ensures 0 <= doy < if IsLeapYear(y + 1) then 366 else 365
    ensures DateInYear(y, doy) == c
  {
    if mp < 11 {
      MonthStep(mp, c.year);
    }
    MonthOfYearUnique(doy, MonthOfYear(doy), mp);
  }

  /** The year search finds the one year of the era holding the day. */
  lemma FindYearFinds(doe: int, yoe: int)
    requires 0 <= yoe < 400
    requires YearStart(yoe) <= doe < YearStart(yoe + 1)
    ensures 0 <= doe < EraDays
    ensures FindYear(doe, 0) == yoe
  {
    YearStartBounds(yoe);
    YearStartBounds(yoe + 1);
    FindYearSpec(doe, 0);
    YearOfEraUnique(doe, FindYear(doe, 0), yoe);
  }

  /** A day of year yoe of an era is dated within that year. */
  lemma DateInEraOf(era: int, yoe: int, doe: int)
    requires 0 <= yoe < 400
    requires YearStart(yoe) <= doe < YearStart(yoe + 1)
    ensures 0 <= doe < EraDays
    ensures DateInEra(era, doe) == DateInYear(era * 400 + yoe, doe - YearStart(yoe))
  {
    FindYearFinds(doe, yoe);
  }

  /** The day number of day doe of an era is dated by DateInEra. */
  lemma ToCivilOfEraDay(z: int, era: int, doe: int)
    requires 0 <= doe < EraDays
    requires z + EpochShift == era * 146097 + doe
    ensures ToCivil(z) == DateInEra(era, doe)
  {
    var s := z + EpochShift;
    assert ToCivil(z) == DateInEra(s / 146097, s % 146097);
    DivModByEra(s, era, doe);
  }

  /** The day number of day doy of the March-based year starting in calendar
      year y is dated within that year. */
  lemma ToCivilOfYearDay(z: int, y: int, doy: int)
    requires 0 <= doy < if IsLeapYear(y + 1) then 366 else 365
    requires z == (y / 400) * 146097 + YearStart(y % 400) + doy - EpochShift
    ensures ToCivil(z) == DateInYear(y, doy)
  {
    var era, yoe := y / 400, y % 400;
    LeapYearPeriodic(era, yoe + 1);
    assert y + 1 == era * 400 + (yoe + 1);
    YearStep(yoe);
    var doe := YearStart(yoe) + doy;
    DateInEraOf(era, yoe, doe);
    ToCivilOfEraDay(z, era, doe);
  }

  /** Converting a valid date to its day number and back gives the date. */
  lemma ToFromCivil(c: Civil)
    requires ValidCivil(c)
    ensures ToCivil(FromCivil(c)) == c
  {
    var y := if c.month <= 2 then c.year - 1 else c.year;
    var mp := if c.month > 2 then c.month - 3 else c.month + 9;
    var doy := MonthStart(mp) + c.day - 1;
    DateInYearOf(c, y, mp, doy);
    ToCivilOfYearDay(FromCivil(c), y, doy);
  }

  /** Distinct day numbers have distinct dates. */
  lemma ToCivilInjective(a: int, b: int)
    requires ToCivil(a) == ToCivil(b)
    ensures a == b
  {
    FromToCivil(a);
    FromToCivil(b);
  }
}
