/** The storage key of a day: its date written `YYYY-MM-DD`, independent of
    the display locale. */
module DateKey {
  import opened Calendar
  import opened Gregorian
  import opened Decimal
  import opened Options

  /** formatDateKey: the year as Number.toString writes it, then the month
      (getMonth() + 1) and the day of the month, each padded to two digits
      with '0', joined by '-'. */
  function FormatDateKey(date: int): string {
    var c := ToCivil(date);
    IntToString(c.year) + "-" + PadStart(IntToString(c.month), 2, '0') + "-" + PadStart(IntToString(c.day), 2, '0')
  }

  /** The year part of a key: an optional '-' and at least one digit. */
  function ParseYear(t: string): Option<int> {
    if |t| >= 2 && t[0] == '-' && AllDigits(t[1..]) then
      var magnitude: int := DigitsValue(t[1..]);
      Some(-magnitude)
    else if |t| >= 1 && AllDigits(t) then Some(DigitsValue(t))
    else None
  }

  /** Reads a key back: the last six characters must be `-MM-DD` with two
      digits each, and what precedes them a year. */
  function ParseDateKey(key: string): Option<Civil> {
    if |key| < 7 then None
    else
      var n := |key|;
      var mm, dd := key[n - 5..n - 3], key[n - 2..];
      if key[n - 6] == '-' && key[n - 3] == '-' && AllDigits(mm) && AllDigits(dd) then
        match ParseYear(key[..n - 6])
        case None => None
        case Some(y) => Some(Civil(y, DigitsValue(mm), DigitsValue(dd)))
      else None
  }

  lemma ParseYearOfIntToString(y: int)
    ensures ParseYear(IntToString(y)) == Some(y)
  {
    var t := IntToString(y);
    if y < 0 {
      var u := NatToString(-y);
      assert t == "-" + u;
      assert t[1..] == u;
      NatToStringRoundTrip(-y);
      assert ParseYear(t) == Some(y);
    } else {
      assert t == NatToString(y);
      NatToStringRoundTrip(y);
      assert t[0] != '-';
    }
  }

  lemma TwoDigitValue(n: int)
    requires 0 <= n < 100
    ensures AllDigits([DigitChar(n / 10), DigitChar(n % 10)])
    ensures DigitsValue([DigitChar(n / 10), DigitChar(n % 10)]) == n
  {
    var s := [DigitChar(n / 10), DigitChar(n % 10)];
    assert DigitValue(DigitChar(n / 10)) == n / 10;
    assert DigitValue(DigitChar(n % 10)) == n % 10;
    assert s[..1] == [DigitChar(n / 10)];
    assert s[..1][..0] == [];
    assert DigitsValue(s[..1]) == n / 10;
  }

  /** The layout of a key: the year's numeral, '-', the month as two digits
      (01..12), '-', the day of the month as two digits (01..31). */
  lemma DateKeyLayout(date: int)
    ensures var c := ToCivil(date);
      var key := FormatDateKey(date);
      var n := |IntToString(c.year)|;
      && 1 <= c.month <= 12 && 1 <= c.day <= 31
      && key == IntToString(c.year) + "-" + [DigitChar(c.month / 10), DigitChar(c.month % 10)]
                + "-" + [DigitChar(c.day / 10), DigitChar(c.day % 10)]
      && |key| == n + 6
  {
    var c := ToCivil(date);
    ToCivilValid(date);
    PadStartTwoDigits(c.month);
    PadStartTwoDigits(c.day);
  }

  /** Reading a key gives back the date it was made from. */
  lemma DateKeyRoundTrip(date: int)
    ensures ParseDateKey(FormatDateKey(date)) == Some(ToCivil(date))
  {
    var c := ToCivil(date);
    var key := FormatDateKey(date);
    DateKeyLayout(date);
    var ys := IntToString(c.year);
    var mm := [DigitChar(c.month / 10), DigitChar(c.month % 10)];
    var dd := [DigitChar(c.day / 10), DigitChar(c.day % 10)];
    var n := |key|;
    assert key == ys + "-" + mm + "-" + dd;
    assert key[..n - 6] == ys;
    assert key[n - 6] == '-' && key[n - 3] == '-';
    assert key[n - 5..n - 3] == mm;
    assert key[n - 2..] == dd;
    TwoDigitValue(c.month);
    TwoDigitValue(c.day);
    ParseYearOfIntToString(c.year);
  }

  /** Distinct days have distinct keys, so no two days share a record. */
  lemma DateKeyInjective(a: int, b: int)
    requires FormatDateKey(a) == FormatDateKey(b)
    ensures a == b
  {
    DateKeyRoundTrip(a);
    DateKeyRoundTrip(b);
    ToCivilInjective(a, b);
  }

  /** Day 0 is 1970-01-01, a Thursday, so Weekday agrees with the dates the
      keys name. */
  lemma EpochIsThursday()
    ensures FromCivil(Civil(1970, 1, 1)) == 0
    ensures Weekday(0) == 4
  {
    YearStartClosedForm(369);
  }

  /** 2024-04-15 is day 19828, a Monday. */
  lemma ExampleMonday()
    ensures ValidCivil(Civil(2024, 4, 15)) && FromCivil(Civil(2024, 4, 15)) == 19828
    ensures IsMonday(19828)
  {
    YearStartClosedForm(24);
  }

  /** 2024-04-21 is day 19834, the Sunday of the same week. */
  lemma ExampleSunday()
    ensures ValidCivil(Civil(2024, 4, 21)) && FromCivil(Civil(2024, 4, 21)) == 19834
    ensures Weekday(19834) == 0
  {
    YearStartClosedForm(24);
  }

  lemma YearNumeralExample()
    ensures IntToString(2024) == "2024"
  {
    assert NatToString(2) == "2";
    assert NatToString(20) == "20";
    assert NatToString(202) == "202";
  }

  /** The key of that Monday is "2024-04-15". */
  lemma ExampleMondayKey()
    ensures FormatDateKey(19828) == "2024-04-15"
  {
    ExampleMonday();
    ToFromCivil(Civil(2024, 4, 15));
    YearNumeralExample();
    PadStartTwoDigits(4);
    PadStartTwoDigits(15);
  }

  /** The key of that Sunday is "2024-04-21". */
  lemma ExampleSundayKey()
    ensures FormatDateKey(19834) == "2024-04-21"
  {
    ExampleSunday();
    ToFromCivil(Civil(2024, 4, 21));
    YearNumeralExample();
    PadStartTwoDigits(4);
    PadStartTwoDigits(21);
  }
}
