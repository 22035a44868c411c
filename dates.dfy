/**
 * The `created` and `modified` dates of a record: `DD-MM-YYYY` read with
 * `datetime.strptime(text, '%d-%m-%Y')` and written back with
 * `strftime('%Y-%m-%d')` (ggd2json.py:154-157), and the calendar dates in
 * extended format (`YYYY-MM-DD`, section 4.1.2.2 of ISO 8601:2004) that
 * the converter writes.
 */
module GgdDates {
  import opened Results
  import opened Text
  import opened Calendar
  import opened GgdValues

  /** A calendar date in extended format: four-digit year, two-digit month and day, a valid day. */
  predicate IsIsoDate(r: string)
  {
    |r| == 10 && r[4] == '-' && r[7] == '-' && IsIsoFields(r[..4], r[5..7], r[8..])
  }

  /** The year, month and day fields of an extended-format date. */
  predicate IsIsoFields(year: string, month: string, day: string)
  {
    |year| == 4 && IsDigits(year) && |month| == 2 && IsDigits(month) && |day| == 2 && IsDigits(day) &&
    IsValidDate(DigitsValue(year), DigitsValue(month), DigitsValue(day))
  }

  /** Fields joined with dashes make an extended-format date. */
  lemma IsoOfFields(year: string, month: string, day: string)
    requires IsIsoFields(year, month, day)
    ensures IsIsoDate(year + "-" + month + "-" + day)
  {
    var r := year + "-" + month + "-" + day;
    assert r[..4] == year && r[5..7] == month && r[8..] == day;
  }

  /** strptime's `%d`: the pattern `3[01]|[12]\d|0[1-9]|[1-9]| [1-9]`. */
  function DayField(t: string): Option<nat>
  {
    if |t| == 1 && IsDigit(t[0]) && t[0] != '0' then Some(DigitValue(t[0]))
    else if |t| == 2 && t[0] == ' ' && IsDigit(t[1]) && t[1] != '0' then Some(DigitValue(t[1]))
    else if |t| == 2 && IsDigits(t) && 1 <= DigitsValue(t) <= 31 then Some(DigitsValue(t))
    else None
  }

  /** strptime's `%m`: the pattern `1[0-2]|0[1-9]|[1-9]`. */
  function MonthField(t: string): Option<nat>
  {
    if |t| == 1 && IsDigit(t[0]) && t[0] != '0' then Some(DigitValue(t[0]))
    else if |t| == 2 && IsDigits(t) && 1 <= DigitsValue(t) <= 12 then Some(DigitsValue(t))
    else None
  }

  /** strftime's `%m` and `%d`: two digits, zero-padded. */
  function TwoDigits(n: nat): (s: string)
    requires n < 100
    ensures |s| == 2 && IsDigits(s) && DigitsValue(s) == n
  {
    var s := [DigitChar(n / 10), DigitChar(n % 10)];
    assert s[..1] == [DigitChar(n / 10)] && s[..1][..0] == [];
    assert DigitsValue(s[..1]) == n / 10;
    assert DigitsValue(s) == (n / 10) * 10 + n % 10;
    s
  }

  /**
   * `datetime.strptime(text, '%d-%m-%Y').strftime('%Y-%m-%d')`: the three
   * fields must match their patterns and fill the whole text (strptime's
   * `%Y` takes exactly four digits), and the date must exist, from year 1 on.
   */
  function ReformatDate(text: string): (r: Result<string, Error>)
    ensures r.Err? ==> r.error == BadDate(text)
    ensures r.Ok? ==> IsIsoDate(r.value)
    ensures r.Ok? ==> DigitsValue(r.value[..4]) >= 1
  {
    var fields := Split(text, "-");
    if |fields| != 3 then Err(BadDate(text))
    else
      var day, month, year := DayField(fields[0]), MonthField(fields[1]), fields[2];
      if day.None? || month.None? || |year| != 4 || !IsDigits(year) then Err(BadDate(text))
      else if DigitsValue(year) < 1 || !IsValidDate(DigitsValue(year), month.value, day.value) then Err(BadDate(text))
      else
        IsoOfFields(year, TwoDigits(month.value), TwoDigits(day.value));
        DashedFields(year, TwoDigits(month.value), TwoDigits(day.value));
        Ok(year + "-" + TwoDigits(month.value) + "-" + TwoDigits(day.value))
  }

  /** A reformatted date is a valid extended-format date, and the same day as the text it came from. */
  lemma ReformattedIsIso(text: string)
    requires ReformatDate(text).Ok?
    ensures var r := ReformatDate(text).value;
            var fields := Split(text, "-");
            IsIsoDate(r) && |fields| == 3 && r[..4] == fields[2] &&
            MonthField(fields[1]) == Some(DigitsValue(r[5..7])) &&
            DayField(fields[0]) == Some(DigitsValue(r[8..]))
  {
    var fields := Split(text, "-");
    var r := ReformatDate(text).value;
    AcceptedFields(text);
    var month, day := MonthField(fields[1]).value, DayField(fields[0]).value;
    DashedFields(fields[2], TwoDigits(month), TwoDigits(day));
  }

  /** The fields of a date written with dashes are read back at their fixed positions. */
  lemma DashedFields(year: string, month: string, day: string)
    requires |year| == 4 && |month| == 2 && |day| == 2
    ensures var r := year + "-" + month + "-" + day;
            |r| == 10 && r[..4] == year && r[5..7] == month && r[8..] == day
  {
    var r := year + "-" + month + "-" + day;
    assert r[..4] == year && r[5..7] == month && r[8..] == day;
  }

  /** The fields of a text strptime accepts, and the date written for them. */
  lemma AcceptedFields(text: string)
    requires ReformatDate(text).Ok?
    ensures var fields := Split(text, "-");
            |fields| == 3 && DayField(fields[0]).Some? && MonthField(fields[1]).Some? &&
            var year, month, day := fields[2], MonthField(fields[1]).value, DayField(fields[0]).value;
            |year| == 4 && IsDigits(year) && IsValidDate(DigitsValue(year), month, day) &&
            ReformatDate(text).value == year + "-" + TwoDigits(month) + "-" + TwoDigits(day)
  {
  }

  /** A two-digit field is written back as it was read. */
  lemma TwoDigitsOfValue(t: string)
    requires |t| == 2 && IsDigits(t)
    ensures DigitsValue(t) < 100 && TwoDigits(DigitsValue(t)) == t
  {
    var tens, units := DigitValue(t[0]), DigitValue(t[1]);
    assert t[..1] == [t[0]] && t[..1][..0] == [];
    assert DigitsValue(t[..1]) == tens;
    assert DigitsValue(t) == tens * 10 + units;
    assert (tens * 10 + units) / 10 == tens && (tens * 10 + units) % 10 == units;
    assert DigitChar(tens) == t[0] && DigitChar(units) == t[1];
    assert TwoDigits(tens * 10 + units) == [t[0], t[1]];
    assert t == [t[0], t[1]];
  }

  /** A `DD-MM-YYYY` text of digit fields splits into its three fields. */
  lemma SplitDigitFields(dd: string, mm: string, yyyy: string)
    requires IsDigits(dd) && IsDigits(mm) && IsDigits(yyyy)
    ensures Split(dd + "-" + mm + "-" + yyyy, "-") == [dd, mm, yyyy]
  {
    NoDashInDigits(dd);
    NoDashInDigits(mm);
    NoDashInDigits(yyyy);
    SplitThree(dd, mm, yyyy, "-");
  }

  /** A well-formed `DD-MM-YYYY` date comes back as `YYYY-MM-DD`. */
  lemma ReformatWellFormed(dd: string, mm: string, yyyy: string)
    requires |dd| == 2 && IsDigits(dd) && |mm| == 2 && IsDigits(mm) && |yyyy| == 4 && IsDigits(yyyy)
    requires DigitsValue(yyyy) >= 1 && IsValidDate(DigitsValue(yyyy), DigitsValue(mm), DigitsValue(dd))
    ensures ReformatDate(dd + "-" + mm + "-" + yyyy) == Ok(yyyy + "-" + mm + "-" + dd)
  {
    SplitDigitFields(dd, mm, yyyy);
    assert DayField(dd) == Some(DigitsValue(dd));
    assert MonthField(mm) == Some(DigitsValue(mm));
    TwoDigitsOfValue(dd);
    TwoDigitsOfValue(mm);
  }

  lemma NoDashInDigits(t: string)
    requires IsDigits(t)
    ensures !Contains(t, "-")
  {
    forall i | 0 <= i <= |t|
      ensures !OccursAt(t, "-", i)
    {
      if i < |t| {
        assert t[i..i + 1][0] == t[i];
      }
    }
  }
}
