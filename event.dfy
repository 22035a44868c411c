/**
 * `getEvent` (ggd2json.py:100-137): the date of a record as an interval of
 * calendar dates, with the event's places and types as lists.
 */
module GgdEvent {
  import opened Results
  import opened Text
  import opened Calendar
  import opened GgdValues
  import opened GgdDates

  /**
   * The place or event type of an event: a non-empty string becomes a
   * one-element list, an absent field an empty list, anything else passes.
   */
  function EventList(v: Option<Value>): (l: Value)
    ensures !(l.Str? && l.text != "")
    ensures v.None? ==> l == Lst([])
    ensures v.Some? && v.value.Str? && v.value.text != "" ==> l == Lst([v.value.text])
    ensures v.Some? && !v.value.Str? ==> l == v.value
  {
    match v
    case None => Lst([])
    case Some(x) => if x.Str? && x.text != "" then Lst([x.text]) else x
  }

  /** `getEvent(record)`. */
  function GetEvent(record: Fields): (r: Result<Event, Error>)
    ensures r.Ok? ==> "date" in record && record["date"].Str?
    ensures r.Ok? ==> (r.value.timeStamp.Some? <==> !EndsWith(record["date"].text, "00"))
    ensures r.Ok? && r.value.timeStamp.Some? ==>
              r.value.timeStamp.value == r.value.earliestBeginTimeStamp == r.value.latestEndTimeStamp == record["date"].text
    ensures r.Ok? ==> !(r.value.place.Str? && r.value.place.text != "") &&
                      !(r.value.eventType.Str? && r.value.eventType.text != "")
  {
    if "date" !in record then Err(MissingField("date"))
    else if !record["date"].Str? then Err(WrongType("date"))
    else
      var date := record["date"].text;
      var place, eventType := EventList(Get(record, "place")), EventList(Get(record, "event"));
      if EndsWith(date, "00-00") then
        Ok(Event(None, Prefix(date, 4) + "-01-01", Prefix(date, 4) + "-12-31", place, eventType))
      else if EndsWith(date, "00") then
        match ParseInt(Prefix(date, 4))
        case None => Err(BadNumber(Prefix(date, 4)))
        case Some(year) =>
          match ParseInt(Slice(date, 5, 7))
          case None => Err(BadNumber(Slice(date, 5, 7)))
          case Some(month) =>
            if month < 1 || 12 < month then Err(BadMonth(month))
            else
              var lastDay := DaysInMonth(year, month);
              Ok(Event(None, Prefix(date, 7) + "-01", Prefix(date, 7) + "-" + DecimalText(lastDay), place, eventType))
      else
        Ok(Event(Some(date), date, date, place, eventType))
  }

  /** A date of the dump's shape `YYYY-MM-DD`, where month and day may be `00`. */
  predicate IsDumpDate(date: string)
  {
    |date| == 10 && IsDigits(date[..4]) && date[4] == '-' && IsDigits(date[5..7]) && date[7] == '-' &&
    IsDigits(date[8..])
  }

  /** A date whose month and day are both `00` covers its whole year, from January 1 to December 31. */
  lemma YearOnlyEvent(record: Fields, date: string)
    requires "date" in record && record["date"] == Str(date) && IsDumpDate(date)
    requires date[5..] == "00-00"
    ensures GetEvent(record).Ok?
    ensures var e := GetEvent(record).value;
            e.timeStamp.None? &&
            e.earliestBeginTimeStamp == date[..4] + "-01-01" && e.latestEndTimeStamp == date[..4] + "-12-31" &&
            IsIsoDate(e.earliestBeginTimeStamp) && IsIsoDate(e.latestEndTimeStamp) &&
            !IsValidDate(DigitsValue(date[..4]), 12, 32)
  {
    assert EndsWith(date, "00-00");
    assert Prefix(date, 4) == date[..4];
    YearEnds(date[..4]);
  }

  /** January 1 and December 31 of a four-digit year, in extended format. */
  lemma YearEnds(year: string)
    requires |year| == 4 && IsDigits(year)
    ensures IsIsoDate(year + "-01-01") && IsIsoDate(year + "-12-31")
    ensures !IsValidDate(DigitsValue(year), 12, 32)
  {
    assert year + "-01-01" == year + "-" + "01" + "-" + "01";
    assert year + "-12-31" == year + "-" + "12" + "-" + "31";
    YearDay(year, "01", "01");
    YearDay(year, "12", "31");
  }

  /** A day given by two two-digit literals, in extended format. */
  lemma YearDay(year: string, month: string, day: string)
    requires |year| == 4 && IsDigits(year) && |month| == 2 && IsDigits(month) && |day| == 2 && IsDigits(day)
    requires IsValidDate(DigitsValue(year), DigitValue(month[0]) * 10 + DigitValue(month[1]), DigitValue(day[0]) * 10 + DigitValue(day[1]))
    ensures IsIsoDate(year + "-" + month + "-" + day)
  {
    TwoDigitValue(month);
    TwoDigitValue(day);
    IsoOfFields(year, month, day);
  }

  /**
   * A date whose day alone is `00` covers its month, from day 1 to the
   * month's Gregorian length.
   */
  lemma MonthOnlyEvent(record: Fields, date: string)
    requires "date" in record && record["date"] == Str(date) && IsDumpDate(date)
    requires date[8..] == "00" && date[5..7] != "00"
    requires 1 <= DigitsValue(date[5..7]) <= 12
    ensures GetEvent(record).Ok?
    ensures var year, month := DigitsValue(date[..4]), DigitsValue(date[5..7]);
            var lastDay := DaysInMonth(year, month);
            var e := GetEvent(record).value;
            e.timeStamp.None? &&
            e.earliestBeginTimeStamp == date[..8] + "01" &&
            e.latestEndTimeStamp == date[..8] + DecimalText(lastDay) &&
            IsIsoDate(e.earliestBeginTimeStamp) && IsIsoDate(e.latestEndTimeStamp) &&
            DigitsValue(e.latestEndTimeStamp[8..]) == lastDay &&
            !IsValidDate(year, month, lastDay + 1) &&
            (month == 2 ==> (lastDay == 29 <==> IsLeapYear(year)))
  {
    MonthOnlyShape(record, date);
    MonthEnds(date);
  }

  /** The first and the last day of the month of a dump date, in extended format. */
  lemma MonthEnds(date: string)
    requires IsDumpDate(date) && 1 <= DigitsValue(date[5..7]) <= 12
    ensures var lastDay := DaysInMonth(DigitsValue(date[..4]), DigitsValue(date[5..7]));
            var dayText := DecimalText(lastDay);
            IsIsoDate(date[..8] + "01") && IsIsoDate(date[..8] + dayText) &&
            DigitsValue((date[..8] + dayText)[8..]) == lastDay
  {
    var lastDay := DaysInMonth(DigitsValue(date[..4]), DigitsValue(date[5..7]));
    var dayText := DecimalText(lastDay);
    DecimalTextValue(lastDay);
    assert |dayText| == 2 by {
      if |dayText| != 2 { DecimalTextLength(lastDay); }
    }
    TwoDigitValue("01");
    assert date[..8] + "01" == date[..4] + "-" + date[5..7] + "-" + "01";
    assert date[..8] + dayText == date[..4] + "-" + date[5..7] + "-" + dayText;
    IsoOfFields(date[..4], date[5..7], "01");
    IsoOfFields(date[..4], date[5..7], dayText);
    assert (date[..8] + dayText)[8..] == dayText;
  }

  /** A date whose day alone is `00` but whose month is outside 1..12 is an error. */
  lemma BadMonthEvent(record: Fields, date: string)
    requires "date" in record && record["date"] == Str(date) && IsDumpDate(date)
    requires date[8..] == "00" && date[5..7] != "00"
    requires !(1 <= DigitsValue(date[5..7]) <= 12)
    ensures GetEvent(record) == Err(BadMonth(DigitsValue(date[5..7])))
  {
    MonthOnlyShape(record, date);
  }

  /** What `getEvent` returns for a date whose day alone is `00`. */
  lemma MonthOnlyShape(record: Fields, date: string)
    requires "date" in record && record["date"] == Str(date) && IsDumpDate(date)
    requires date[8..] == "00" && date[5..7] != "00"
    ensures var year, month := DigitsValue(date[..4]), DigitsValue(date[5..7]);
            var place, eventType := EventList(Get(record, "place")), EventList(Get(record, "event"));
            GetEvent(record) ==
              if 1 <= month <= 12 then
                Ok(Event(None, date[..8] + "01", date[..8] + DecimalText(DaysInMonth(year, month)), place, eventType))
              else Err(BadMonth(month))
  {
    assert EndsWith(date, "00") && !EndsWith(date, "00-00");
    assert Prefix(date, 4) == date[..4] && Slice(date, 5, 7) == date[5..7];
    assert Prefix(date, 7) + "-" == date[..8];
    assert Prefix(date, 7) + "-01" == date[..8] + "01";
    assert ParseInt(date[..4]) == Some(DigitsValue(date[..4]));
    assert ParseInt(date[5..7]) == Some(DigitsValue(date[5..7]));
  }

  /** A date that does not end in `00` is its own timestamp and both ends of its interval. */
  lemma FullDateEvent(record: Fields, date: string)
    requires "date" in record && record["date"] == Str(date)
    requires !EndsWith(date, "00")
    ensures GetEvent(record).Ok?
    ensures var e := GetEvent(record).value;
            e.timeStamp == Some(date) && e.earliestBeginTimeStamp == date && e.latestEndTimeStamp == date
  {
  }

  /** The date must be present and a string. */
  lemma EventNeedsDate(record: Fields)
    ensures "date" !in record ==> GetEvent(record) == Err(MissingField("date"))
    ensures "date" in record && !record["date"].Str? ==> GetEvent(record) == Err(WrongType("date"))
  {
  }

  /**
   * Places and event types are normalised alike: a string becomes a
   * one-element list, a list passes through, an absent field is an empty
   * list; only the empty string stays a string.
   */
  lemma PlaceAndTypeLists(record: Fields)
    requires forall k :: k in record ==> record[k].Str? || record[k].Lst?
    requires GetEvent(record).Ok?
    ensures var e := GetEvent(record).value;
            (e.place.Lst? || e.place == Str("")) && (e.eventType.Lst? || e.eventType == Str(""))
    ensures var e := GetEvent(record).value;
            e.place.Lst? ==> e.place.elems == if "place" in record then Entries(record["place"]) else []
    ensures var e := GetEvent(record).value;
            e.eventType.Lst? ==> e.eventType.elems == if "event" in record then Entries(record["event"]) else []
  {
    var e := GetEvent(record).value;
    assert e.place == EventList(Get(record, "place")) && e.eventType == EventList(Get(record, "event"));
    EventListOf(record, "place");
    EventListOf(record, "event");
  }

  /** The list a dump field becomes. */
  lemma EventListOf(record: Fields, name: string)
    requires name in record ==> record[name].Str? || record[name].Lst?
    ensures var l := EventList(Get(record, name));
            (l.Lst? || l == Str("")) &&
            (l.Lst? ==> l.elems == if name in record then Entries(record[name]) else [])
  {
  }

  lemma TwoDigitValue(t: string)
    requires |t| == 2 && IsDigits(t)
    ensures DigitsValue(t) == DigitValue(t[0]) * 10 + DigitValue(t[1])
  {
    assert t[..1] == [t[0]] && t[..1][..0] == [];
    assert DigitsValue(t[..1]) == DigitValue(t[0]);
  }

  lemma DecimalTextLength(n: nat)
    requires 10 <= n < 100
    ensures |DecimalText(n)| == 2
  {
  }
}
