/**
 * `parseRecord` (ggd2json.py:140-197): the field-level clean-up of one
 * record of the dump. `NormalizeRecord` says what the cleaned record is;
 * the method `ParseRecord` performs the clean-up step by step, updating
 * its record in place as the converter does.
 */
module GgdRecord {
  import opened Results
  import opened Text
  import opened GgdValues
  import opened GgdDump
  import opened GgdPersons
  import opened GgdDates
  import opened GgdEvent

  /** Fields whose values hold `; ` as text and so should not have been split. */
  const FreeTextFields: seq<string> := ["title", "impressum", "collate", "description", "comments", "pages"]

  /** What a free-text field becomes: a list is rejoined, an absent or null field is null. */
  function Cleaned(v: Option<Value>): Value
  {
    match v
    case None => Null
    case Some(x) => if x.Lst? && x.elems != [] then Str(Join(x.elems, ListSeparator)) else x
  }

  /** One round of the free-text loop, for the field `name`. */
  function CleanField(record: Fields, name: string): Fields
  {
    var cleaned := Cleaned(Get(record, name));
    if Get(record, name) == Some(cleaned) then record else record[name := cleaned]
  }

  /** The free-text loop over `names`, in order. */
  function CleanFreeText(record: Fields, names: seq<string>): Fields
  {
    if names == [] then record
    else CleanField(CleanFreeText(record, names[..|names| - 1]), names[|names| - 1])
  }

  /** `record['date'][:10]`. */
  function TruncatedDate(raw: RawRecord): Result<RawValue, Error>
  {
    if "date" !in raw then Err(MissingField("date"))
    else
      var date := raw["date"];
      if date.Str? then Ok(Str(Prefix(date.text, 10))) else Ok(Lst(Prefix(date.elems, 10)))
  }

  /** `datetime.strptime(record[name], '%d-%m-%Y').strftime('%Y-%m-%d')`. */
  function ReformattedDate(raw: RawRecord, name: string): Result<string, Error>
  {
    if name !in raw then Err(MissingField(name))
    else if !raw[name].Str? then Err(WrongType(name))
    else ReformatDate(raw[name].text)
  }

  /** The language field, wrapped in a list when it is a single string. */
  function Languages(raw: RawRecord): Result<Value, Error>
  {
    if "language" !in raw then Err(MissingField("language")) else Ok(Lst(Entries(raw["language"])))
  }

  /** Persons with their roles split off; authors without, and an empty author list when there are none. */
  function WithPeople(record: Fields, raw: RawRecord): Fields
  {
    var record := if "person" in raw && Truthy(raw["person"])
      then record["person" := People(SplitEntries(Entries(raw["person"]), Flag(true)))]
      else record;
    record["author" := People(
      if "author" in raw && Truthy(raw["author"]) then SplitEntries(Entries(raw["author"]), Flag(false)) else [])]
  }

  /** The annotation of a holding archive, joined with `; ` when it was split. */
  function Annotation(raw: RawRecord, archive: string): Option<string>
  {
    var name := archive + "_annotation";
    if name !in raw then None
    else if raw[name].Str? then Some(raw[name].text)
    else Some(Join(raw[name].elems, ListSeparator))
  }

  /** The shelf marks an archive holds: none when its field is absent or empty. */
  function Locations(raw: RawRecord, archive: string): seq<string>
  {
    if archive in raw && Truthy(raw[archive]) then Entries(raw[archive]) else []
  }

  /** One item per location, all in the same archive with the same comment. */
  function Located(locations: seq<string>, archiveName: string, comment: Option<string>): seq<Item>
  {
    seq(|locations|, j requires 0 <= j < |locations| => Item(locations[j], archiveName, comment))
  }

  /** The items of one archive. */
  function ArchiveHoldings(raw: RawRecord, archive: string): seq<Item>
    requires archive in ArchiveNames
  {
    Located(Locations(raw, archive), ArchiveNames[archive], Annotation(raw, archive))
  }

  /** The items of the archives `archives`, archive by archive. */
  function Holdings(raw: RawRecord, archives: seq<string>): seq<Item>
    requires forall i :: 0 <= i < |archives| ==> archives[i] in ArchiveNames
  {
    if archives == [] then []
    else Holdings(raw, archives[..|archives| - 1]) + ArchiveHoldings(raw, archives[|archives| - 1])
  }

  /** The record once its free-text fields are rejoined and its dates reformatted. */
  function Dated(raw: RawRecord): Result<Fields, Error>
  {
    var cleaned := CleanFreeText(raw, FreeTextFields);
    var date :- TruncatedDate(raw);
    var created :- ReformattedDate(raw, "created");
    var modified :- ReformattedDate(raw, "modified");
    Ok(cleaned["date" := date]["created" := Str(created)]["modified" := Str(modified)])
  }

  /** The dated record with its event worked out and its language as a list. */
  function Described(dated: Fields, raw: RawRecord): Result<Fields, Error>
  {
    var event :- GetEvent(dated);
    var language :- Languages(raw);
    Ok(dated["event" := EventInfo(event)]["language" := language])
  }

  /** The record `parseRecord(raw)` returns, or the exception it raises. */
  function NormalizeRecord(raw: RawRecord): (r: Result<Fields, Error>)
    ensures r.Ok? ==> "event" in r.value && r.value["event"].EventInfo? &&
                      "language" in r.value && r.value["language"].Lst?
    ensures r.Ok? ==> "author" in r.value && r.value["author"].People? &&
                      "item" in r.value && r.value["item"].Items?
  {
    var dated :- Dated(raw);
    var described :- Described(dated, raw);
    Ok(WithPeople(described, raw)["item" := Items(Holdings(raw, ArchiveOrder))])
  }

  /** The fields the clean-up writes; every other field keeps its value from the dump. */
  predicate Rewritten(name: string)
  {
    name in FreeTextFields ||
    name in {"date", "created", "modified", "event", "language", "person", "author", "item"}
  }

  /** Rejoining and reformatting write only the free-text fields and the three dates. */
  lemma DatedKeeps(raw: RawRecord, name: string)
    requires Dated(raw).Ok?
    requires name !in FreeTextFields && name != "date" && name != "created" && name != "modified"
    ensures Get(Dated(raw).value, name) == Get(raw, name)
  {
    DatedShape(raw, Dated(raw).value);
    CleanFreeTextKeeps(raw, FreeTextFields, name);
    DatesKeep(CleanFreeText(raw, FreeTextFields), TruncatedDate(raw).value,
              Str(ReformattedDate(raw, "created").value), Str(ReformattedDate(raw, "modified").value), name);
  }

  /** Writing the three dates leaves every other field as it was. */
  lemma DatesKeep(record: Fields, date: Value, created: Value, modified: Value, name: string)
    requires name != "date" && name != "created" && name != "modified"
    ensures Get(record["date" := date]["created" := created]["modified" := modified], name) == Get(record, name)
  {
  }

  /** The dating stage writes the three dates over the rejoined record. */
  lemma DatedShape(raw: RawRecord, dated: Fields)
    requires Dated(raw) == Ok(dated)
    ensures TruncatedDate(raw).Ok? && ReformattedDate(raw, "created").Ok? && ReformattedDate(raw, "modified").Ok?
    ensures dated == CleanFreeText(raw, FreeTextFields)["date" := TruncatedDate(raw).value]
                       ["created" := Str(ReformattedDate(raw, "created").value)]
                       ["modified" := Str(ReformattedDate(raw, "modified").value)]
  {
  }

  /** The fields the later steps read or write are not free-text fields. */
  lemma NotFreeText()
    ensures "date" !in FreeTextFields && "created" !in FreeTextFields && "modified" !in FreeTextFields
    ensures "language" !in FreeTextFields && "person" !in FreeTextFields && "author" !in FreeTextFields
    ensures "place" !in FreeTextFields && "event" !in FreeTextFields
  {
  }

  /** The free-text loop writes only the fields it loops over. */
  lemma {:induction false} CleanFreeTextKeeps(record: Fields, names: seq<string>, name: string)
    requires name !in names
    ensures Get(CleanFreeText(record, names), name) == Get(record, name)
  {
    if names != [] {
      CleanFreeTextKeeps(record, names[..|names| - 1], name);
    }
  }

  /** The free-text loop of `parseRecord`, on the record in place. */
  method RejoinFreeText(raw: Fields) returns (record: Fields)
    ensures record == CleanFreeText(raw, FreeTextFields)
  {
    record := raw;
    for i := 0 to |FreeTextFields|
      invariant record == CleanFreeText(raw, FreeTextFields[..i])
    {
      var name := FreeTextFields[i];
      assert FreeTextFields[..i + 1][..i] == FreeTextFields[..i];
      var v := Get(record, name);
      if v.Some? && v.value.Lst? && v.value.elems != [] {
        record := record[name := Str(Join(v.value.elems, ListSeparator))];
      } else if v.None? || v.value.Null? {
        record := record[name := Null];
      }
    }
    assert FreeTextFields[..|FreeTextFields|] == FreeTextFields;
  }

  /** Every archive of the fixed order has a name. */
  lemma ArchivesNamed()
    ensures forall i :: 0 <= i < |ArchiveOrder| ==> ArchiveOrder[i] in ArchiveNames
  {
  }

  /** The fields the archive loop reads are left alone by the steps before it. */
  lemma ArchiveFieldsKept(i: nat)
    requires i < |ArchiveOrder|
    ensures !Rewritten(ArchiveOrder[i]) && !Rewritten(ArchiveOrder[i] + "_annotation")
  {
  }

  /** One round of the archive loop of `parseRecord`: the items of `archive`. */
  method ArchiveItems(record: Fields, archive: string, ghost raw: RawRecord) returns (items: seq<Item>)
    requires archive in ArchiveNames
    requires Get(record, archive) == Get(raw, archive)
    requires Get(record, archive + "_annotation") == Get(raw, archive + "_annotation")
    ensures items == ArchiveHoldings(raw, archive)
  {
    items := [];
    if archive in record && Truthy(record[archive]) {
      var annotation := archive + "_annotation";
      var comment: Option<string> := None;
      if annotation in record {
        var c: RawValue := record[annotation];
        comment := if c.Lst? then Some(Join(c.elems, ListSeparator)) else Some(c.text);
      }
      var value: RawValue := record[archive];
      var locations := if value.Lst? then value.elems else [value.text];
      for j := 0 to |locations|
        invariant items == Located(locations[..j], ArchiveNames[archive], comment)
      {
        items := items + [Item(locations[j], ArchiveNames[archive], comment)];
      }
      assert locations[..|locations|] == locations;
    }
  }

  /** The archive loop of `parseRecord`: the item list, archive by archive in the fixed order. */
  method ExpandHoldings(record: Fields, ghost raw: RawRecord) returns (holdings: seq<Item>)
    requires forall i :: 0 <= i < |ArchiveOrder| ==>
      Get(record, ArchiveOrder[i]) == Get(raw, ArchiveOrder[i]) &&
      Get(record, ArchiveOrder[i] + "_annotation") == Get(raw, ArchiveOrder[i] + "_annotation")
    ensures holdings == Holdings(raw, ArchiveOrder)
  {
    ArchivesNamed();
    holdings := [];
    for i := 0 to |ArchiveOrder|
      invariant holdings == Holdings(raw, ArchiveOrder[..i])
    {
      assert ArchiveOrder[..i + 1][..i] == ArchiveOrder[..i];
      var items := ArchiveItems(record, ArchiveOrder[i], raw);
      holdings := holdings + items;
    }
    assert ArchiveOrder[..|ArchiveOrder|] == ArchiveOrder;
  }

  /** The first half of `parseRecord`: the free-text loop and the three dates. */
  method RejoinAndReformat(raw: RawRecord) returns (result: Result<Fields, Error>)
    ensures result == Dated(raw)
  {
    var record := RejoinFreeText(raw);
    NotFreeText();
    CleanFreeTextKeeps(raw, FreeTextFields, "date");
    CleanFreeTextKeeps(raw, FreeTextFields, "created");
    CleanFreeTextKeeps(raw, FreeTextFields, "modified");
    if "date" !in record {
      return Err(MissingField("date"));
    }
    var date: RawValue := record["date"];
    if date.Str? {
      record := record["date" := Str(Prefix(date.text, 10))];
    } else {
      record := record["date" := Lst(Prefix(date.elems, 10))];
    }
    if "created" !in record {
      return Err(MissingField("created"));
    }
    if !record["created"].Str? {
      return Err(WrongType("created"));
    }
    var created :- ReformatDate(record["created"].text);
    record := record["created" := Str(created)];
    if "modified" !in record {
      return Err(MissingField("modified"));
    }
    if !record["modified"].Str? {
      return Err(WrongType("modified"));
    }
    var modified :- ReformatDate(record["modified"].text);
    record := record["modified" := Str(modified)];
    return Ok(record);
  }

  /** The persons and authors step of `parseRecord`, on the record in place. */
  method SplitPeople(record: Fields, ghost raw: RawRecord) returns (named: Fields)
    requires Get(record, "person") == Get(raw, "person") && Get(record, "author") == Get(raw, "author")
    ensures named == WithPeople(record, raw)
  {
    named := record;
    if "person" in named && Truthy(named["person"]) {
      var people := GetPersons(named["person"], true);
      named := named["person" := People(people)];
    }
    if "author" in named && Truthy(named["author"]) {
      var people := GetPersons(named["author"], false);
      named := named["author" := People(people)];
    } else {
      named := named["author" := People([])];
    }
  }

  /** The event and language steps of `parseRecord`, on the record in place. */
  method DescribeEvent(record: Fields, ghost raw: RawRecord) returns (result: Result<Fields, Error>)
    requires Get(record, "language") == Get(raw, "language")
    ensures result == Described(record, raw)
  {
    var described := record;
    var event :- GetEvent(described);
    described := described["event" := EventInfo(event)];
    if "language" !in described {
      return Err(MissingField("language"));
    }
    var language: RawValue := described["language"];
    if !language.Lst? {
      described := described["language" := Lst([language.text])];
    } else {
      assert described == described["language" := Lst(Entries(language))];
    }
    return Ok(described);
  }

  /** `NormalizeRecord` is the three stages in turn. */
  lemma NormalizeStages(raw: RawRecord, dated: Result<Fields, Error>, described: Result<Fields, Error>)
    requires dated == Dated(raw) && (dated.Ok? ==> described == Described(dated.value, raw))
    ensures dated.Err? ==> NormalizeRecord(raw) == Err(dated.error)
    ensures dated.Ok? && described.Err? ==> NormalizeRecord(raw) == Err(described.error)
    ensures dated.Ok? && described.Ok? ==>
      NormalizeRecord(raw) == Ok(WithPeople(described.value, raw)["item" := Items(Holdings(raw, ArchiveOrder))])
  {
  }

  /** The people step reads the person and author fields as the dump gave them. */
  lemma PeopleKept(raw: RawRecord, described: Fields)
    requires Dated(raw).Ok? && Described(Dated(raw).value, raw) == Ok(described)
    ensures Get(described, "person") == Get(raw, "person") && Get(described, "author") == Get(raw, "author")
  {
    var dated := Dated(raw).value;
    NotFreeText();
    DatedKeeps(raw, "person");
    DatedKeeps(raw, "author");
    var event := GetEvent(dated).value;
    assert described == dated["event" := EventInfo(event)]["language" := Languages(raw).value];
  }

  /** Up to the archive loop, the fields outside `Rewritten` keep their values from the dump. */
  lemma NamedKeeps(raw: RawRecord, described: Fields, name: string)
    requires Dated(raw).Ok? && Described(Dated(raw).value, raw) == Ok(described)
    requires !Rewritten(name)
    ensures Get(WithPeople(described, raw), name) == Get(raw, name)
  {
    DatedKeeps(raw, name);
  }

  /** Up to the archive loop, the fields the archive loop reads keep their values from the dump. */
  lemma ArchivesKept(raw: RawRecord, described: Fields)
    requires Dated(raw).Ok? && Described(Dated(raw).value, raw) == Ok(described)
    ensures forall i :: 0 <= i < |ArchiveOrder| ==>
      Get(WithPeople(described, raw), ArchiveOrder[i]) == Get(raw, ArchiveOrder[i]) &&
      Get(WithPeople(described, raw), ArchiveOrder[i] + "_annotation") == Get(raw, ArchiveOrder[i] + "_annotation")
  {
    forall i | 0 <= i < |ArchiveOrder|
      ensures Get(WithPeople(described, raw), ArchiveOrder[i]) == Get(raw, ArchiveOrder[i])
      ensures Get(WithPeople(described, raw), ArchiveOrder[i] + "_annotation") == Get(raw, ArchiveOrder[i] + "_annotation")
    {
      ArchiveFieldsKept(i);
      NamedKeeps(raw, described, ArchiveOrder[i]);
      NamedKeeps(raw, described, ArchiveOrder[i] + "_annotation");
    }
  }

  /** `parseRecord(record)`. */
  method ParseRecord(raw: RawRecord) returns (result: Result<Fields, Error>)
    ensures result == NormalizeRecord(raw)
  {
    var dated := RejoinAndReformat(raw);
    if dated.Err? {
      NormalizeStages(raw, dated, dated);
      return Err(dated.error);
    }
    var record := dated.value;
    NotFreeText();
    DatedKeeps(raw, "language");
    var described := DescribeEvent(record, raw);
    NormalizeStages(raw, dated, described);
    if described.Err? {
      return Err(described.error);
    }
    PeopleKept(raw, described.value);
    record := SplitPeople(described.value, raw);
    ArchivesKept(raw, described.value);
    // the item list starts empty and is only appended to
    var holdings := ExpandHoldings(record, raw);
    record := record["item" := Items(holdings)];
    return Ok(record);
  }
}
