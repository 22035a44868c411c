/**
 * What `parseRecord` (ggd2json.py:140-197) promises about the record it
 * returns: which records it accepts, and what becomes of each field.
 */
module GgdRecordProperties {
  import opened Results
  import opened Text
  import opened GgdValues
  import opened GgdDump
  import opened GgdPersons
  import opened GgdDates
  import opened GgdEvent
  import opened GgdRecord

  /** Rejoining a field twice changes nothing more. */
  lemma CleanedTwice(v: Option<Value>)
    ensures Cleaned(Some(Cleaned(v))) == Cleaned(v)
  {
  }

  /** After the free-text loop, each field it looped over holds its cleaned value. */
  lemma {:induction false} CleanFreeTextValue(record: Fields, names: seq<string>, name: string)
    requires name in names
    ensures Get(CleanFreeText(record, names), name) == Some(Cleaned(Get(record, name)))
    decreases |names|
  {
    var init, last := names[..|names| - 1], names[|names| - 1];
    assert names == init + [last];
    if name in init {
      CleanFreeTextValue(record, init, name);
      CleanedTwice(Get(record, name));
    } else {
      CleanFreeTextKeeps(record, init, name);
    }
  }

  /** `getEvent` reads only the date, the place and the event type of a record. */
  lemma GetEventReads(a: Fields, b: Fields)
    requires Get(a, "date") == Get(b, "date") && Get(a, "place") == Get(b, "place") && Get(a, "event") == Get(b, "event")
    ensures GetEvent(a) == GetEvent(b)
  {
  }

  /** The stages of an accepted record, named. */
  lemma AcceptedStages(raw: RawRecord, r: Fields) returns (dated: Fields, described: Fields)
    requires NormalizeRecord(raw) == Ok(r)
    ensures Dated(raw) == Ok(dated) && Described(dated, raw) == Ok(described)
    ensures r == WithPeople(described, raw)["item" := Items(Holdings(raw, ArchiveOrder))]
  {
    NormalizeStages(raw, Dated(raw), if Dated(raw).Ok? then Described(Dated(raw).value, raw) else Dated(raw));
    dated := Dated(raw).value;
    described := Described(dated, raw).value;
  }

  /** The dating stage writes the three dates over the rejoined record. */
  lemma DatedAt(raw: RawRecord, dated: Fields, name: string)
    requires Dated(raw) == Ok(dated)
    requires name != "date" && name != "created" && name != "modified"
    ensures Get(dated, name) == Get(CleanFreeText(raw, FreeTextFields), name)
  {
    DatedShape(raw, dated);
  }

  /** The three dates of the dating stage. */
  lemma DatedDates(raw: RawRecord, dated: Fields)
    requires Dated(raw) == Ok(dated)
    ensures TruncatedDate(raw).Ok? && Get(dated, "date") == Some(TruncatedDate(raw).value)
    ensures ReformattedDate(raw, "created").Ok? && Get(dated, "created") == Some(Str(ReformattedDate(raw, "created").value))
    ensures ReformattedDate(raw, "modified").Ok? && Get(dated, "modified") == Some(Str(ReformattedDate(raw, "modified").value))
  {
    DatedShape(raw, dated);
  }

  /** The describing stage writes only the event and the language. */
  lemma DescribedAt(dated: Fields, raw: RawRecord, described: Fields, name: string)
    requires Described(dated, raw) == Ok(described)
    requires name != "event" && name != "language"
    ensures Get(described, name) == Get(dated, name)
  {
  }

  /** The event and the language the describing stage writes. */
  lemma DescribedFields(dated: Fields, raw: RawRecord, described: Fields)
    requires Described(dated, raw) == Ok(described)
    ensures GetEvent(dated).Ok? && Get(described, "event") == Some(EventInfo(GetEvent(dated).value))
    ensures Languages(raw).Ok? && Get(described, "language") == Some(Languages(raw).value)
  {
  }

  /** The people and archive steps write only the persons, the authors and the items. */
  lemma FinishedAt(raw: RawRecord, described: Fields, r: Fields, name: string)
    requires r == WithPeople(described, raw)["item" := Items(Holdings(raw, ArchiveOrder))]
    requires name != "person" && name != "author" && name != "item"
    ensures Get(r, name) == Get(described, name)
  {
  }

  /** What `getEvent` reads of the dated record is what the dump gave, with the date cut to ten characters. */
  lemma DatedReads(raw: RawRecord, dated: Fields)
    requires Dated(raw) == Ok(dated)
    ensures "date" in raw
    ensures Get(dated, "place") == Get(raw, "place") && Get(dated, "event") == Get(raw, "event")
    ensures raw["date"].Str? ==> Get(dated, "date") == Some(Str(Prefix(raw["date"].text, 10)))
    ensures raw["date"].Lst? ==> Get(dated, "date").Some? && Get(dated, "date").value.Lst?
  {
    NotFreeText();
    DatedAt(raw, dated, "place");
    DatedAt(raw, dated, "event");
    CleanFreeTextKeeps(raw, FreeTextFields, "place");
    CleanFreeTextKeeps(raw, FreeTextFields, "event");
    DatedDates(raw, dated);
  }

  /** The event of the dated record is the event of the dump's record with its date cut to ten characters. */
  lemma DatedEvent(raw: RawRecord, dated: Fields)
    requires Dated(raw) == Ok(dated)
    ensures "date" in raw
    ensures raw["date"].Str? ==> GetEvent(dated) == GetEvent(raw["date" := Str(Prefix(raw["date"].text, 10))])
    ensures raw["date"].Lst? ==> GetEvent(dated) == Err(WrongType("date"))
  {
    DatedReads(raw, dated);
    if raw["date"].Str? {
      GetEventReads(dated, raw["date" := Str(Prefix(raw["date"].text, 10))]);
    }
  }

  /** A free-text field is none of the fields the later steps write. */
  lemma FreeTextNotRewrittenLater(name: string)
    requires name in FreeTextFields
    ensures name != "date" && name != "created" && name != "modified" && name != "event" && name != "language"
    ensures name != "person" && name != "author" && name != "item"
  {
  }

  /**
   * A record is accepted exactly when it has a string date, `created` and
   * `modified` dates that strptime reads, an event date `getEvent` can
   * expand, and a language.
   */
  lemma RecordAccepted(raw: RawRecord)
    ensures NormalizeRecord(raw).Ok? <==>
      "date" in raw && raw["date"].Str? &&
      ReformattedDate(raw, "created").Ok? && ReformattedDate(raw, "modified").Ok? &&
      GetEvent(raw["date" := Str(Prefix(raw["date"].text, 10))]).Ok? &&
      "language" in raw
  {
    var dated := Dated(raw);
    NormalizeStages(raw, dated, if dated.Ok? then Described(dated.value, raw) else dated);
    if dated.Ok? {
      DatedEvent(raw, dated.value);
      DatedDates(raw, dated.value);
    }
  }

  /**
   * The checks run in the order `parseRecord` performs them: the date, then
   * `created`, then `modified`, then the event, then the language.
   */
  lemma RecordErrors(raw: RawRecord)
    ensures "date" !in raw ==> NormalizeRecord(raw) == Err(MissingField("date"))
    ensures "date" in raw && ReformattedDate(raw, "created").Err? ==>
      NormalizeRecord(raw) == Err(ReformattedDate(raw, "created").error)
    ensures "date" in raw && ReformattedDate(raw, "created").Ok? && ReformattedDate(raw, "modified").Err? ==>
      NormalizeRecord(raw) == Err(ReformattedDate(raw, "modified").error)
    ensures "date" in raw && raw["date"].Lst? && ReformattedDate(raw, "created").Ok? &&
            ReformattedDate(raw, "modified").Ok? ==>
      NormalizeRecord(raw) == Err(WrongType("date"))
    ensures "date" in raw && raw["date"].Str? && ReformattedDate(raw, "created").Ok? &&
            ReformattedDate(raw, "modified").Ok? ==>
      var event := GetEvent(raw["date" := Str(Prefix(raw["date"].text, 10))]);
      (event.Err? ==> NormalizeRecord(raw) == Err(event.error)) &&
      (event.Ok? && "language" !in raw ==> NormalizeRecord(raw) == Err(MissingField("language")))
  {
    var dated := Dated(raw);
    NormalizeStages(raw, dated, if dated.Ok? then Described(dated.value, raw) else dated);
    if dated.Ok? {
      DatedDates(raw, dated.value);
      DatedEvent(raw, dated.value);
    }
  }

  /**
   * Title, imprint, collation, description, comments and pages come out as
   * they were in the dump: a list is rejoined with `; `, and an absent field
   * is null.
   */
  lemma FreeTextRejoined(raw: RawRecord, r: Fields, name: string)
    requires NormalizeRecord(raw) == Ok(r)
    requires name in FreeTextFields
    ensures Get(r, name) == Some(Cleaned(Get(raw, name)))
    ensures !(r[name].Lst? && r[name].elems != [])
  {
    var dated, described := AcceptedStages(raw, r);
    FreeTextNotRewrittenLater(name);
    FinishedAt(raw, described, r, name);
    DescribedAt(dated, raw, described, name);
    DatedAt(raw, dated, name);
    CleanFreeTextValue(raw, FreeTextFields, name);
  }

  /** The rejoining undoes the splitting of the dump parser: a free-text field is the text of its line. */
  lemma FreeTextRoundTrip(raw: RawRecord, r: Fields, name: string, text: string)
    requires NormalizeRecord(raw) == Ok(r)
    requires name in FreeTextFields && name in raw && raw[name] == ParseValue(text)
    ensures Get(r, name) == Some(Str(text))
  {
    FreeTextRejoined(raw, r, name);
  }

  /**
   * The date keeps its first ten characters; `created` and `modified` are
   * rewritten from `DD-MM-YYYY` to valid extended-format dates.
   */
  lemma DatesReformatted(raw: RawRecord, r: Fields)
    requires NormalizeRecord(raw) == Ok(r)
    ensures "date" in raw && raw["date"].Str? && Get(r, "date") == Some(Str(Prefix(raw["date"].text, 10)))
    ensures "created" in raw && raw["created"].Str? && "created" in r && r["created"].Str? &&
            ReformatDate(raw["created"].text) == Ok(r["created"].text) && IsIsoDate(r["created"].text)
    ensures "modified" in raw && raw["modified"].Str? && "modified" in r && r["modified"].Str? &&
            ReformatDate(raw["modified"].text) == Ok(r["modified"].text) && IsIsoDate(r["modified"].text)
  {
    var dated, described := AcceptedStages(raw, r);
    RecordAccepted(raw);
    DatedDates(raw, dated);
    FinishedAt(raw, described, r, "date");
    FinishedAt(raw, described, r, "created");
    FinishedAt(raw, described, r, "modified");
    DescribedAt(dated, raw, described, "date");
    DescribedAt(dated, raw, described, "created");
    DescribedAt(dated, raw, described, "modified");
    ReformattedIsIso(raw["created"].text);
    ReformattedIsIso(raw["modified"].text);
  }

  /** The event is `getEvent` of the record with its date cut to ten characters. */
  lemma EventOfRecord(raw: RawRecord, r: Fields)
    requires NormalizeRecord(raw) == Ok(r)
    ensures "date" in raw && raw["date"].Str?
    ensures var dated := raw["date" := Str(Prefix(raw["date"].text, 10))];
            GetEvent(dated).Ok? && Get(r, "event") == Some(EventInfo(GetEvent(dated).value))
  {
    var dated, described := AcceptedStages(raw, r);
    DatedEvent(raw, dated);
    DescribedFields(dated, raw, described);
    FinishedAt(raw, described, r, "event");
  }

  /** The language is always a list: a single language becomes a one-element list. */
  lemma LanguageListed(raw: RawRecord, r: Fields)
    requires NormalizeRecord(raw) == Ok(r)
    ensures "language" in raw && Get(r, "language") == Some(Lst(Entries(raw["language"])))
  {
    var dated, described := AcceptedStages(raw, r);
    DescribedFields(dated, raw, described);
    FinishedAt(raw, described, r, "language");
  }

  /**
   * Persons get their roles split off; authors are never split, and a record
   * without authors gets an empty author list.
   */
  lemma PeopleOfRecord(raw: RawRecord, r: Fields)
    requires NormalizeRecord(raw) == Ok(r)
    ensures "person" in raw && Truthy(raw["person"]) ==>
      Get(r, "person") == Some(People(SplitEntries(Entries(raw["person"]), Flag(true))))
    ensures !("person" in raw && Truthy(raw["person"])) ==> Get(r, "person") == Get(raw, "person")
    ensures var names := if "author" in raw && Truthy(raw["author"]) then Entries(raw["author"]) else [];
            "author" in r && r["author"].People? && |r["author"].entries| == |names| &&
            forall j :: 0 <= j < |names| ==> r["author"].entries[j] == PersonRole(names[j], None)
  {
    var dated, described := AcceptedStages(raw, r);
    PeopleKept(raw, described);
    var names := if "author" in raw && Truthy(raw["author"]) then Entries(raw["author"]) else [];
    var authors := if "author" in raw && Truthy(raw["author"]) then SplitEntries(names, Flag(false)) else [];
    assert Get(r, "author") == Some(People(authors));
    forall j | 0 <= j < |names|
      ensures authors[j] == PersonRole(names[j], None)
    {
      NoRolesRequested(names, j);
    }
  }

  /** Every field the clean-up does not write keeps its value from the dump. */
  lemma OtherFieldsKept(raw: RawRecord, r: Fields, name: string)
    requires NormalizeRecord(raw) == Ok(r)
    requires !Rewritten(name)
    ensures Get(r, name) == Get(raw, name)
  {
    var dated, described := AcceptedStages(raw, r);
    NamedKeeps(raw, described, name);
  }

  /** The position of an archive's name in the fixed archive order, or the number of archives for any other name. */
  function ArchiveRank(name: string): (rank: nat)
    ensures rank <= |ArchiveOrder|
  {
    ArchivesNamed();
    RankIn(name, ArchiveOrder)
  }

  function RankIn(name: string, archives: seq<string>): (rank: nat)
    requires forall i :: 0 <= i < |archives| ==> archives[i] in ArchiveNames
    ensures rank <= |archives|
  {
    if archives == [] then 0
    else if ArchiveNames[archives[0]] == name then 0
    else 1 + RankIn(name, archives[1..])
  }

  /** The archives have distinct names, so each name has the rank of its archive. */
  lemma RankOfArchive(m: nat)
    requires m < |ArchiveOrder|
    ensures ArchiveRank(ArchiveNames[ArchiveOrder[m]]) == m
  {
    ArchivesNamed();
    var rest := ArchiveOrder[1..];
    assert rest == ["item_saa", "item_kb", "item_mmw", "item_mnl"];
    assert rest[1..] == ["item_kb", "item_mmw", "item_mnl"];
    assert rest[1..][1..] == ["item_mmw", "item_mnl"];
    assert rest[1..][1..][1..] == ["item_mnl"];
  }

  /** The items of the archive called `name`, in their order. */
  function OfArchive(items: seq<Item>, name: string): (kept: seq<Item>)
    ensures |kept| <= |items|
  {
    if items == [] then []
    else (if items[0].holdingArchive == name then [items[0]] else []) + OfArchive(items[1..], name)
  }

  lemma {:induction false} OfArchiveConcat(a: seq<Item>, b: seq<Item>, name: string)
    ensures OfArchive(a + b, name) == OfArchive(a, name) + OfArchive(b, name)
  {
    if a == [] {
      assert a + b == b;
    } else {
      var head := if a[0].holdingArchive == name then [a[0]] else [];
      assert (a + b)[0] == a[0] && (a + b)[1..] == a[1..] + b;
      calc {
        OfArchive(a + b, name);
        head + OfArchive(a[1..] + b, name);
        { OfArchiveConcat(a[1..], b, name); }
        head + (OfArchive(a[1..], name) + OfArchive(b, name));
        (head + OfArchive(a[1..], name)) + OfArchive(b, name);
      }
    }
  }

  lemma {:induction false} OfArchiveLocated(locations: seq<string>, archiveName: string, comment: Option<string>, name: string)
    ensures OfArchive(Located(locations, archiveName, comment), name) ==
            if archiveName == name then Located(locations, archiveName, comment) else []
  {
    var items := Located(locations, archiveName, comment);
    if locations == [] {
      assert items == [];
    } else {
      var rest := Located(locations[1..], archiveName, comment);
      assert items[1..] == rest;
      assert items[0].holdingArchive == archiveName;
      OfArchiveLocated(locations[1..], archiveName, comment, name);
      if archiveName == name {
        assert items == [items[0]] + rest;
      }
    }
  }

  /** Two archives of the fixed order share a name only when they are the same archive. */
  lemma ArchiveNamesDistinct(k: nat, m: nat)
    requires k < |ArchiveOrder| && m < |ArchiveOrder|
    ensures ArchiveNames[ArchiveOrder[k]] == ArchiveNames[ArchiveOrder[m]] <==> k == m
  {
    RankOfArchive(k);
    RankOfArchive(m);
  }

  /** Among the items of the first `n` archives, those of archive `m` are exactly its own items, in order. */
  lemma {:induction false} HoldingsOfArchive(raw: RawRecord, n: nat, m: nat)
    requires n <= |ArchiveOrder| && m < |ArchiveOrder|
    ensures OfArchive(Holdings(raw, ArchiveOrder[..n]), ArchiveNames[ArchiveOrder[m]]) ==
            if m < n then ArchiveHoldings(raw, ArchiveOrder[m]) else []
  {
    ArchivesNamed();
    if n == 0 {
      assert Holdings(raw, ArchiveOrder[..0]) == [];
    } else {
      HoldingsOfArchive(raw, n - 1, m);
      HoldingsStep(raw, n, m);
    }
  }

  /** Adding archive `n - 1` adds to the items of archive `m` exactly when the two are the same. */
  lemma HoldingsStep(raw: RawRecord, n: nat, m: nat)
    requires 0 < n <= |ArchiveOrder| && m < |ArchiveOrder|
    ensures var name := ArchiveNames[ArchiveOrder[m]];
            OfArchive(Holdings(raw, ArchiveOrder[..n]), name) ==
            OfArchive(Holdings(raw, ArchiveOrder[..n - 1]), name) +
            (if m == n - 1 then ArchiveHoldings(raw, ArchiveOrder[m]) else [])
  {
    ArchivesNamed();
    var name := ArchiveNames[ArchiveOrder[m]];
    var archive := ArchiveOrder[n - 1];
    var before := Holdings(raw, ArchiveOrder[..n - 1]);
    var added := ArchiveHoldings(raw, archive);
    assert ArchiveOrder[..n][..n - 1] == ArchiveOrder[..n - 1];
    assert Holdings(raw, ArchiveOrder[..n]) == before + added;
    OfArchiveConcat(before, added, name);
    OfArchiveLocated(Locations(raw, archive), ArchiveNames[archive], Annotation(raw, archive), name);
    ArchiveNamesDistinct(n - 1, m);
  }

  /** Every item belongs to one of the first `n` archives of the fixed order. */
  predicate RankedBelow(items: seq<Item>, n: nat)
  {
    forall i :: 0 <= i < |items| ==> ArchiveRank(items[i].holdingArchive) < n
  }

  /** The items come archive by archive, in the fixed order. */
  predicate InArchiveOrder(items: seq<Item>)
  {
    forall i, j :: 0 <= i <= j < |items| ==> ArchiveRank(items[i].holdingArchive) <= ArchiveRank(items[j].holdingArchive)
  }

  /** Appending the items of the next archive keeps the list in archive order. */
  lemma AppendRanked(before: seq<Item>, added: seq<Item>, k: nat)
    requires RankedBelow(before, k) && InArchiveOrder(before)
    requires forall i :: 0 <= i < |added| ==> ArchiveRank(added[i].holdingArchive) == k
    ensures RankedBelow(before + added, k + 1) && InArchiveOrder(before + added)
  {
    var items := before + added;
    forall i | 0 <= i < |items|
      ensures ArchiveRank(items[i].holdingArchive) == if i < |before| then ArchiveRank(before[i].holdingArchive) else k
    {
      if i >= |before| {
        assert items[i] == added[i - |before|];
      }
    }
  }

  /** The items of one archive all carry its rank. */
  lemma ArchiveHoldingsRank(raw: RawRecord, m: nat)
    requires m < |ArchiveOrder|
    ensures forall i :: 0 <= i < |ArchiveHoldings(raw, ArchiveOrder[m])| ==>
      ArchiveRank(ArchiveHoldings(raw, ArchiveOrder[m])[i].holdingArchive) == m
  {
    RankOfArchive(m);
  }

  /** The items of the first `n` archives come archive by archive, in the fixed order. */
  lemma {:induction false} HoldingsRanked(raw: RawRecord, n: nat)
    requires n <= |ArchiveOrder|
    ensures RankedBelow(Holdings(raw, ArchiveOrder[..n]), n)
    ensures InArchiveOrder(Holdings(raw, ArchiveOrder[..n]))
  {
    ArchivesNamed();
    if n > 0 {
      assert ArchiveOrder[..n][..n - 1] == ArchiveOrder[..n - 1];
      HoldingsRanked(raw, n - 1);
      ArchiveHoldingsRank(raw, n - 1);
      AppendRanked(Holdings(raw, ArchiveOrder[..n - 1]), ArchiveHoldings(raw, ArchiveOrder[n - 1]), n - 1);
    }
  }

  /**
   * The item list holds the items of the archives in the fixed order cbg,
   * saa, kb, mmw, mnl; each archive contributes one item per location, with
   * that archive's name and annotation.
   */
  lemma ItemsOfRecord(raw: RawRecord, r: Fields)
    requires NormalizeRecord(raw) == Ok(r)
    ensures "item" in r && r["item"].Items?
    ensures RankedBelow(r["item"].holdings, |ArchiveOrder|) && InArchiveOrder(r["item"].holdings)
    ensures forall m :: 0 <= m < |ArchiveOrder| ==>
              OfArchive(r["item"].holdings, ArchiveNames[ArchiveOrder[m]]) == ArchiveHoldings(raw, ArchiveOrder[m])
  {
    var dated, described := AcceptedStages(raw, r);
    ArchivesNamed();
    assert ArchiveOrder[..|ArchiveOrder|] == ArchiveOrder;
    HoldingsRanked(raw, |ArchiveOrder|);
    forall m | 0 <= m < |ArchiveOrder|
      ensures OfArchive(r["item"].holdings, ArchiveNames[ArchiveOrder[m]]) == ArchiveHoldings(raw, ArchiveOrder[m])
    {
      HoldingsOfArchive(raw, |ArchiveOrder|, m);
    }
  }
}
