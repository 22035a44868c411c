/**
 * `getRecords`: cutting the dump text into records and each record into
 * coded lines (ggd2json.py:58-78). The file is taken as its decoded text.
 */
module GgdDump {
  import opened Results
  import opened Text
  import opened GgdValues

  /** The text `\n$\n` at which the dump is cut into records, each time at its leftmost remaining occurrence. */
  const RecordSeparator: string := "\n$\n"

  /** The separator that marks a value as a list. */
  const ListSeparator: string := "; "

  /** A raw value: a list exactly when it contains `; `, and then the list joins back to it. */
  function ParseValue(text: string): (v: RawValue)
    ensures v.Lst? <==> Contains(text, ListSeparator)
    ensures v.Str? ==> v.text == text
    ensures v.Lst? ==> |v.elems| >= 2 && Join(v.elems, ListSeparator) == text
    ensures v.Lst? ==> forall k :: 0 <= k < |v.elems| ==> !Contains(v.elems[k], ListSeparator)
  {
    if Contains(text, ListSeparator) then Lst(Split(text, ListSeparator)) else Str(text)
  }

  /** A field name and its value, as one line of the dump gives them. */
  type Entry = (string, RawValue)

  /** One line: a code, a space, a value; the code is renamed through `codes` (the `Keys` table). */
  function ParseLine(line: string, codes: map<string, string>): (r: Result<Entry, Error>)
    ensures r == Err(MissingSpace(line)) <==> !Contains(line, " ")
    ensures r.Err? && !r.error.MissingSpace? ==> r.error.UnknownCode? && r.error.code !in codes
    ensures r.Ok? ==> r.value.0 in codes.Values
  {
    match Find(line, " ")
    case None => Err(MissingSpace(line))
    case Some(i) =>
      var code := line[..i];
      if code in codes then Ok((codes[code], ParseValue(line[i + 1..])))
      else Err(UnknownCode(code))
  }

  /** `d[name] = value` for each parsed line in turn, starting from `{}`; the first exception stops it. */
  function Assemble(parsed: seq<Result<Entry, Error>>): Result<RawRecord, Error>
    decreases |parsed|
  {
    if parsed == [] then Ok(map[])
    else
      var record :- Assemble(parsed[..|parsed| - 1]);
      var entry :- parsed[|parsed| - 1];
      Ok(record[entry.0 := entry.1])
  }

  /** `records.append(d)` for each parsed chunk in turn; the first exception stops it. */
  function Gather(parsed: seq<Result<RawRecord, Error>>): (r: Result<seq<RawRecord>, Error>)
    ensures r.Ok? ==> |r.value| == |parsed|
    decreases |parsed|
  {
    if parsed == [] then Ok([])
    else
      var records :- Gather(parsed[..|parsed| - 1]);
      var record :- parsed[|parsed| - 1];
      Ok(records + [record])
  }

  /** Each line of a chunk, parsed. */
  function ParsedLines(lines: seq<string>, codes: map<string, string>): seq<Result<Entry, Error>>
  {
    seq(|lines|, j requires 0 <= j < |lines| => ParseLine(lines[j], codes))
  }

  /** The dictionary of one chunk of the dump. */
  function ParseChunk(chunk: string, codes: map<string, string>): Result<RawRecord, Error>
  {
    Assemble(ParsedLines(Split(chunk, "\n"), codes))
  }

  /** Each chunk of the dump, parsed. */
  function ParsedChunks(chunks: seq<string>, codes: map<string, string>): seq<Result<RawRecord, Error>>
  {
    seq(|chunks|, k requires 0 <= k < |chunks| => ParseChunk(chunks[k], codes))
  }

  /** What `getRecords` returns for a dump, or the exception it raises. */
  function ParseDump(data: string): (r: Result<seq<RawRecord>, Error>)
    ensures r.Ok? ==> |r.value| == |Split(data, RecordSeparator)|
  {
    Gather(ParsedChunks(Split(data, RecordSeparator), Keys))
  }

  /** `getRecords` on the dump's text. */
  method GetRecords(data: string) returns (result: Result<seq<RawRecord>, Error>)
    ensures result == ParseDump(data)
  {
    var chunks := Split(data, RecordSeparator);
    ghost var parsedChunks := ParsedChunks(chunks, Keys);
    var records: seq<RawRecord> := [];
    for c := 0 to |chunks|
      invariant Gather(parsedChunks[..c]) == Ok(records)
    {
      assert parsedChunks[c] == ParseChunk(chunks[c], Keys);
      var d := ReadRecord(chunks[c]);
      if d.Err? {
        GatherStopsAtError(parsedChunks, c);
        return Err(d.error);
      }
      GatherExtend(parsedChunks, c);
      records := records + [d.value];
    }
    assert parsedChunks[..|chunks|] == parsedChunks;
    return Ok(records);
  }

  /** The inner loop of `getRecords`: the dictionary of one chunk, line by line. */
  method ReadRecord(chunk: string) returns (result: Result<RawRecord, Error>)
    ensures result == ParseChunk(chunk, Keys)
  {
    var lines := Split(chunk, "\n");
    ghost var parsedLines := ParsedLines(lines, Keys);
    var d: RawRecord := map[];
    for l := 0 to |lines|
      invariant Assemble(parsedLines[..l]) == Ok(d)
    {
      var line := lines[l];
      assert parsedLines[l] == ParseLine(line, Keys);
      var space := Find(line, " ");
      if space.None? {
        assert parsedLines[l] == Err(MissingSpace(line));
        AssembleStopsAtError(parsedLines, l);
        return Err(MissingSpace(line));
      }
      var key, value := line[..space.value], line[space.value + 1..];
      if key !in Keys {
        assert parsedLines[l] == Err(UnknownCode(key));
        AssembleStopsAtError(parsedLines, l);
        return Err(UnknownCode(key));
      }
      assert parsedLines[l] == Ok((Keys[key], ParseValue(value)));
      AssembleExtend(parsedLines, l);
      d := d[Keys[key] := ParseValue(value)];
    }
    assert parsedLines[..|lines|] == parsedLines;
    return Ok(d);
  }

  /** A record assembled up to line `l` extends by that line's field. */
  lemma AssembleExtend(parsed: seq<Result<Entry, Error>>, l: nat)
    requires l < |parsed|
    requires Assemble(parsed[..l]).Ok? && parsed[l].Ok?
    ensures Assemble(parsed[..l + 1]) == Ok(Assemble(parsed[..l]).value[parsed[l].value.0 := parsed[l].value.1])
  {
    assert parsed[..l + 1][..l] == parsed[..l];
  }

  /** The records gathered up to chunk `c` extend by that chunk's record. */
  lemma GatherExtend(parsed: seq<Result<RawRecord, Error>>, c: nat)
    requires c < |parsed|
    requires Gather(parsed[..c]).Ok? && parsed[c].Ok?
    ensures Gather(parsed[..c + 1]) == Ok(Gather(parsed[..c]).value + [parsed[c].value])
  {
    assert parsed[..c + 1][..c] == parsed[..c];
  }

  /** Once the line at `l` fails, the whole record fails with its error. */
  lemma {:induction false} AssembleStopsAtError(parsed: seq<Result<Entry, Error>>, l: nat)
    requires l < |parsed|
    requires Assemble(parsed[..l]).Ok? && parsed[l].Err?
    ensures Assemble(parsed) == Err(parsed[l].error)
    decreases |parsed|
  {
    var init := parsed[..|parsed| - 1];
    if |parsed| == l + 1 {
      assert init == parsed[..l];
    } else {
      assert init[..l] == parsed[..l] && init[l] == parsed[l];
      AssembleStopsAtError(init, l);
    }
  }

  /** Once the chunk at `c` fails, the whole dump fails with its error. */
  lemma {:induction false} GatherStopsAtError(parsed: seq<Result<RawRecord, Error>>, c: nat)
    requires c < |parsed|
    requires Gather(parsed[..c]).Ok? && parsed[c].Err?
    ensures Gather(parsed) == Err(parsed[c].error)
    decreases |parsed|
  {
    var init := parsed[..|parsed| - 1];
    if |parsed| == c + 1 {
      assert init == parsed[..c];
    } else {
      assert init[..c] == parsed[..c] && init[c] == parsed[c];
      GatherStopsAtError(init, c);
    }
  }
}

module GgdDumpProperties {
  import opened Results
  import opened Text
  import opened GgdValues
  import opened GgdDump

  /** A line splits at its first space; its code is renamed through the table, or is an error. */
  lemma LineSplitsAtFirstSpace(code: string, text: string, codes: map<string, string>)
    requires !Contains(code, " ")
    ensures ParseLine(code + " " + text, codes)
            == if code in codes then Ok((codes[code], ParseValue(text))) else Err(UnknownCode(code))
  {
    var line := code + " " + text;
    assert OccursAt(line, " ", |code|) by {
      assert line[|code|..|code| + 1] == " ";
    }
    var found := Find(line, " ");
    assert found.Some?;
    if found.value < |code| {
      assert code[found.value..found.value + 1] == line[found.value..found.value + 1];
      assert OccursAt(code, " ", found.value);
      assert false;
    }
    assert found.value == |code|;
    assert line[..|code|] == code && line[|code| + 1..] == text;
  }

  /** A line without a space is an error. */
  lemma LineWithoutSpace(line: string, codes: map<string, string>)
    requires !Contains(line, " ")
    ensures ParseLine(line, codes) == Err(MissingSpace(line))
  {
  }

  /** A record parses when every one of its lines does, and otherwise fails with its first bad line's error. */
  lemma {:induction false} AssembleOutcome(parsed: seq<Result<Entry, Error>>)
    ensures Assemble(parsed).Ok? <==> forall j :: 0 <= j < |parsed| ==> parsed[j].Ok?
    ensures Assemble(parsed).Err? ==>
              exists j :: 0 <= j < |parsed| && parsed[j] == Err(Assemble(parsed).error)
                          && forall i :: 0 <= i < j ==> parsed[i].Ok?
    decreases |parsed|
  {
    if parsed != [] {
      var init := parsed[..|parsed| - 1];
      AssembleOutcome(init);
      assert forall j :: 0 <= j < |init| ==> init[j] == parsed[j];
      if Assemble(init).Err? {
        var j :| 0 <= j < |init| && init[j] == Err(Assemble(init).error)
                 && forall i :: 0 <= i < j ==> init[i].Ok?;
        assert parsed[j] == Err(Assemble(parsed).error);
      }
    }
  }

  /** Every line of `parsed` parsed. */
  predicate AllParsed(parsed: seq<Result<Entry, Error>>)
  {
    forall j :: 0 <= j < |parsed| ==> parsed[j].Ok?
  }

  /** The names the lines of `parsed` give. */
  ghost function Names(parsed: seq<Result<Entry, Error>>): set<string>
    requires AllParsed(parsed)
    decreases |parsed|
  {
    if parsed == [] then {} else Names(parsed[..|parsed| - 1]) + {parsed[|parsed| - 1].value.0}
  }

  /** A name is among the names of the lines exactly when one of the lines gives it. */
  lemma {:induction false} NamesOfLines(parsed: seq<Result<Entry, Error>>, name: string)
    requires AllParsed(parsed)
    ensures name in Names(parsed) <==> exists j :: 0 <= j < |parsed| && parsed[j].value.0 == name
    decreases |parsed|
  {
    if parsed != [] {
      var init := parsed[..|parsed| - 1];
      assert forall j :: 0 <= j < |init| ==> init[j] == parsed[j];
      NamesOfLines(init, name);
      if name in Names(init) {
        var j :| 0 <= j < |init| && init[j].value.0 == name;
        assert parsed[j].value.0 == name;
      }
    }
  }

  /** Storing one more line: the names after line `j` gain the stored name. */
  lemma NamesAfter(init: seq<Result<Entry, Error>>, last: Entry, j: nat)
    requires AllParsed(init) && j < |init|
    ensures AllParsed(init + [Ok(last)]) && AllParsed(init[j + 1..])
    ensures Names((init + [Ok(last)])[j + 1..]) == Names(init[j + 1..]) + {last.0}
  {
    var after := (init + [Ok(last)])[j + 1..];
    assert after == init[j + 1..] + [Ok(last)];
    assert after[..|after| - 1] == init[j + 1..];
  }

  /** Storing one more line keeps each name holding the value of its last line. */
  lemma ValuesStep(init: seq<Result<Entry, Error>>, last: Entry, d0: RawRecord)
    requires AllParsed(init)
    requires forall j :: 0 <= j < |init| && init[j].value.0 !in Names(init[j + 1..]) ==>
               init[j].value.0 in d0 && d0[init[j].value.0] == init[j].value.1
    ensures AllParsed(init + [Ok(last)])
    ensures var parsed, d := init + [Ok(last)], d0[last.0 := last.1];
            forall j :: 0 <= j < |parsed| && parsed[j].value.0 !in Names(parsed[j + 1..]) ==>
              parsed[j].value.0 in d && d[parsed[j].value.0] == parsed[j].value.1
  {
    var parsed, d := init + [Ok(last)], d0[last.0 := last.1];
    forall j | 0 <= j < |parsed| && parsed[j].value.0 !in Names(parsed[j + 1..])
      ensures parsed[j].value.0 in d && d[parsed[j].value.0] == parsed[j].value.1
    {
      if j < |init| {
        assert parsed[j] == init[j];
        NamesAfter(init, last, j);
      }
    }
  }

  /**
   * The fields of a record are the names its lines give, and each field
   * holds the value of the last line that names it.
   */
  lemma {:induction false} LastEntryWins(parsed: seq<Result<Entry, Error>>, d: RawRecord)
    requires Assemble(parsed) == Ok(d)
    ensures AllParsed(parsed)
    ensures d.Keys == Names(parsed)
    ensures forall j :: 0 <= j < |parsed| && parsed[j].value.0 !in Names(parsed[j + 1..]) ==>
              parsed[j].value.0 in d && d[parsed[j].value.0] == parsed[j].value.1
    decreases |parsed|
  {
    AssembleOutcome(parsed);
    if parsed != [] {
      var n := |parsed| - 1;
      var init := parsed[..n];
      var d0 := Assemble(init).value;
      var last := parsed[n].value;
      assert parsed == init + [Ok(last)];
      assert d == d0[last.0 := last.1];
      LastEntryWins(init, d0);
      ValuesStep(init, last, d0);
    }
  }

  /** The dump parses when every chunk does; then there is one record per chunk, in order. */
  lemma {:induction false} GatherOutcome(parsed: seq<Result<RawRecord, Error>>)
    ensures Gather(parsed).Ok? <==> forall k :: 0 <= k < |parsed| ==> parsed[k].Ok?
    ensures Gather(parsed).Ok? ==>
              |Gather(parsed).value| == |parsed| &&
              forall k :: 0 <= k < |parsed| ==> parsed[k] == Ok(Gather(parsed).value[k])
    decreases |parsed|
  {
    if parsed != [] {
      var init := parsed[..|parsed| - 1];
      GatherOutcome(init);
      assert forall k :: 0 <= k < |init| ==> init[k] == parsed[k];
    }
  }

  /** Parsing a text cut into chunks gives one record per chunk, in order, or the first chunk's failure. */
  lemma ChunkRecords(chunks: seq<string>, codes: map<string, string>)
    ensures var parsed := Gather(ParsedChunks(chunks, codes));
            (parsed.Ok? <==> forall k :: 0 <= k < |chunks| ==> ParseChunk(chunks[k], codes).Ok?) &&
            (parsed.Ok? ==>
               |parsed.value| == |chunks| &&
               forall k :: 0 <= k < |chunks| ==> ParseChunk(chunks[k], codes) == Ok(parsed.value[k]))
  {
    var parsed := ParsedChunks(chunks, codes);
    assert forall k :: 0 <= k < |chunks| ==> parsed[k] == ParseChunk(chunks[k], codes);
    GatherOutcome(parsed);
  }

  /** `getRecords` yields one record per `\n$\n`-separated chunk of the dump, in order. */
  lemma DumpRecords(data: string)
    ensures var chunks := Split(data, RecordSeparator);
            Join(chunks, RecordSeparator) == data &&
            (ParseDump(data).Ok? <==> forall k :: 0 <= k < |chunks| ==> ParseChunk(chunks[k], Keys).Ok?) &&
            (ParseDump(data).Ok? ==>
               |ParseDump(data).value| == |chunks| &&
               forall k :: 0 <= k < |chunks| ==> ParseChunk(chunks[k], Keys) == Ok(ParseDump(data).value[k]))
  {
    ChunkRecords(Split(data, RecordSeparator), Keys);
  }
}
