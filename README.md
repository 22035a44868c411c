# ggd2json: the Gelegenheidsgedichten dump converter, modelled in Dafny

`ggd2json.py` converts the Koninklijke Bibliotheek's dump of occasional poems
("Gelegenheidsgedichten") into a list of JSON records. This project models the
converter's core:

- `getRecords` cuts the dump text into records at each `\n$\n`, scanning from
  the left (so a second `$` line right after a separator stays in the next
  record). It cuts each record into lines of the form `CODE value`, renames each code
  through the `KEYS` table, and splits every value that contains `; ` into a
  list. Modules `GgdDump` and `GgdDumpProperties`.
- `getPersons` turns a person or author field into name/role entries. Each
  entry is split at its last `. ` while the loop-carried `role` variable is
  truthy. Module `GgdPersons`.
- `getEvent` turns a record's date `YYYY-MM-DD` into an interval. A year-only
  date (`-00-00`) spans the whole year. A month-only date (`-00`) spans the
  month, up to its last day from `calendar.monthrange`. A full date is an exact
  timestamp. Places and event types become lists. Modules `GgdEvent`,
  `GgdDates` and `Calendar`.
- `parseRecord` cleans up one record, in order:
  - it rejoins the free-text fields that should not have been split;
  - it truncates `date` to ten characters;
  - it reformats `created` and `modified` from `dd-mm-yyyy` to `yyyy-mm-dd`;
  - it adds the event;
  - it wraps `language` in a list;
  - it splits persons (with roles) and authors (without);
  - it expands the five archive fields into `item` holdings, named through the
    `k2archive` table.
  Modules `GgdRecord` and `GgdRecordProperties`.
- `KEYS` and `k2archive` are the constants `GgdValues.Keys` and
  `GgdValues.ArchiveNames`.

Each Python exception the code can raise on malformed input becomes a value of
`GgdValues.Error`, returned in a `Result`:
- `ValueError` on unpacking a line without a space;
- `KeyError` on an unknown code or a missing field;
- `AttributeError`/`TypeError` on a list where a string is needed;
- `ValueError` from `strptime` or `int()`;
- `IllegalMonthError` from `monthrange`.

The loops of the source are methods with loop invariants:
- `GetRecords`, with its inner line loop `ReadRecord`;
- `GetPersons`;
- the free-text loop `RejoinFreeText` and the archive loops `ExpandHoldings`
  and `ArchiveItems` of `parseRecord`.

`ParseRecord` runs its stages as methods that update the record in turn: the
loop-free `RejoinAndReformat`, `DescribeEvent` and `SplitPeople`, and the loops
above.

Each method is proved equal to a specification function:
`ParseDump`, `ParseChunk`, `SplitEntries`, `CleanFreeText`, `Dated`,
`Described`, `WithPeople`, `Holdings`, `ArchiveHoldings` and `NormalizeRecord`.
The lemmas state what those functions promise.

Python values are modelled as follows:
- `str.split` becomes `Text.Split`; it is proved to join back to its input, to
  leave no separator in any piece, and to cut at the leftmost occurrence each
  time;
- `rsplit('. ', 1)` cuts at `Text.FindLast`;
- slicing clamps, as `Text.Prefix` and `Text.Slice`;
- `int()` accepts a sign and ASCII digits (`Text.ParseInt`);
- `str(n)` is `Text.DecimalText`;
- `strptime('%d-%m-%Y')` is `GgdDates.ReformatDate`. It takes the field
  patterns `%d` = `3[01]|[12][0-9]|0[1-9]|[1-9]| [1-9]` (ASCII digits), `%m` =
  `1[0-2]|0[1-9]|[1-9]` and `%Y` = four digits, and needs a year from 1 on and a
  day that exists in its month;
- `calendar.monthrange` follows Python 3.8 and later: any year, month 1 to 12.

## Model

| member | source | states |
|---|---|---|
| Text.Split | ggd2json.py:65-72 | `str.split`: at least one piece; the pieces joined with the separator give back the input; exactly one piece iff the separator does not occur; no piece contains the separator; and each cut is at the leftmost remaining occurrence (no occurrence starts inside a piece and runs into the separator after it), which fixes the pieces even for the self-overlapping `\n$\n` |
| Text.CutIsLeftmost | ggd2json.py:65 | no occurrence of the separator starts before the first one, not even one running into it |
| Text.Join | ggd2json.py:148 | `sep.join(parts)`: a single part is returned as is; otherwise the text starts with the first part, followed by the separator when more parts follow |
| Text.ParseInt | ggd2json.py:111-112 | `int()`: the text is accepted exactly when it is ASCII digits, optionally after one `+` or `-` (otherwise `ValueError`); digits read as their decimal value, `+` keeps it and `-` negates it |
| Text.SplitAtFirst | ggd2json.py:69-72 | a text whose first piece is free of a one-character separator splits into that piece followed by the split of the rest |
| Text.SplitThree | ggd2json.py:154-157 | three separator-free fields joined by a one-character separator split back into exactly those three fields |
| Text.FindLast | ggd2json.py:91 | `rsplit`'s cut: the found position holds the separator and no later position does; nothing is found iff the separator does not occur |
| Text.Find | ggd2json.py:70 | `split(' ', 1)`'s cut: the found position holds the separator and no earlier one does; nothing is found iff the separator does not occur |
| Text.DecimalTextValue | ggd2json.py:115 | `str(n)` is read back by `int()` and by the digit value as `n` |
| Calendar.DaysInMonth | ggd2json.py:113 | `monthrange`'s last day is between 28 and 31; February has 29 days exactly in leap years; the other months have 31 or 30 days by the calendar's rule |
| Calendar.YearLength | ggd2json.py:113 | the month lengths add up to 366 days in a leap year and 365 otherwise |
| GgdValues.Truthy | ggd2json.py:167-178 | Python truthiness of a record value: null, the empty string and empty lists are false, everything else true |
| GgdDump.ParseLine | ggd2json.py:70-74 | one line gives the unpacking `ValueError` exactly when it has no space; any other error is a `KeyError` for a code not in the table; an accepted line's field name is one of the table's names |
| GgdDump.Gather | ggd2json.py:65-76 | an accepted dump has one record per chunk |
| GgdDump.ParseDump | ggd2json.py:58-78 | an accepted dump has as many records as the text has chunks between separators |
| GgdDump.ParseValue | ggd2json.py:71-72 | a value is a list exactly when it contains `; `; a list has at least two pieces, joins back to the text and holds no `; `; otherwise the text is kept |
| GgdDump.GetRecords | ggd2json.py:58-78 | the loop over the records returns what `ParseDump` specifies, including the first exception raised |
| GgdDump.ReadRecord | ggd2json.py:67-76 | the loop over one record's lines returns the dictionary `ParseChunk` specifies, or the first exception |
| GgdDump.AssembleStopsAtError | ggd2json.py:69-74 | once every line so far is accepted, the first failing line's exception is the record's result |
| GgdDump.GatherStopsAtError | ggd2json.py:65-76 | once every record so far is accepted, the first failing record's exception is the dump's result |
| GgdDumpProperties.LineSplitsAtFirstSpace | ggd2json.py:70-74 | a line `code value` whose code has no space yields the renamed code with the parsed value, or `KeyError` for an unknown code |
| GgdDumpProperties.LineWithoutSpace | ggd2json.py:70 | a line without a space raises the unpacking `ValueError` |
| GgdDumpProperties.AssembleOutcome | ggd2json.py:69-76 | a record is accepted iff all its lines are; when it fails, its error is that of a line all of whose predecessors were accepted |
| GgdDumpProperties.NamesOfLines | ggd2json.py:74 | a name is among a record's field names iff some line of the record gives it |
| GgdDumpProperties.LastEntryWins | ggd2json.py:69-76 | an accepted record has exactly the names its lines give, and each name holds the value of its last line (last write wins) |
| GgdDumpProperties.GatherOutcome | ggd2json.py:65-76 | the dump is accepted iff every record is; then there is one dictionary per record, in order |
| GgdDumpProperties.ChunkRecords | ggd2json.py:65-76 | the dump is accepted iff every chunk parses; then the k-th dictionary is that of the k-th chunk |
| GgdDumpProperties.DumpRecords | ggd2json.py:65-76 | the chunks cut at `\n$\n` join back to the dump text; the dump is accepted iff each chunk is, and then the k-th record is the k-th chunk's dictionary |
| GgdPersons.SplitEntries | ggd2json.py:88-95 | one entry per name |
| GgdPersons.GetPersons | ggd2json.py:81-97 | the loop, with `role` overwritten by each entry, returns `SplitEntries` of the entries with the `role` argument as the starting flag |
| GgdPersons.EntryAt | ggd2json.py:88-95 | the i-th entry has a role iff: roles were requested, the name contains `. `, and every earlier entry yielded a non-empty role |
| GgdPersons.EntryShape | ggd2json.py:90-93 | a split entry's person, `. ` and role rejoin to the name, and its role holds no `. `; an unsplit entry keeps the whole name |
| GgdPersons.RoleSplitsAtLast | ggd2json.py:91 | `rsplit('. ', 1)` rejoins to the name and leaves no `. ` in the role |
| GgdPersons.CarryOver | ggd2json.py:90-93 | after an entry yields role `None` or an empty role, every later entry is unsplit with role `None` |
| GgdPersons.NoRolesRequested | ggd2json.py:81-93 | with `role=False` (authors) every entry is the unchanged name with role `None` |
| GgdDates.ReformatDate | ggd2json.py:154-157 | `strptime`/`strftime`: every rejection is `strptime`'s `ValueError` for that text, and every accepted text becomes a valid ISO date with a year from 1 on (year 0000 is rejected) |
| GgdDates.ReformattedIsIso | ggd2json.py:154-157 | an accepted `dd-mm-yyyy` date becomes a well-formed ISO date whose year, month and day are those read from the three fields |
| GgdDates.ReformatWellFormed | ggd2json.py:154-157 | every existing date written `dd-mm-yyyy` with zero padding, from year 1 on, is accepted and becomes `yyyy-mm-dd` |
| GgdDates.TwoDigitsOfValue | ggd2json.py:155 | `strftime`'s zero-padded two digits give back any two-digit text from its value |
| GgdDates.IsoOfFields | ggd2json.py:155 | valid four-, two- and two-digit fields joined by `-` form an ISO date |
| GgdDates.TwoDigits | ggd2json.py:155 | `%m` and `%d` output has two digits whose value is the number |
| GgdEvent.GetEvent | ggd2json.py:100-137 | an event is produced only for a string date; it has a timestamp exactly when the date does not end in `00`, and then the timestamp, the earliest begin and the latest end are all that date; its place and type are never a non-empty bare string |
| GgdEvent.EventList | ggd2json.py:121-129 | a place or type is never a non-empty bare string: such a string becomes a one-element list, an absent field the empty list, and a list is kept |
| GgdEvent.YearOnlyEvent | ggd2json.py:102-105 | a `YYYY-00-00` date gives no timestamp and the interval `YYYY-01-01` to `YYYY-12-31`, both valid ISO dates, the latter the year's last day |
| GgdEvent.YearEnds | ggd2json.py:104-105 | January 1st and December 31st of any four-digit year are valid ISO dates, and December has no 32nd |
| GgdEvent.MonthOnlyEvent | ggd2json.py:107-115 | a `YYYY-MM-00` date with a month from 1 to 12 gives no timestamp; the interval runs from the 1st to the month's last day; both ends are valid ISO dates; the day after the end is not valid; February ends on the 29th exactly in leap years |
| GgdEvent.MonthEnds | ggd2json.py:109-115 | the first and the last day of a dump date's month, written as the code writes them, are ISO dates, and the last reads back as the month's length |
| GgdEvent.BadMonthEvent | ggd2json.py:111-113 | a month-only date with a month outside 1 to 12 raises `monthrange`'s `IllegalMonthError` |
| GgdEvent.MonthOnlyShape | ggd2json.py:107-115 | a month-only date's event is the month interval when the month is from 1 to 12, and the month error otherwise |
| GgdEvent.FullDateEvent | ggd2json.py:116-119 | a date not ending in `00` is the timestamp and both ends of the interval |
| GgdEvent.EventNeedsDate | ggd2json.py:102 | a record without a date raises `KeyError`; a list-valued date raises the missing `endswith` error |
| GgdEvent.PlaceAndTypeLists | ggd2json.py:121-129 | on dump values, place and type are lists of the field's entries (empty when the field is absent); the only exception is an empty string, which passes through |
| GgdEvent.EventListOf | ggd2json.py:121-124 | one field's place/type list is its entries, or the empty string passed through |
| GgdRecord.NormalizeRecord | ggd2json.py:140-197 | an accepted record always carries an event, a language list, an author list and an item list |
| GgdRecord.ParseRecord | ggd2json.py:140-197 | the step-by-step clean-up, with the record updated stage by stage, returns what `NormalizeRecord` specifies, including each exception |
| GgdRecord.RejoinFreeText | ggd2json.py:143-150 | the free-text loop gives `CleanFreeText` over the six free-text fields |
| GgdRecord.RejoinAndReformat | ggd2json.py:142-157 | rejoining, date truncation and the two reformatted dates give `Dated`, raising their errors in the order `parseRecord` meets them |
| GgdRecord.DescribeEvent | ggd2json.py:159-164 | the event and language steps give `Described`: `getEvent`'s result or error, then the language as a list or `KeyError` |
| GgdRecord.SplitPeople | ggd2json.py:166-173 | persons are split with roles when present and truthy; authors are split without roles, or are an empty list |
| GgdRecord.ExpandHoldings | ggd2json.py:176-195 | the archive loop gives the holdings of the five archives, archive by archive in table order |
| GgdRecord.ArchiveItems | ggd2json.py:178-195 | the inner loop gives one item per location of an archive with a truthy field, carrying the archive's name and its annotation rejoined with `; ` |
| GgdRecord.CleanFreeTextKeeps | ggd2json.py:143-150 | the free-text loop leaves every other field untouched |
| GgdRecord.DatedKeeps | ggd2json.py:143-157 | the first stages change only the free-text and date fields |
| GgdRecord.PeopleKept | ggd2json.py:143-164 | the person and author fields reach the people step unchanged from the dump |
| GgdRecord.NamedKeeps | ggd2json.py:143-173 | fields the clean-up does not write keep their dump values through the people step |
| GgdRecord.ArchivesKept | ggd2json.py:176-180 | the archive and annotation fields reach the archive loop unchanged from the dump |
| GgdRecordProperties.CleanedTwice | ggd2json.py:147-150 | rejoining a free-text field is idempotent |
| GgdRecordProperties.CleanFreeTextValue | ggd2json.py:143-150 | each free-text field ends as its rejoined value: a non-empty list joined with `; `, a missing field as null |
| GgdRecordProperties.GetEventReads | ggd2json.py:100-137 | `getEvent` depends only on the date, place and event fields |
| GgdRecordProperties.DatedReads | ggd2json.py:153-160 | the event step sees the dump's place and event and the date cut to ten characters |
| GgdRecordProperties.DatedEvent | ggd2json.py:153-160 | the event is computed from the dump record with its date cut to ten characters; a list-valued date fails |
| GgdRecordProperties.RecordAccepted | ggd2json.py:140-197 | a record is accepted iff: its date is a string; `created` and `modified` are valid `dd-mm-yyyy` dates; the event of the truncated date succeeds; the language is present |
| GgdRecordProperties.RecordErrors | ggd2json.py:153-163 | the first exception wins: a missing date, then a bad `created`, then a bad `modified`, then a list-valued date, then `getEvent`'s own error (`int()`'s `ValueError`, `monthrange`'s `IllegalMonthError`) on a string date, then the `KeyError` for a missing language |
| GgdRecordProperties.FreeTextRejoined | ggd2json.py:143-150 | in an accepted record each free-text field is the rejoined dump value, and never a non-empty list |
| GgdRecordProperties.FreeTextRoundTrip | ggd2json.py:143-150 | a free-text value split by the dump parser is restored to its original text |
| GgdRecordProperties.DatesReformatted | ggd2json.py:153-157 | in an accepted record `date` is the dump date cut to ten characters, and `created` and `modified` are the strptime/strftime reformatting of the dump's dates, as ISO dates |
| GgdRecordProperties.EventOfRecord | ggd2json.py:153-160 | an accepted record's event is `getEvent` of the dump record with its date truncated |
| GgdRecordProperties.LanguageListed | ggd2json.py:163-164 | an accepted record's language is the list of the dump's language entries |
| GgdRecordProperties.PeopleOfRecord | ggd2json.py:166-173 | persons are split with roles requested when the dump field is truthy, and are kept otherwise; authors are the dump's names without roles, or an empty list |
| GgdRecordProperties.OtherFieldsKept | ggd2json.py:140-197 | every field the clean-up does not write keeps its dump value |
| GgdRecordProperties.RankOfArchive | ggd2json.py:49-55 | each archive name of `k2archive` has the position of its field in the archive loop |
| GgdRecordProperties.ArchiveNamesDistinct | ggd2json.py:49-55 | the five archives have distinct names |
| GgdRecordProperties.OfArchiveConcat | ggd2json.py:191 | selecting one archive's items distributes over appending |
| GgdRecordProperties.OfArchiveLocated | ggd2json.py:189-195 | the items of one archive field are all and only that archive's items |
| GgdRecordProperties.HoldingsOfArchive | ggd2json.py:177-195 | after the first n archives, the items of archive m are its own holdings if m < n, and none otherwise |
| GgdRecordProperties.HoldingsRanked | ggd2json.py:177-195 | the items come grouped by archive, in the order of the archive loop |
| GgdRecordProperties.ItemsOfRecord | ggd2json.py:176-195 | an accepted record's items are grouped in archive order, and for each archive they are exactly its field's locations with its name and annotation |

## Left out

- Reading the file (`open`, `read`, the UTF-8 BOM handling at ggd2json.py:62-63): `GetRecords` takes the decoded text.
- `main` and the JSON dump (ggd2json.py:200-211): file output and printing.
- The rest of the repository (`main.py`, `etype2ttl.py` and the RDF name parsing and identity resolution): not part of this model. The model follows `ggd2json.py` as written.
- Text.ParseInt: `int()` leniency is not modelled: surrounding whitespace, `_` between digits and non-ASCII digits are not accepted by `Text.ParseInt`. A dump date is ASCII, so only malformed dates are affected.
- GgdDates.ReformatDate: `strptime` leniency beyond the modelled field patterns is not modelled. The patterns' `\d` matches any Unicode decimal digit in Python, but the model takes ASCII digits only, so a date such as `01-01-٢٠٠٠` that Python accepts is rejected. Locale-dependent parsing is left out too.
- GgdDates.ReformatDate: always writes the year as its four input digits. CPython builds on glibc have written `strftime('%Y')` for years below 1000 without zero padding, so their output for such years differs; the model, and `ReformatWellFormed`'s claim from year 1 on, follow the zero-padded form.
- `calendar.monthrange` before Python 3.8 rejected years outside 1 to 9999. The model accepts any year, as later versions do.
- Dictionary key order: records are `map`s, so the order of their keys in the JSON output is not modelled.
- `GgdRecord.ParseRecord`: the Python function mutates the dictionary it is given. The model works on a local copy and returns it. Aliasing with the caller is not modelled, because the caller keeps only the returned dictionary.
- `GgdDump.GetRecords`: the inner line loop is the separate method `ReadRecord`.
- Values that cannot come from the dump (`None`, numbers, nested lists inside a field) are not modelled as inputs of `parseRecord`. They only arise when `parseRecord` itself writes them.
