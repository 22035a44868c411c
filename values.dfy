/**
 * The values the converter stores in a record, its exceptions, and its two
 * fixed tables: the field codes of the dump (`KEYS`) and the holding
 * archives (`k2archive`).
 */
module GgdValues {
  import opened Results

  /** One entry of a person or author list: the name, and the role split off it (None when there is none). */
  datatype PersonRole = PersonRole(person: string, role: Option<string>)

  /** One holding of a poem: its shelf mark, the archive that holds it, and that archive's annotation. */
  datatype Item = Item(location: string, holdingArchive: string, comment: Option<string>)

  /** The dated, placed and typed occasion a poem was written for. */
  datatype Event = Event(
    timeStamp: Option<string>,
    earliestBeginTimeStamp: string,
    latestEndTimeStamp: string,
    place: Value,
    eventType: Value)

  /**
   * A value of a record: the dump parser only produces `Str` and `Lst`
   * (`RawValue`); record normalisation adds the others.
   */
  datatype Value =
    | Null
    | Str(text: string)
    | Lst(elems: seq<string>)
    | People(entries: seq<PersonRole>)
    | EventInfo(event: Event)
    | Items(holdings: seq<Item>)

  type RawValue = v: Value | v.Str? || v.Lst? witness Str("")

  /** A record as a dictionary from field names to values. */
  type Fields = map<string, Value>

  /** A record as the dump parser returns it. */
  type RawRecord = map<string, RawValue>

  /** The exceptions the converter can raise on malformed input. */
  datatype Error =
    | MissingSpace(line: string)    // ValueError: a dump line has no space to unpack at
    | UnknownCode(code: string)     // KeyError: a field code missing from KEYS
    | MissingField(name: string)    // KeyError: a field the record must have
    | WrongType(name: string)       // TypeError or AttributeError: a list where a string is needed
    | BadDate(text: string)         // ValueError from strptime
    | BadNumber(text: string)       // ValueError from int()
    | BadMonth(month: int)          // calendar.IllegalMonthError

  /** Python truthiness of a value. */
  predicate Truthy(v: Value)
  {
    match v
    case Null => false
    case Str(s) => s != ""
    case Lst(xs) => xs != []
    case People(ps) => ps != []
    case EventInfo(_) => true
    case Items(xs) => xs != []
  }

  /** `record.get(name)`. */
  function Get(record: Fields, name: string): Option<Value>
  {
    if name in record then Some(record[name]) else None
  }

  /** `[v] if type(v) == str else v` for a dump value. */
  function Entries(v: RawValue): seq<string>
  {
    if v.Str? then [v.text] else v.elems
  }

  /** The dump's three-letter field codes and the field names they are renamed to. */
  const Keys: map<string, string> := map[
    "AAR" := "event",
    "ABS" := "description",
    "AN_GA" := "item_saa_annotation",
    "AN_CBG" := "item_cbg_annotation",
    "AN_KB" := "item_kb_annotation",
    "AN_MMW" := "item_mmw_annotation",
    "AN_MNL" := "item_mnl_annotation",
    "AUT" := "author",
    "BYZ" := "comments",
    "COL" := "collate",
    "DAT" := "date",
    "EXE" := "archive",
    "EXF" := "exf",
    "EX_CBG" := "item_cbg",
    "EX_GA" := "item_saa",
    "EX_KB" := "item_kb",
    "EX_MMW" := "item_mmw",
    "EX_MNL" := "item_mnl",
    "FMT" := "format",
    "GED" := "ged",
    "GEN" := "society",
    "ILL" := "illustrator",
    "IMP" := "impressum",
    "INV" := "created",
    "MEL" := "melody",
    "MFN" := "mfn",
    "MOT" := "motif",
    "MUT" := "modified",
    "PAG" := "pages",
    "PLT" := "place",
    "PSN" := "person",
    "REC" := "id",
    "REG" := "registered",
    "STR" := "steurid",
    "TAA" := "language",
    "TIT" := "title",
    "VWN" := "signature",
    "WAT" := "remarks"
  ]

  /** The holdings fields and the archives they belong to. */
  const ArchiveNames: map<string, string> := map[
    "item_cbg" := "Centraal Bureau voor Genealogie",
    "item_saa" := "Stadsarchief Amsterdam",
    "item_kb" := "Koninklijke Bibliotheek",
    "item_mmw" := "Museum Meermanno",
    "item_mnl" := "Bibliotheek van de Maatschappij der Nederlandse Letterkunde"
  ]

  /** The order in which holdings are listed. */
  const ArchiveOrder: seq<string> := ["item_cbg", "item_saa", "item_kb", "item_mmw", "item_mnl"]
}
