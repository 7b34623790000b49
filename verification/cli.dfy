/**
 * main (main.go:11-52) with the flag library, the CSV reader, the JSON
 * encoder and the printing left out: what remains is the validation of the
 * flag values and the choice of what gets encoded.
 */
module Cli {
  import opened Bytes
  import opened Results
  import opened Converter
  import opened Reader

  /** The flag values main uses after flag.Parse; the delimiter as the bytes of its Go string. */
  datatype Flags = Flags(filename: string, delimiter: seq<Byte>, withHeader: bool)

  /** The validated configuration handed to readCsv. */
  datatype Config = Config(filename: string, delimiter: CodePoint, withHeader: bool)

  /** The filename value main.go:24 rejects, whether it is left as the default or given explicitly. */
  const FilenameSentinel := ":"

  /**
   * main.go:24-31.  The filename is checked first, then the delimiter's byte
   * length (Go's `len`); the delimiter used is the first rune of the string.
   */
  function Validate(flags: Flags): (r: Result<Config>)
    ensures r.Ok? <==> flags.filename != FilenameSentinel && |flags.delimiter| == 1
    ensures flags.filename == FilenameSentinel ==> r == Err(FilenameRequired)
    ensures flags.filename != FilenameSentinel && |flags.delimiter| != 1 ==> r == Err(InvalidDelimiter(flags.delimiter))
    ensures r.Ok? ==> r.value.filename == flags.filename && r.value.withHeader == flags.withHeader
    ensures r.Ok? ==> r.value.delimiter == DecodeSingleByte(flags.delimiter[0])
  {
    if flags.filename == FilenameSentinel then Err(FilenameRequired)
    else if |flags.delimiter| != 1 then Err(InvalidDelimiter(flags.delimiter))
    else Ok(Config(flags.filename, DecodeSingleByte(flags.delimiter[0]), flags.withHeader))
  }

  /** The value main encodes: the raw rows, or one record per data line (main.go:39-44). */
  datatype Output = RawRows(rows: seq<Row>) | KeyedRecords(records: seq<Record>)

  /**
   * main.go:39-44.  Without header mode the data lines are the output as
   * they are; with it, convertWithHeader's records.  (The encoder turns a
   * nil slice, which both cases give for zero lines, into `null`.)
   */
  function SelectOutput(withHeader: bool, split: Split): (o: Output)
    ensures o.RawRows? <==> !withHeader
    ensures o.RawRows? ==> o.rows == split.lines
    ensures o.KeyedRecords? ==> |o.records| == |split.lines|
    ensures o.KeyedRecords? ==> forall i :: 0 <= i < |split.lines| ==> o.records[i] == RecordOf(split.headers, split.lines[i])
  {
    if withHeader then KeyedRecords(Records(split.headers, split.lines)) else RawRows(split.lines)
  }

  /**
   * One run of the program up to the encoder: validate the flags, then read
   * (`parsed` is what opening and parsing the named file gives), then split
   * and select.  Every error ends the run, as the source's panics do.
   */
  function Run(flags: Flags, parsed: ReadOutcome): (r: Result<Output>)
    ensures Validate(flags).Err? ==> r == Err(Validate(flags).error)
    ensures Validate(flags).Ok? && parsed.ReadFailure? ==> r == Err(ReadFailed)
    ensures r.Ok? <==> Validate(flags).Ok? && parsed.Table? && !(flags.withHeader && parsed.rows == [])
    ensures r.Ok? ==> (r.value.RawRows? <==> !flags.withHeader)
    ensures r.Ok? && !flags.withHeader ==> r.value.rows == parsed.rows
    ensures r.Ok? && flags.withHeader ==>
      |r.value.records| == |parsed.rows| - 1 &&
      forall i :: 1 <= i < |parsed.rows| ==> r.value.records[i - 1] == RecordOf(parsed.rows[0], parsed.rows[i])
  {
    match Validate(flags)
    case Err(e) => Err(e)
    case Ok(config) =>
      match ReadCsv(parsed, config.withHeader)
      case Err(e) => Err(e)
      case Ok(split) => Ok(SelectOutput(config.withHeader, split))
  }

  /** Bad flags fail before the file is looked at: the outcome does not depend on what reading would give. */
  lemma RunRejectsBadFlagsBeforeReading(flags: Flags, parsed1: ReadOutcome, parsed2: ReadOutcome)
    requires Validate(flags).Err?
    ensures Run(flags, parsed1) == Run(flags, parsed2) == Err(Validate(flags).error)
  {
  }

  /** With valid flags, a file that cannot be opened or parsed ends the run with that failure. */
  lemma RunReadFailure(flags: Flags)
    requires Validate(flags).Ok?
    ensures Run(flags, ReadFailure) == Err(ReadFailed)
  {
  }

  /** Without header mode the output is the parsed table unchanged. */
  lemma RunWithoutHeader(filename: string, delimiter: Byte, rows: seq<Row>)
    requires filename != FilenameSentinel
    ensures Run(Flags(filename, [delimiter], false), Table(rows)) == Ok(RawRows(rows))
  {
  }

  /** With header mode there is one record per row after the first, each keyed by the first row. */
  lemma RunWithHeader(filename: string, delimiter: Byte, rows: seq<Row>)
    requires filename != FilenameSentinel && |rows| >= 1
    ensures Run(Flags(filename, [delimiter], true), Table(rows)).Ok?
    ensures Run(Flags(filename, [delimiter], true), Table(rows)).value.KeyedRecords?
    ensures var out := Run(Flags(filename, [delimiter], true), Table(rows)).value;
      |out.records| == |rows| - 1 &&
      forall i :: 1 <= i < |rows| ==> out.records[i - 1] == RecordOf(rows[0], rows[i])
  {
  }

  /** An empty table in header mode reaches `rows[0]` and fails, rather than giving no records. */
  lemma RunEmptyTableWithHeader(filename: string, delimiter: Byte)
    requires filename != FilenameSentinel
    ensures Run(Flags(filename, [delimiter], true), Table([])) == Err(NoHeaderRow)
  {
  }

  /**
   * The delimiter check counts bytes, so of all one-character delimiters
   * exactly the ASCII ones are accepted, and each is used as itself.
   */
  lemma OneCharacterDelimiter(filename: string, c: CodePoint, withHeader: bool)
    requires filename != FilenameSentinel && IsScalarValue(c)
    ensures Validate(Flags(filename, Utf8Encode(c), withHeader)).Ok? <==> c < 0x80
    ensures c < 0x80 ==> Validate(Flags(filename, Utf8Encode(c), withHeader)).value.delimiter == c
  {
  }

  /**
   * Every accepted delimiter is an ASCII character, used as itself, or a
   * lone byte that is not valid UTF-8, used as RuneError (which encoding/csv
   * then refuses, so reading always fails for it).
   */
  lemma AcceptedDelimiters(flags: Flags)
    requires Validate(flags).Ok?
    ensures var d := Validate(flags).value.delimiter;
      (d < 0x80 && flags.delimiter == Utf8Encode(d)) || (flags.delimiter[0] >= 0x80 && d == RuneError)
  {
  }

  /** The two-row example: header name,age over Alice,30 and Bob,25, comma-delimited (byte 0x2C). */
  lemma NameAgeExample()
    ensures Run(Flags("people.csv", [0x2C], true), Table([["name", "age"], ["Alice", "30"], ["Bob", "25"]]))
      == Ok(KeyedRecords([map["name" := "Alice", "age" := "30"], map["name" := "Bob", "age" := "25"]]))
  {
    var headers := ["name", "age"];
    assert BuildRecord(headers, ["Alice", "30"], 1) == map["name" := "Alice"];
    assert BuildRecord(headers, ["Bob", "25"], 1) == map["name" := "Bob"];
    var lines := [["Alice", "30"], ["Bob", "25"]];
    assert [headers] + lines == [["name", "age"], ["Alice", "30"], ["Bob", "25"]];
    var records := Records(headers, lines);
    assert records[0] == map["name" := "Alice", "age" := "30"];
    assert records[1] == map["name" := "Bob", "age" := "25"];
    assert records == [records[0], records[1]];
  }
}
