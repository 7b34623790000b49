/**
 * The end of readCsv (main.go:54-73).  Opening the file and parsing it with
 * encoding/csv are library calls and are not part of this model: their
 * outcome is the parameter `parsed`, either the parsed table or a failure.
 */
module Reader {
  import opened Results
  import opened Converter

  /** What os.Open and csv.Reader.ReadAll give readCsv: the table, or an error (main.go:55-66). */
  datatype ReadOutcome = Table(rows: seq<Row>) | ReadFailure

  /** What readCsv returns on success: the header row (nil without header mode) and the data lines. */
  datatype Split = Split(headers: Row, lines: seq<Row>)

  /**
   * The header split of main.go:68-72.  In header mode the first row is the
   * header and the rest are data; the source indexes `rows[0]` without a
   * guard, so an empty table panics there, which is the NoHeaderRow error.
   * Without header mode the rows pass through and the header is nil, i.e. [].
   */
  function SplitHeader(rows: seq<Row>, hasHeader: bool): (r: Result<Split>)
    ensures r.Err? <==> hasHeader && rows == []
    ensures r.Err? ==> r.error == NoHeaderRow
    ensures r.Ok? && hasHeader ==> [r.value.headers] + r.value.lines == rows
    ensures r.Ok? && hasHeader ==> |r.value.lines| == |rows| - 1
    ensures r.Ok? && !hasHeader ==> r.value.headers == [] && r.value.lines == rows
  {
    if !hasHeader then Ok(Split([], rows))
    else if rows == [] then Err(NoHeaderRow)
    else Ok(Split(rows[0], rows[1..]))
  }

  /** readCsv as a whole: a failed open or parse is the ReadFailed error, a parsed table is split. */
  function ReadCsv(parsed: ReadOutcome, hasHeader: bool): (r: Result<Split>)
    ensures r.Ok? <==> parsed.Table? && !(hasHeader && parsed.rows == [])
    ensures parsed.ReadFailure? ==> r == Err(ReadFailed)
    ensures parsed.Table? && r.Err? ==> r.error == NoHeaderRow
    ensures r.Ok? && hasHeader ==> [r.value.headers] + r.value.lines == parsed.rows
    ensures r.Ok? && !hasHeader ==> r.value == Split([], parsed.rows)
  {
    match parsed
    case ReadFailure => Err(ReadFailed)
    case Table(rows) => SplitHeader(rows, hasHeader)
  }

  /** A header-mode table can be rebuilt from what the split returns, so nothing is lost. */
  lemma SplitHeaderRebuilds(headers: Row, lines: seq<Row>)
    ensures SplitHeader([headers] + lines, true) == Ok(Split(headers, lines))
  {
  }
}
