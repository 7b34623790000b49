# go-csv-to-json, modelled in Dafny

The program reads a CSV file and prints it as indented JSON. Without
`-with-header` the output is the parsed rows as a list of lists. With it, the
first row names the fields and every later row becomes a record (a
`map[string]string`). This model covers what happens between the flag parser
and the JSON encoder. It has five modules:

- `Bytes` (`bytes.dfy`): Go strings as bytes. It gives the UTF-8 encoding of
  a character and the rune a one-byte string decodes to.
- `Results` (`results.dfy`): the program's panics as an `Error` value in a
  `Result`.
- `Converter` (`converter.dfy`): `convertWithHeader`. `ConvertWithHeader` is
  a method with the source's two nested loops. It is proved equal to the
  pure `Records`/`RecordOf` functions, and the lemmas state what a record
  contains.
- `Reader` (`reader.dfy`): the end of `readCsv`, which splits the header off
  the table.
- `Cli` (`cli.dfy`): flag validation, output selection, and `Run`, which
  chains them: validate, read, split, select.

The parsed table is a `seq<seq<string>>`. A record is a `map<string, string>`.
What opening and parsing the file produces is a parameter,
`parsed: Reader.ReadOutcome`: either the table or a read failure.

Three behaviours of the code are easy to miss:

- In header mode an empty file panics at the unguarded `rows[0]`
  (main.go:69). The model returns `Err(NoHeaderRow)` (`Reader.SplitHeader`,
  `Cli.RunEmptyTableWithHeader`).
- The flag's help text calls the delimiter a "delimiter character in the
  CSV" (main.go:14). The check at main.go:28 counts *bytes*. So every
  non-ASCII character is rejected, and a lone byte of 0x80 or more is
  accepted and used as U+FFFD (`Cli.OneCharacterDelimiter`,
  `Cli.AcceptedDelimiters`). encoding/csv refuses U+FFFD as a delimiter, so
  in that case `ReadAll` (main.go:63) always fails and the run panics at
  main.go:36.
- The panic message says "filename is required" (main.go:25). The code only
  rejects the flag's default value `":"`. An explicit `-filename=:` is
  rejected too, and any other string, the empty one included, gets through.

## Model

| member | source | states |
|---|---|---|
| `Bytes.DecodeSingleByte` | main.go:31 | an ASCII byte decodes to itself and is that code point's UTF-8 encoding; a byte of 0x80 or more decodes to RuneError |
| `Converter.RecordOf` | main.go:78-86 | one line's record has a key for every header name and for nothing else |
| `Converter.Records` | main.go:76-89 | one record per data line, same count and same order as the lines, each the record of its own line |
| `Converter.ConvertWithHeader` | main.go:75-90 | the nested loops return exactly `Records(headers, lines)`: one record per line, in line order |
| `Converter.RecordKeys` | main.go:78-86 | a record's key set is exactly the set of header names, whatever the line's length |
| `Converter.RecordValueAt` | main.go:79-85 | a header position with no later duplicate maps its name to `line[i]` when `i < len(line)` and to `""` otherwise |
| `Converter.RecordLastColumnWins` | main.go:79-82 | a repeated header name takes its value from its last (highest-index) column |
| `Converter.RecordMatchesReference` | main.go:78-86 | the loop's record equals an independent description: one key per header name, valued from that name's last column |
| `Converter.RecordIgnoresExtraFields` | main.go:79-81 | appending fields past the header length does not change the record |
| `Converter.RecordDependsOnlyOnHeaderPrefix` | main.go:79-85 | a record equals the record of the line cut to the header length, and a short line gives the same record as the line padded with `""` |
| `Converter.NoLinesNoRecords` | main.go:76 | zero lines give zero records |
| `Converter.MissingFieldsExample` | main.go:83-85 | header x,y,z over the line a gives {x:a, y:"", z:""} |
| `Converter.ExtraFieldsExample` | main.go:79 | header x over the line a,b,c gives {x:a} |
| `Reader.SplitHeader` | main.go:68-72 | it fails exactly when header mode meets an empty table; in header mode header and lines rebuild the table and there is one line fewer than rows; otherwise the header is empty and the lines are the rows |
| `Reader.ReadCsv` | main.go:55-72 | it succeeds exactly when the table was read and is not empty in header mode; a read failure gives ReadFailed and any other failure is NoHeaderRow; in header mode header and lines rebuild the table, otherwise the header is empty and the lines are the table |
| `Reader.SplitHeaderRebuilds` | main.go:69 | splitting a table made of a header and lines gives back that header and those lines |
| `Cli.Validate` | main.go:24-31 | it succeeds exactly when the filename is not `":"` and the delimiter is one byte; the filename is checked first; on success it keeps filename and header flag, and the delimiter is the first rune |
| `Cli.SelectOutput` | main.go:39-44 | raw rows exactly when header mode is off, and then the rows are the data lines; otherwise one record per data line |
| `Cli.Run` | main.go:24-44 | a validation error ends the run first, then a read failure; it succeeds exactly when flags are valid, the table was read, and it is not empty in header mode; then it gives the raw rows without header mode and `len(rows) - 1` records keyed by row 0 with it |
| `Cli.RunReadFailure` | main.go:34-37 | with valid flags, a file that cannot be opened or parsed ends the run with ReadFailed |
| `Cli.RunRejectsBadFlagsBeforeReading` | main.go:24-34 | invalid flags give their validation error whatever reading the file would give |
| `Cli.RunWithoutHeader` | main.go:34-44 | without header mode the output is the parsed table unchanged |
| `Cli.RunWithHeader` | main.go:34-44 | with header mode and at least one row there are `len(rows) - 1` records, record `i - 1` being row `i` keyed by row 0 |
| `Cli.RunEmptyTableWithHeader` | main.go:68-69 | an empty table in header mode fails with NoHeaderRow (the source's index-out-of-range panic) |
| `Cli.OneCharacterDelimiter` | main.go:28-31 | a one-character delimiter is accepted exactly when it is ASCII, and is then used as itself |
| `Cli.AcceptedDelimiters` | main.go:28-31 | every accepted delimiter is an ASCII character used as itself, or a lone non-UTF-8 byte used as RuneError |
| `Cli.NameAgeExample` | main.go:34-44 | header name,age over Alice,30 and Bob,25 gives the two records {name:Alice, age:30} and {name:Bob, age:25} |

## Left out

- Flag registration and parsing (main.go:13-21): this is the `flag` library and process-wide state. The model starts from the parsed values in `Cli.Flags`.
- The `-prefix` and `-indent` flags: they are only handed to the JSON encoder, so they are not in `Cli.Flags`.
- Opening the file and CSV parsing (main.go:55-66): these are library calls with quoting rules the model does not describe. Their outcome is the `parsed` parameter, and any failure is the single `ReadFailed` error.
- The `parsed` parameter admits more tables than the library produces. main.go:60-61 leaves `FieldsPerRecord` at 0, so `ReadAll` fails on any row whose field count differs from the first row's. In a full run, then, the pad-with-`""` and drop-extra branches (main.go:81-85) are never reached. The model still allows ragged tables, so its lemmas cover a superset of the library's outputs. `convertWithHeader` itself handles ragged lines, and the model describes that. The CSV reader's own rejection of delimiters such as `"`, `\r`, `\n` or U+FFFD belongs to that library and is not modelled.
- JSON encoding (main.go:46-49): this is a library serializer. The model stops at the `Cli.Output` value. A nil slice encodes as `null`, not `[]`, so zero records (or zero rows) print as `null`, and Go map keys print in sorted order.
- Printing to standard output (main.go:51): this is I/O.
- Panics: they are modelled as `Err` results, not as process aborts. The diagnostic text is not modelled.
- Go's nil and empty slices are the same value in the model. Both are the empty sequence.
