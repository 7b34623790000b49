/** The failures of main.go, which the program raises with `panic`, as values. */
module Results {
  import opened Bytes

  datatype Error =
    | FilenameRequired                 // main.go:24-26, `-filename` left at its sentinel
    | InvalidDelimiter(given: seq<Byte>) // main.go:28-30, delimiter not exactly one byte
    | ReadFailed                       // main.go:34-37, opening or parsing the file failed
    | NoHeaderRow                      // main.go:69, `rows[0]` of an empty table: index out of range

  datatype Result<T> = Ok(value: T) | Err(error: Error)
}
