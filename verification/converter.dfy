/**
 * convertWithHeader (main.go:75-90): every data line becomes a record that
 * maps each header name to the field at the same position.
 */
module Converter {
  type Row = seq<string>
  type Record = map<string, string>

  /** What header position `i` receives from `line`: the field itself, or "" past the end of the line. */
  function Cell(line: Row, i: nat): (s: string)
  {
    if i < |line| then line[i] else ""
  }

  /** The record after the first `n` steps of the loop over the header positions. */
  function BuildRecord(headers: Row, line: Row, n: nat): (r: Record)
    requires n <= |headers|
  {
    if n == 0 then map[] else BuildRecord(headers, line, n - 1)[headers[n - 1] := Cell(line, n - 1)]
  }

  /** The record the source builds for one data line. */
  function RecordOf(headers: Row, line: Row): (r: Record)
    ensures forall name :: name in r <==> name in headers
  {
    BuildRecordKeys(headers, line, |headers|);
    assert headers[..|headers|] == headers;
    BuildRecord(headers, line, |headers|)
  }

  /** The records of all data lines, appended one by one in line order. */
  function Records(headers: Row, lines: seq<Row>): (r: seq<Record>)
    ensures |r| == |lines|
    ensures forall i :: 0 <= i < |lines| ==> r[i] == RecordOf(headers, lines[i])
  {
    if lines == [] then []
    else Records(headers, lines[..|lines| - 1]) + [RecordOf(headers, lines[|lines| - 1])]
  }

  /** The position of the last occurrence of `name` among the headers. */
  function LastIndexOf(headers: Row, name: string): (r: nat)
    requires name in headers
    ensures r < |headers| && headers[r] == name
    ensures forall j :: r < j < |headers| ==> headers[j] != name
  {
    if headers[|headers| - 1] == name then |headers| - 1
    else LastIndexOf(headers[..|headers| - 1], name)
  }

  /**
   * An independent description of a record: one key per header name, whose
   * value comes from the last column carrying that name.
   */
  function ReferenceRecord(headers: Row, line: Row): (r: Record)
  {
    map name | name in headers :: Cell(line, LastIndexOf(headers, name))
  }

  /**
   * The loop of main.go:75-90.  The outer loop walks the lines and appends a
   * record for each; the inner loop stores one header position at a time in
   * the record, so a later column overwrites an earlier one of the same name.
   */
  method ConvertWithHeader(headers: Row, lines: seq<Row>) returns (records: seq<Record>)
    ensures records == Records(headers, lines)
    ensures |records| == |lines|
    ensures forall i :: 0 <= i < |lines| ==> records[i] == RecordOf(headers, lines[i])
  {
    records := [];
    for n := 0 to |lines|
      invariant records == Records(headers, lines[..n])
    {
      var line := lines[n];
      var record: Record := map[];
      for idx := 0 to |headers|
        invariant record == BuildRecord(headers, line, idx)
      {
        var header := headers[idx];
        if idx < |line| {
          record := record[header := line[idx]];
        } else {
          record := record[header := ""];
        }
      }
      assert lines[..n + 1][..n] == lines[..n];
      records := records + [record];
    }
    assert lines[..|lines|] == lines;
  }

  lemma {:induction false} BuildRecordKeys(headers: Row, line: Row, n: nat)
    requires n <= |headers|
    ensures forall name :: name in BuildRecord(headers, line, n) <==> name in headers[..n]
  {
    if n > 0 {
      BuildRecordKeys(headers, line, n - 1);
      assert headers[..n] == headers[..n - 1] + [headers[n - 1]];
    }
  }

  lemma {:induction false} BuildRecordAt(headers: Row, line: Row, n: nat, i: nat)
    requires i < n <= |headers|
    requires forall j :: i < j < n ==> headers[j] != headers[i]
    ensures headers[i] in BuildRecord(headers, line, n)
    ensures BuildRecord(headers, line, n)[headers[i]] == Cell(line, i)
  {
    if i < n - 1 {
      BuildRecordAt(headers, line, n - 1, i);
    }
  }

  lemma {:induction false} BuildRecordAgrees(headers: Row, line1: Row, line2: Row, n: nat)
    requires n <= |headers|
    requires forall i :: 0 <= i < n ==> Cell(line1, i) == Cell(line2, i)
    ensures BuildRecord(headers, line1, n) == BuildRecord(headers, line2, n)
  {
    if n > 0 {
      BuildRecordAgrees(headers, line1, line2, n - 1);
    }
  }

  /** A record's keys are exactly the header names, however long or short the line is. */
  lemma RecordKeys(headers: Row, line: Row)
    ensures RecordOf(headers, line).Keys == set i | 0 <= i < |headers| :: headers[i]
  {
  }

  /**
   * A header position with no later duplicate receives the field at that
   * position, or "" when the line is too short to have one.
   */
  lemma RecordValueAt(headers: Row, line: Row, i: nat)
    requires i < |headers|
    requires forall j :: i < j < |headers| ==> headers[j] != headers[i]
    ensures headers[i] in RecordOf(headers, line)
    ensures RecordOf(headers, line)[headers[i]] == if i < |line| then line[i] else ""
  {
    BuildRecordAt(headers, line, |headers|, i);
  }

  /** A repeated header name takes its value from its last (highest-index) column. */
  lemma RecordLastColumnWins(headers: Row, line: Row, name: string)
    requires name in headers
    ensures name in RecordOf(headers, line)
    ensures RecordOf(headers, line)[name] == Cell(line, LastIndexOf(headers, name))
  {
    RecordValueAt(headers, line, LastIndexOf(headers, name));
  }

  /** The loop agrees with the independent description of a record. */
  lemma RecordMatchesReference(headers: Row, line: Row)
    ensures RecordOf(headers, line) == ReferenceRecord(headers, line)
  {
    var r, e := RecordOf(headers, line), ReferenceRecord(headers, line);
    BuildRecordKeys(headers, line, |headers|);
    assert headers[..|headers|] == headers;
    forall name | name in headers
      ensures name in r && r[name] == e[name]
    {
      RecordLastColumnWins(headers, line, name);
    }
  }

  /** Fields past the header length are dropped: appending any of them changes nothing. */
  lemma RecordIgnoresExtraFields(headers: Row, line: Row, extra: Row)
    requires |line| >= |headers|
    ensures RecordOf(headers, line + extra) == RecordOf(headers, line)
  {
    BuildRecordAgrees(headers, line + extra, line, |headers|);
  }

  /** A record depends only on the fields at positions below the header length. */
  lemma RecordDependsOnlyOnHeaderPrefix(headers: Row, line: Row)
    ensures |headers| <= |line| ==> RecordOf(headers, line) == RecordOf(headers, line[..|headers|])
    ensures |headers| > |line| ==> RecordOf(headers, line) == RecordOf(headers, line + Blanks(|headers| - |line|))
  {
    if |headers| <= |line| {
      BuildRecordAgrees(headers, line, line[..|headers|], |headers|);
    } else {
      BuildRecordAgrees(headers, line, line + Blanks(|headers| - |line|), |headers|);
    }
  }

  /** `n` empty fields. */
  function Blanks(n: nat): (r: Row)
    ensures |r| == n && forall i :: 0 <= i < n ==> r[i] == ""
  {
    seq(n, _ => "")
  }

  /** With no data lines there are no records (Go returns a nil slice). */
  lemma NoLinesNoRecords(headers: Row)
    ensures Records(headers, []) == []
  {
  }

  /** Missing trailing fields become "": header x,y,z over the line a. */
  lemma MissingFieldsExample()
    ensures RecordOf(["x", "y", "z"], ["a"]) == map["x" := "a", "y" := "", "z" := ""]
  {
    var headers, line := ["x", "y", "z"], ["a"];
    assert BuildRecord(headers, line, 1) == map["x" := "a"];
    assert BuildRecord(headers, line, 2) == map["x" := "a", "y" := ""];
  }

  /** Extra trailing fields are dropped: header x over the line a,b,c. */
  lemma ExtraFieldsExample()
    ensures RecordOf(["x"], ["a", "b", "c"]) == map["x" := "a"]
  {
  }
}
