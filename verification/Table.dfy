/** Reading a benchmark table row by row. */
module Table {
  import opened Wrappers
  import opened Trimming
  import Csv

  const COLUMNS := 30

  datatype RowError = TooFewFields(found: nat) | BadField(message: string)
  datatype TableError =
    | Empty
    | TooFewColumns(found: nat)
    | WrongFirstColumn(name: string)
    | BadRow(line: nat, error: RowError)

  // What a row gives, told by its separating commas: thirty fields take 29 of them. `convert`
  // stands for the number and boolean parsers of a row's fields.
  function RowOf<R>(line: string, convert: seq<string> -> Result<R, string>): Result<R, RowError> {
    var separators := |Csv.Separators(line, |line|)|;
    if separators < 29 then Err(TooFewFields(separators + 1))
    else
      match convert(Csv.Fields(line))
      case Ok(record) => Ok(record)
      case Err(message) => Err(BadField(message))
  }

  method ParseRow<R>(line: string, convert: seq<string> -> Result<R, string>) returns (row: Result<R, RowError>)
    ensures row == RowOf(line, convert)
    ensures forall n :: row == Err(TooFewFields(n)) <==> n == 1 + |Csv.Separators(line, |line|)| < 30
    ensures row.Ok? || row.error.BadField? <==> |Csv.Separators(line, |line|)| >= 29
  {
    var f := Csv.SplitCsvRow(line);
    Csv.FieldsPerSeparator(line);
    if |f| < COLUMNS {
      return Err(TooFewFields(|f|));
    }
    var record := convert(f);
    row := if record.Ok? then Ok(record.value) else Err(BadField(record.error));
  }

  // A header needs thirty columns, that is at least 29 separating commas, the first one `run_id`.
  predicate HeaderOk(header: string) {
    |Csv.Separators(header, |header|)| >= 29 && Csv.Fields(header)[..1] == ["run_id"]
  }

  // What is wrong with a header, the column count being checked first.
  predicate HeaderFault(header: string, e: TableError) {
    match e
    case TooFewColumns(found) => found == 1 + |Csv.Separators(header, |header|)| < 30
    case WrongFirstColumn(name) =>
      |Csv.Separators(header, |header|)| >= 29 && Csv.Fields(header)[..1] == [name] && name != "run_id"
    case _ => false
  }

  method ValidateHeader(header: string) returns (error: Option<TableError>)
    ensures error.None? <==> HeaderOk(header)
    ensures error.Some? ==> HeaderFault(header, error.value)
  {
    var fields := Csv.SplitCsvRow(header);
    Csv.FieldsPerSeparator(header);
    assert fields[..1] == [fields[0]];
    if |fields| < COLUMNS {
      return Some(TooFewColumns(|fields|));
    }
    if fields[0] != "run_id" {
      assert [fields[0]][0] != ["run_id"][0];
      return Some(WrongFirstColumn(fields[0]));
    }
    error := None;
  }

  predicate Blank(line: string) {
    Trim(line) == ""
  }

  // What a line gives: nothing when it is blank, else its row.
  function LineOf<R>(line: string, convert: seq<string> -> Result<R, string>): Result<Option<R>, RowError> {
    if Blank(line) then Ok(None)
    else
      match RowOf(Trim(line), convert)
      case Ok(record) => Ok(Some(record))
      case Err(error) => Err(error)
  }

  method ReadLine<R>(line: string, convert: seq<string> -> Result<R, string>)
    returns (result: Result<Option<R>, RowError>)
    ensures result == LineOf(line, convert)
  {
    var trimmed := Trim(line);
    if trimmed == "" {
      return Ok(None);
    }
    var row := ParseRow(trimmed, convert);
    result := if row.Ok? then Ok(Some(row.value)) else Err(row.error);
  }

  // The records of the lines from..to, in order.
  function Records<R>(lines: seq<string>, from: nat, to: nat, read: string -> Result<Option<R>, RowError>): seq<R>
    requires from <= to <= |lines|
  {
    if from == to then []
    else
      var row := read(lines[to - 1]);
      Records(lines, from, to - 1, read) + if row.Ok? && row.value.Some? then [row.value.value] else []
  }

  // `lines` are the lines of the content, of which the first is a header that was accepted. The
  // rest is read exactly when every line is accepted; otherwise the error names the first line
  // that is not, counted from one with the header and blank lines included.
  method ReadRows<R>(
      lines: seq<string>, convert: seq<string> -> Result<R, string>,
      ghost read: string -> Result<Option<R>, RowError>)
    returns (result: Result<seq<R>, TableError>)
    requires lines != [] && forall line :: read(line) == LineOf(line, convert)
    ensures match result
      case Ok(records) =>
        (forall i :: 1 <= i < |lines| ==> read(lines[i]).Ok?) && records == Records(lines, 1, |lines|, read)
      case Err(BadRow(n, error)) =>
        2 <= n <= |lines| && read(lines[n - 1]) == Err(error) && forall i :: 1 <= i < n - 1 ==> read(lines[i]).Ok?
      case Err(_) => false
  {
    var records := [];
    for i := 1 to |lines|
      invariant forall j :: 1 <= j < i ==> read(lines[j]).Ok?
      invariant records == Records(lines, 1, i, read)
    {
      var row := ReadLine(lines[i], convert);
      assert row == read(lines[i]);
      if row.Err? {
        return Err(BadRow(i + 1, row.error));
      }
      if row.value.Some? {
        records := records + [row.value.value];
      }
    }
    result := Ok(records);
  }

  method ParseBenchmarkCsv<R>(lines: seq<string>, convert: seq<string> -> Result<R, string>)
    returns (result: Result<seq<R>, TableError>)
    ensures lines == [] <==> result == Err(Empty)
    ensures lines != [] && !HeaderOk(lines[0]) <==> result.Err? && lines != [] && HeaderFault(lines[0], result.error)
    ensures result.Ok? ==>
      && lines != [] && (forall i :: 1 <= i < |lines| ==> LineOf(lines[i], convert).Ok?)
      && result.value == Records(lines, 1, |lines|, (line: string) => LineOf(line, convert))
    ensures result.Err? && result.error.BadRow? ==>
      var n := result.error.line;
      && 2 <= n <= |lines| && LineOf(lines[n - 1], convert) == Err(result.error.error)
      && (forall i :: 1 <= i < n - 1 ==> LineOf(lines[i], convert).Ok?)
  {
    if lines == [] {
      return Err(Empty);
    }
    var error := ValidateHeader(lines[0]);
    if error.Some? {
      return Err(error.value);
    }
    result := ReadRows(lines, convert, (line: string) => LineOf(line, convert));
  }

  // The i-th record is what line source[i] gives, in order, and no line from..to that gives one is
  // left out.
  ghost predicate Tracks<R>(
    lines: seq<string>, from: nat, to: nat, read: string -> Result<Option<R>, RowError>,
    source: seq<nat>, records: seq<R>)
    requires from <= to <= |lines| && forall i :: from <= i < to ==> read(lines[i]).Ok?
  {
    && |source| == |records|
    && (forall i :: 0 <= i < |source| ==> from <= source[i] < to && read(lines[source[i]]) == Ok(Some(records[i])))
    && (forall i, j :: 0 <= i < j < |source| ==> source[i] < source[j])
    && (forall k: nat :: from <= k < to && read(lines[k]).value.Some? ==> k in source)
  }

  lemma TracksOneMore<R>(
    lines: seq<string>, from: nat, to: nat, read: string -> Result<Option<R>, RowError>,
    source: seq<nat>, records: seq<R>)
    requires from < to <= |lines| && forall i :: from <= i < to ==> read(lines[i]).Ok?
    requires Tracks(lines, from, to - 1, read, source, records)
    ensures var last := read(lines[to - 1]).value;
      if last.Some? then Tracks(lines, from, to, read, source + [to - 1], records + [last.value])
      else Tracks(lines, from, to, read, source, records)
  {}

  lemma {:induction false} RecordsComeFromLines<R>(
    lines: seq<string>, from: nat, to: nat, read: string -> Result<Option<R>, RowError>) returns (source: seq<nat>)
    requires from <= to <= |lines| && forall i :: from <= i < to ==> read(lines[i]).Ok?
    ensures Tracks(lines, from, to, read, source, Records(lines, from, to, read))
  {
    source := [];
    if from < to {
      source := RecordsComeFromLines(lines, from, to - 1, read);
      TracksOneMore(lines, from, to, read, source, Records(lines, from, to - 1, read));
      var last := read(lines[to - 1]);
      assert last.Ok?;
      if last.value.Some? {
        source := source + [to - 1];
      } else {
        assert Records(lines, from, to - 1, read) + [] == Records(lines, from, to - 1, read);
      }
    }
  }

  // For a table that is read: the i-th record is what the fields of the i-th line that is not blank
  // convert to, and no such line is left out.
  lemma RecordIsOfItsLine<R>(lines: seq<string>, convert: seq<string> -> Result<R, string>) returns (source: seq<nat>)
    requires lines != [] && forall i :: 1 <= i < |lines| ==> LineOf(lines[i], convert).Ok?
    ensures var records := Records(lines, 1, |lines|, (line: string) => LineOf(line, convert));
      && |source| == |records|
      && (forall i :: 0 <= i < |source| ==>
            1 <= source[i] < |lines| && convert(Csv.Fields(Trim(lines[source[i]]))) == Ok(records[i]))
      && (forall i, j :: 0 <= i < j < |source| ==> source[i] < source[j])
      && (forall k: nat :: k in source <==> 1 <= k < |lines| && !Blank(lines[k]))
  {
    var read := (line: string) => LineOf(line, convert);
    source := RecordsComeFromLines(lines, 1, |lines|, read);
    forall k: nat | 1 <= k < |lines| ensures read(lines[k]).value.Some? <==> !Blank(lines[k]) {
      assert LineOf(lines[k], convert).Ok?;
    }
  }

  // The lines from..to that hold something.
  function Filled(lines: seq<string>, from: nat, to: nat): set<nat>
    requires from <= to <= |lines|
  {
    set i: nat | from <= i < to && !Blank(lines[i])
  }

  lemma FilledOneMore(lines: seq<string>, from: nat, to: nat)
    requires from < to <= |lines|
    ensures Filled(lines, from, to) == Filled(lines, from, to - 1) + if Blank(lines[to - 1]) then {} else {to - 1}
    ensures to - 1 !in Filled(lines, from, to - 1)
  {}

  lemma {:induction false} RecordsPerFilled<R>(
    lines: seq<string>, from: nat, to: nat, read: string -> Result<Option<R>, RowError>)
    requires from <= to <= |lines|
    requires forall i :: from <= i < to ==> read(lines[i]).Ok? && (read(lines[i]).value.None? <==> Blank(lines[i]))
    ensures |Records(lines, from, to, read)| == |Filled(lines, from, to)|
  {
    if from == to {
      assert Filled(lines, from, to) == {};
    } else {
      RecordsPerFilled(lines, from, to - 1, read);
      var last := read(lines[to - 1]);
      assert last.Ok? && (last.value.None? <==> Blank(lines[to - 1]));
      FilledOneMore(lines, from, to);
    }
  }

  // A table that is read has a record for each line after the header that is not blank.
  lemma RecordPerLine<R>(lines: seq<string>, convert: seq<string> -> Result<R, string>)
    requires lines != [] && forall i :: 1 <= i < |lines| ==> LineOf(lines[i], convert).Ok?
    ensures |Records(lines, 1, |lines|, (line: string) => LineOf(line, convert))| == |Filled(lines, 1, |lines|)|
  {
    RecordsPerFilled(lines, 1, |lines|, (line: string) => LineOf(line, convert));
  }
}
