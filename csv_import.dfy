/** The revenue-file import dialog: `parseCSV` turns the text of a comma-separated file
    into revenue rows, or fails naming the missing columns or the first bad line; the
    dialog keeps the first five rows as a preview and hands the preview on at import. */
module CsvImport {
  import opened Wrappers
  import opened Text
  import Seqs

  /** One revenue record: day, turnover, number of orders, commission, shop. */
  datatype CsvRow = CsvRow(date: string, ca: real, commandes: int, commission: real, shop: string)

  /** Why a file is refused; line numbers count the non-blank lines, the header being line 1. */
  datatype CsvError =
    | NoHeader                            // the text has no non-blank line at all
    | MissingColumns(columns: seq<string>)
    | WrongColumnCount(line: nat)
    | InvalidData(line: nat)

  const RequiredColumns: seq<string> := ["date", "ca", "commandes", "commission", "shop"]

  /** `line.trim()` taken as a truth value: the trimmed line is not empty. */
  predicate HasContent(line: string)
    ensures HasContent(line) <==> !AllWhitespace(line)
  {
    Trim(line) != []
  }

  /** The lines of the text, split at every line feed, with blank lines dropped. */
  function NonBlankLines(text: string): seq<string>
  {
    Seqs.Filter(Split(text, '\n'), HasContent)
  }

  /** The kept lines are the non-blank lines of the text, in order. */
  lemma NonBlankLinesMeaning(text: string)
    ensures forall k :: 0 <= k < |NonBlankLines(text)| ==> !AllWhitespace(NonBlankLines(text)[k])
    ensures forall l :: l in Split(text, '\n') && !AllWhitespace(l) ==> l in NonBlankLines(text)
    ensures Seqs.IsSubseq(NonBlankLines(text), Split(text, '\n'))
    ensures forall l :: multiset(NonBlankLines(text))[l]
                        == if AllWhitespace(l) then 0 else multiset(Split(text, '\n'))[l]
  {
    var parts := Split(text, '\n');
    var lines := NonBlankLines(text);
    NonBlankLinesCopies(text);
    forall k | 0 <= k < |lines| ensures !AllWhitespace(lines[k]) {
      assert lines[k] in lines;
      assert HasContent(lines[k]);
    }
    forall l | l in parts && !AllWhitespace(l) ensures l in lines {
      assert HasContent(l);
    }
  }

  /** Every non-blank line is kept as many times as it occurs, and no blank line is. */
  lemma NonBlankLinesCopies(text: string)
    ensures forall l :: multiset(NonBlankLines(text))[l]
                        == if AllWhitespace(l) then 0 else multiset(Split(text, '\n'))[l]
  {
    Seqs.FilterMultisetBy(Split(text, '\n'), HasContent, AllWhitespace);
  }

  /** Each part trimmed and lower-cased: `.map(h => h.trim().toLowerCase())`. */
  function NormalizedNames(parts: seq<string>): (names: seq<string>)
    ensures |names| == |parts|
    ensures forall k :: 0 <= k < |parts| ==> names[k] == Lower(Trim(parts[k]))
  {
    if parts == [] then [] else [Lower(Trim(parts[0]))] + NormalizedNames(parts[1..])
  }

  /** The header line's names, trimmed and lower-cased. */
  function HeaderNames(line: string): (names: seq<string>)
    ensures |names| == Occurrences(line, ',') + 1
  {
    NormalizedNames(Split(line, ','))
  }

  /** A data line's values, trimmed. */
  function Fields(line: string): (values: seq<string>)
    ensures |values| == Occurrences(line, ',') + 1
  {
    var parts := Split(line, ',');
    seq(|parts|, k requires 0 <= k < |parts| => Trim(parts[k]))
  }

  /** The required columns the header lacks, in the order they are required. */
  function Missing(headers: seq<string>): (missing: seq<string>)
    ensures forall c :: c in missing <==> c in RequiredColumns && c !in headers
    ensures Seqs.IsSubseq(missing, RequiredColumns)
  {
    Seqs.Filter(RequiredColumns, col => col !in headers)
  }

  predicate HasRequired(headers: seq<string>)
  {
    "date" in headers && "ca" in headers && "commandes" in headers
    && "commission" in headers && "shop" in headers
  }

  /** The header lacks no column exactly when it holds all five. */
  lemma MissingNone(headers: seq<string>)
    ensures Missing(headers) == [] <==> HasRequired(headers)
  {
    assert RequiredColumns[0] == "date" && RequiredColumns[1] == "ca" && RequiredColumns[2] == "commandes";
    assert RequiredColumns[3] == "commission" && RequiredColumns[4] == "shop";
    if Missing(headers) != [] {
      assert Missing(headers)[0] in Missing(headers);
    }
  }

  /** `headers.indexOf(name)`: the first position of `name`, or -1. */
  function IndexOf(headers: seq<string>, name: string): (i: int)
    ensures name in headers ==> 0 <= i < |headers| && headers[i] == name
    ensures name in headers ==> forall j :: 0 <= j < i ==> headers[j] != name
    ensures name !in headers ==> i == -1
  {
    if headers == [] then -1
    else if headers[0] == name then 0
    else
      var i := IndexOf(headers[1..], name);
      if i == -1 then -1 else i + 1
  }

  /** `parseFloat(v) || 0`: NaN (no number at all) and zero both give 0. */
  function FloatOrZero(v: string): real
  {
    match ParseFloat(v)
    case None => 0.0
    case Some(x) => x
  }

  /** `parseInt(v) || 0`. */
  function IntOrZero(v: string): int
  {
    match ParseInt(v)
    case None => 0
    case Some(x) => x
  }

  /** The record built from one line's values, each read at its column's header position. */
  function MapRow(headers: seq<string>, values: seq<string>): (row: CsvRow)
    requires HasRequired(headers) && |values| == |headers|
    ensures row.date == values[IndexOf(headers, "date")]
    ensures row.shop == values[IndexOf(headers, "shop")]
  {
    CsvRow(values[IndexOf(headers, "date")],
           FloatOrZero(values[IndexOf(headers, "ca")]),
           IntOrZero(values[IndexOf(headers, "commandes")]),
           FloatOrZero(values[IndexOf(headers, "commission")]),
           values[IndexOf(headers, "shop")])
  }

  /** One data line, numbered `lineNo`: the count of values is checked first, then the date. */
  function CheckRow(headers: seq<string>, line: string, lineNo: nat): Result<CsvRow, CsvError>
    requires HasRequired(headers)
  {
    var values := Fields(line);
    if |values| != |headers| then Err(WrongColumnCount(lineNo))
    else
      var row := MapRow(headers, values);
      if row.date == "" then Err(InvalidData(lineNo)) else Ok(row)
  }

  /** Each data line's outcome; the k-th data line (from 0) is line k + 2. */
  function CheckRows(headers: seq<string>, rows: seq<string>): (checks: seq<Result<CsvRow, CsvError>>)
    requires HasRequired(headers)
    ensures |checks| == |rows|
    ensures forall k :: 0 <= k < |rows| ==> checks[k] == CheckRow(headers, rows[k], k + 2)
  {
    seq(|rows|, k requires 0 <= k < |rows| => CheckRow(headers, rows[k], k + 2))
  }

  /** Outcomes taken in order: all the values when every one succeeds, otherwise the
      first failure. */
  function Collect<T, E>(outcomes: seq<Result<T, E>>): Result<seq<T>, E>
  {
    if outcomes == [] then Ok([])
    else
      match Collect(outcomes[..|outcomes| - 1])
      case Err(e) => Err(e)
      case Ok(done) =>
        match outcomes[|outcomes| - 1]
        case Err(e) => Err(e)
        case Ok(x) => Ok(done + [x])
  }

  /** What `parseCSV` returns or throws once the header line has been read: missing
      columns are reported first, then the data lines are checked in order. */
  function ParseRecords(headers: seq<string>, rows: seq<string>): Result<seq<CsvRow>, CsvError>
  {
    var missing := Missing(headers);
    if missing != [] then Err(MissingColumns(missing))
    else
      MissingNone(headers);
      Collect(CheckRows(headers, rows))
  }

  /** What `parseCSV` returns or throws for the text of a file: its first non-blank line
      is the header, every later one a record. */
  function ParseCsv(text: string): Result<seq<CsvRow>, CsvError>
  {
    ParseLines(NonBlankLines(text))
  }

  /** What `parseCSV` returns or throws for the non-blank lines of a file. */
  function ParseLines(lines: seq<string>): Result<seq<CsvRow>, CsvError>
  {
    if lines == [] then Err(NoHeader) else ParseRecords(HeaderNames(lines[0]), lines[1..])
  }

  /** A failure among the first `n` outcomes is the failure of them all. */
  lemma {:induction false} CollectErrExtends<T, E>(outcomes: seq<Result<T, E>>, n: nat)
    requires n <= |outcomes|
    requires Collect(outcomes[..n]).Err?
    ensures Collect(outcomes) == Collect(outcomes[..n])
    decreases |outcomes| - n
  {
    if n < |outcomes| {
      var shorter := outcomes[..|outcomes| - 1];
      assert shorter[..n] == outcomes[..n];
      CollectErrExtends(shorter, n);
    } else {
      assert outcomes[..n] == outcomes;
    }
  }

  /** One more outcome after a successful run either fails the collection with its error
      or extends the collected values. */
  lemma CollectStep<T, E>(outcomes: seq<Result<T, E>>, j: int, done: seq<T>)
    requires 0 <= j < |outcomes| && Collect(outcomes[..j]) == Ok(done)
    ensures outcomes[j].Err? ==> Collect(outcomes[..j + 1]) == Err(outcomes[j].error)
    ensures outcomes[j].Ok? ==> Collect(outcomes[..j + 1]) == Ok(done + [outcomes[j].value])
  {
    assert outcomes[..j + 1][..j] == outcomes[..j];
  }

  /** The body of `parseCSV`'s loop for one data line: split and count the values, map
      them by header position, check the date. */
  method ReadLine(headers: seq<string>, line: string, lineNo: nat) returns (r: Result<CsvRow, CsvError>)
    requires HasRequired(headers)
    ensures r == CheckRow(headers, line, lineNo)
  {
    var values := Fields(line);
    if |values| != |headers| {
      return Err(WrongColumnCount(lineNo));
    }
    var row := MapRow(headers, values);
    if row.date == "" {
      return Err(InvalidData(lineNo));
    }
    return Ok(row);
  }

  /** `parseCSV`'s loop over the data lines: each line is read in turn and its record
      pushed; the first bad line throws. */
  method ParseDataLines(headers: seq<string>, rows: seq<string>) returns (r: Result<seq<CsvRow>, CsvError>)
    ensures r == ParseRecords(headers, rows)
  {
    var missing := Missing(headers);
    if |missing| > 0 {
      return Err(MissingColumns(missing));
    }
    MissingNone(headers);
    var data: seq<CsvRow> := [];
    var j := 0;
    ghost var checks := CheckRows(headers, rows);
    while j < |rows|
      invariant 0 <= j <= |rows|
      invariant Collect(checks[..j]) == Ok(data)
    {
      var line := ReadLine(headers, rows[j], j + 2);
      CollectStep(checks, j, data);
      if line.Err? {
        CollectErrExtends(checks, j + 1);
        return Err(line.error);
      }
      data := data + [line.value];
      j := j + 1;
    }
    assert checks[..j] == checks;
    return Ok(data);
  }

  /** `parseCSV`: cut the text into its non-blank lines, read the header, then the data. */
  method ParseCsvText(text: string) returns (r: Result<seq<CsvRow>, CsvError>)
    ensures r == ParseCsv(text)
  {
    var lines := NonBlankLines(text);
    if |lines| == 0 {
      return Err(NoHeader);
    }
    var headers := HeaderNames(lines[0]);
    r := ParseDataLines(headers, lines[1..]);
  }

  /** All outcomes succeed exactly when collecting them succeeds; then the values are
      collected one for one, in order. */
  lemma {:induction false} CollectOk<T, E>(outcomes: seq<Result<T, E>>)
    ensures Collect(outcomes).Ok? <==> forall k :: 0 <= k < |outcomes| ==> outcomes[k].Ok?
    ensures Collect(outcomes).Ok? ==>
              && |Collect(outcomes).value| == |outcomes|
              && forall k :: 0 <= k < |outcomes| ==> Collect(outcomes).value[k] == outcomes[k].value
  {
    if outcomes != [] {
      var front := outcomes[..|outcomes| - 1];
      CollectOk(front);
      assert forall k :: 0 <= k < |front| ==> front[k] == outcomes[k];
    }
  }

  /** A failed collection reports an outcome that failed, every earlier one having succeeded. */
  lemma {:induction false} CollectFirstError<T, E>(outcomes: seq<Result<T, E>>)
    requires Collect(outcomes).Err?
    ensures exists k :: 0 <= k < |outcomes| && outcomes[k] == Err(Collect(outcomes).error)
                        && forall j :: 0 <= j < k ==> outcomes[j].Ok?
  {
    var front := outcomes[..|outcomes| - 1];
    assert forall k :: 0 <= k < |front| ==> front[k] == outcomes[k];
    if Collect(front).Err? {
      CollectFirstError(front);
      var k :| 0 <= k < |front| && front[k] == Err(Collect(front).error)
               && forall j :: 0 <= j < k ==> front[j].Ok?;
      assert outcomes[k] == Err(Collect(outcomes).error);
    } else {
      CollectOk(front);
      var k := |outcomes| - 1;
      assert outcomes[k] == Err(Collect(outcomes).error);
    }
  }

  /** A data line is accepted exactly when it has one value per header column and a
      non-empty date; the record is then the line's values read at the header's positions. */
  lemma CheckRowOk(headers: seq<string>, line: string, lineNo: nat)
    requires HasRequired(headers)
    ensures CheckRow(headers, line, lineNo).Ok? <==>
              |Fields(line)| == |headers| && Fields(line)[IndexOf(headers, "date")] != ""
    ensures CheckRow(headers, line, lineNo).Ok? ==>
              CheckRow(headers, line, lineNo).value == MapRow(headers, Fields(line))
  {
  }

  /** A rejected data line is rejected for its count of values or for its date, and the
      error names that line's number. */
  lemma CheckRowErrorLine(headers: seq<string>, line: string, lineNo: nat)
    requires HasRequired(headers)
    ensures (CheckRow(headers, line, lineNo) == Err(WrongColumnCount(lineNo)))
              <==> |Fields(line)| != |headers|
    ensures (CheckRow(headers, line, lineNo) == Err(InvalidData(lineNo)))
              <==> |Fields(line)| == |headers| && Fields(line)[IndexOf(headers, "date")] == ""
    ensures CheckRow(headers, line, lineNo).Err? ==>
              CheckRow(headers, line, lineNo).error.WrongColumnCount?
              || CheckRow(headers, line, lineNo).error.InvalidData?
  {
  }

  /** A file is refused for missing columns exactly when its header lacks one; the error
      lists exactly the missing ones, in the order they are required. */
  lemma ParseRecordsMissing(headers: seq<string>, rows: seq<string>)
    ensures (ParseRecords(headers, rows).Err? && ParseRecords(headers, rows).error.MissingColumns?)
              <==> !HasRequired(headers)
    ensures !HasRequired(headers) ==> ParseRecords(headers, rows) == Err(MissingColumns(Missing(headers)))
  {
    MissingNone(headers);
    if HasRequired(headers) && ParseRecords(headers, rows).Err? {
      var checks := CheckRows(headers, rows);
      CollectFirstError(checks);
      var k :| 0 <= k < |checks| && checks[k] == Err(Collect(checks).error);
      CheckRowErrorLine(headers, rows[k], k + 2);
    }
  }

  /** On success there is exactly one record per data line, in input order, each read
      from its line's values at the header's positions. */
  lemma ParseRecordsSuccess(headers: seq<string>, rows: seq<string>)
    requires ParseRecords(headers, rows).Ok?
    ensures HasRequired(headers)
    ensures |ParseRecords(headers, rows).value| == |rows|
    ensures forall k :: 0 <= k < |rows| ==>
              && |Fields(rows[k])| == |headers|
              && ParseRecords(headers, rows).value[k] == MapRow(headers, Fields(rows[k]))
  {
    MissingNone(headers);
    var checks := CheckRows(headers, rows);
    CollectOk(checks);
    forall k | 0 <= k < |rows|
      ensures |Fields(rows[k])| == |headers|
      ensures Collect(checks).value[k] == MapRow(headers, Fields(rows[k]))
    {
      CheckRowOk(headers, rows[k], k + 2);
    }
  }

  /** A data line that fails stops the parse: the error is that of the first failing line,
      and names its number (the header being line 1, data line `k` being line `k + 2`). */
  lemma ParseRecordsFirstBadLine(headers: seq<string>, rows: seq<string>)
    requires ParseRecords(headers, rows).Err?
    requires !ParseRecords(headers, rows).error.MissingColumns?
    ensures HasRequired(headers)
    ensures exists k :: 0 <= k < |rows|
              && CheckRow(headers, rows[k], k + 2) == Err(ParseRecords(headers, rows).error)
              && (forall j :: 0 <= j < k ==> CheckRow(headers, rows[j], j + 2).Ok?)
  {
    MissingNone(headers);
    var checks := CheckRows(headers, rows);
    CollectFirstError(checks);
  }

  /** Once a header has been read, the file is never refused for lack of one. */
  lemma ParseRecordsHasHeader(headers: seq<string>, rows: seq<string>)
    ensures ParseRecords(headers, rows) != Err(NoHeader)
  {
    if ParseRecords(headers, rows).Err? && !ParseRecords(headers, rows).error.MissingColumns? {
      ParseRecordsFirstBadLine(headers, rows);
      var k :| 0 <= k < |rows| && CheckRow(headers, rows[k], k + 2) == Err(ParseRecords(headers, rows).error);
      CheckRowErrorLine(headers, rows[k], k + 2);
    }
  }

  /** A file is refused for lack of a header exactly when it has no non-blank line. */
  lemma ParseLinesNoHeader(lines: seq<string>)
    ensures ParseLines(lines) == Err(NoHeader) <==> lines == []
  {
    if lines != [] {
      ParseRecordsHasHeader(HeaderNames(lines[0]), lines[1..]);
    }
  }

  /** Consistently reordering the columns of the header and of a line yields the same
      record, provided the header names are distinct. `perm` says where each new column
      comes from and `back` undoes it. */
  lemma MapRowReorder(headers: seq<string>, values: seq<string>,
                      headers2: seq<string>, values2: seq<string>,
                      perm: seq<nat>, back: seq<nat>)
    requires HasRequired(headers) && |values| == |headers| && Seqs.NoDup(headers)
    requires |headers2| == |values2| == |perm| == |back| == |headers|
    requires forall j :: 0 <= j < |perm| ==> perm[j] < |headers|
    requires forall i :: 0 <= i < |back| ==> back[i] < |perm| && perm[back[i]] == i
    requires forall j :: 0 <= j < |perm| ==> headers2[j] == headers[perm[j]] && values2[j] == values[perm[j]]
    ensures HasRequired(headers2)
    ensures MapRow(headers2, values2) == MapRow(headers, values)
  {
    forall c | c in RequiredColumns
      ensures c in headers2 && values2[IndexOf(headers2, c)] == values[IndexOf(headers, c)]
    {
      var i := IndexOf(headers, c);
      assert headers2[back[i]] == c;
      var j := IndexOf(headers2, c);
      assert headers[perm[j]] == c;
    }
  }

  /** Only an empty date can make a line invalid: values that are not numbers read as 0. */
  lemma OnlyEmptyDateInvalid(headers: seq<string>, values: seq<string>)
    requires HasRequired(headers) && |values| == |headers|
    ensures MapRow(headers, values).date == "" <==> values[IndexOf(headers, "date")] == ""
    ensures ParseFloat(values[IndexOf(headers, "ca")]).None? ==> MapRow(headers, values).ca == 0.0
    ensures ParseInt(values[IndexOf(headers, "commandes")]).None? ==> MapRow(headers, values).commandes == 0
    ensures ParseFloat(values[IndexOf(headers, "commission")]).None? ==> MapRow(headers, values).commission == 0.0
  {
  }

  /** `parsedData.slice(0, 5)`: the rows shown before import. */
  function Preview(rows: seq<CsvRow>): (p: seq<CsvRow>)
    ensures |p| == if |rows| < 5 then |rows| else 5
    ensures p <= rows
  {
    Seqs.Take(rows, 5)
  }

  /** What the dialog reports below the file input. */
  datatype Notice = Silent | Analysed(rowCount: nat) | Imported

  /** The import dialog's state: the chosen file's text, the preview, and the messages. */
  class ImportModal {
    var file: Option<string>
    var preview: seq<CsvRow>
    var error: Option<CsvError>
    var notice: Notice

    constructor ()
      ensures file == None && preview == [] && error == None && notice == Silent
    {
      file := None;
      preview := [];
      error := None;
      notice := Silent;
    }

    /** `handleFileSelect`: choosing a file clears the messages and the preview. */
    method SelectFile(chosen: Option<string>)
      modifies this
      ensures chosen.Some? ==> file == chosen && error == None && notice == Silent && preview == []
      ensures chosen.None? ==> file == old(file) && error == old(error) && notice == old(notice) && preview == old(preview)
    {
      if chosen.Some? {
        file := chosen;
        error := None;
        notice := Silent;
        preview := [];
      }
    }

    /** `handleProcessFile`: parse the chosen file; success shows the first five rows and the
        count, failure shows the error and leaves the old preview in place. */
    method ProcessFile()
      modifies this
      ensures file == old(file)
      ensures old(file).None? ==> preview == old(preview) && error == old(error) && notice == old(notice)
      ensures old(file).Some? ==>
                match ParseCsv(old(file).value)
                case Ok(rows) => preview == Preview(rows) && notice == Analysed(|rows|) && error == None
                case Err(e) => preview == old(preview) && notice == Silent && error == Some(e)
    {
      if file.None? {
        return;
      }
      var parsed := ParseCsvText(file.value);
      ShowOutcome(parsed);
    }

    /** The state changes once the text has been parsed: the preview, the row count and
        no error on success; the error, and the old preview, on failure. */
    method ShowOutcome(parsed: Result<seq<CsvRow>, CsvError>)
      modifies this
      ensures file == old(file)
      ensures match parsed
              case Ok(rows) => preview == Preview(rows) && notice == Analysed(|rows|) && error == None
              case Err(e) => preview == old(preview) && notice == Silent && error == Some(e)
    {
      match parsed {
        case Ok(rows) =>
          preview, notice, error := Preview(rows), Analysed(|rows|), None;
        case Err(e) =>
          notice, error := Silent, Some(e);
      }
    }

    /** `handleImport`: hands the preview on when there is one, and does nothing otherwise. */
    method Import() returns (handed: Option<seq<CsvRow>>)
      modifies this
      ensures handed == if |old(preview)| > 0 then Some(old(preview)) else None
      ensures notice == if |old(preview)| > 0 then Imported else old(notice)
      ensures preview == old(preview) && file == old(file) && error == old(error)
    {
      if |preview| > 0 {
        handed := Some(preview);
        notice := Imported;
      } else {
        handed := None;
      }
    }
  }

  /** What import hands on for a file that parses is the records of its first five data
      lines at most, in order: a file with more than five data lines is imported only in
      part. */
  lemma ImportedRowsOfFile(headers: seq<string>, rows: seq<string>)
    requires ParseRecords(headers, rows).Ok?
    ensures var records := ParseRecords(headers, rows).value;
            && |Preview(records)| == (if |rows| < 5 then |rows| else 5)
            && (forall k :: 0 <= k < |Preview(records)| ==>
                  |Fields(rows[k])| == |headers|
                  && Preview(records)[k] == MapRow(headers, Fields(rows[k])))
            && (|rows| > 5 ==> |Preview(records)| < |records|)
  {
    ParseRecordsSuccess(headers, rows);
    var records := ParseRecords(headers, rows).value;
    var p := Preview(records);
    forall k | 0 <= k < |p| ensures p[k] == records[k] {
      assert p <= records;
    }
  }
}
