/** `validateData`: the whole-table check run on the decoded records before
    anything is displayed. It reports an empty table, then missing columns
    (and stops), then date problems, then unknown country codes, rewriting
    every record's `Location` and `Influences` field on the way. */
module Validation {
  import opened Wrappers
  import opened JsString
  import opened Dates
  import opened Locations
  import opened Messages
  import opened Codes

  /** A decoded record: column name to cell text. A column the record lacks
      reads as `undefined`. */
  type Row = map<string, string>

  /** The returned object: `{isValid: true}` has no `messages` field. */
  datatype Report = Valid | Invalid(messages: seq<Message>)

  /** The report, with the records as the in-place rewrite leaves them. */
  datatype Outcome = Outcome(report: Report, rows: seq<Row>)

  const NeededColumns: seq<string> :=
    ["StartDate", "EndDate", "Title", "RelatedEvents", "Description", "Footnotes", "Image",
     "ForMoreSee", "Ref", "Location", "Influences", "Empire", "Tags"]

  /** The line of the CSV file record `i` came from: the header is line 1,
      and record `i` is reported as line `i + 2`. */
  const FirstCheckedLine: nat := 3

  /** A sequence split after its first element. */
  lemma HeadOfAppend<T>(a: seq<T>, b: seq<T>)
    requires |a| > 0
    ensures (a + b)[0] == a[0] && (a + b)[1..] == a[1..] + b
  {
  }

  lemma EmptyAppend<T>(a: seq<T>, b: seq<T>)
    requires |a| == 0
    ensures a + b == b
  {
  }

  lemma Regroup<T>(x: seq<T>, y: seq<T>, z: seq<T>)
    ensures x + y + z == x + (y + z)
  {
  }

  // ---------------------------------------------------------------------
  // Columns

  /** One message per column of `cols` the record lacks, in `cols` order. */
  function MissingFrom(cols: seq<string>, row: Row): (r: seq<Message>)
    ensures |r| <= |cols|
    ensures forall m :: m in r <==> m.MissingColumn? && m.column in cols && m.column !in row
  {
    if |cols| == 0 then []
    else
      var rest := MissingFrom(cols[1..], row);
      assert forall c :: c in cols <==> c == cols[0] || c in cols[1..];
      (if cols[0] !in row then [MissingColumn(cols[0])] else []) + rest
  }

  function MissingColumns(row: Row): (r: seq<Message>)
    ensures forall m :: m in r <==> m.MissingColumn? && m.column in NeededColumns && m.column !in row
  {
    MissingFrom(NeededColumns, row)
  }

  /** The column check reports column by column: for two runs of columns,
      the first run's messages come before the second run's. */
  lemma {:induction false} MissingFromAppend(a: seq<string>, b: seq<string>, row: Row)
    ensures MissingFrom(a + b, row) == MissingFrom(a, row) + MissingFrom(b, row)
    decreases |a|
  {
    if |a| == 0 {
      EmptyAppend(a, b);
      EmptyAppend(MissingFrom(a, row), MissingFrom(b, row));
    } else {
      HeadOfAppend(a, b);
      MissingFromAppend(a[1..], b, row);
      var head := if a[0] !in row then [MissingColumn(a[0])] else [];
      Regroup(head, MissingFrom(a[1..], row), MissingFrom(b, row));
    }
  }

  /** One column raises one message when the record lacks it, none otherwise. */
  lemma MissingFromOne(c: string, row: Row)
    ensures MissingFrom([c], row) == if c in row then [] else [MissingColumn(c)]
  {
    assert [c][1..] == [];
  }

  predicate HasAllColumns(row: Row) {
    forall c :: c in NeededColumns ==> c in row
  }

  /** Which columns are missing depends only on which needed columns the
      record has. */
  lemma {:induction false} MissingFromSameColumns(cols: seq<string>, a: Row, b: Row)
    requires forall c :: c in cols ==> (c in a <==> c in b)
    ensures MissingFrom(cols, a) == MissingFrom(cols, b)
    decreases |cols|
  {
    if |cols| > 0 {
      assert cols[0] in cols;
      assert forall c :: c in cols[1..] ==> c in cols;
      MissingFromSameColumns(cols[1..], a, b);
    }
  }

  // ---------------------------------------------------------------------
  // Dates

  /** What `validateDate` says of one date column of a record: the start
      date is required, the end date optional. */
  function FieldProblem(row: Row, field: DateField): Option<DateProblem>
  {
    match field
    case StartDate => ValidateDate(Get(row, "StartDate"), false)
    case EndDate => ValidateDate(Get(row, "EndDate"), true)
  }

  predicate DatesOk(row: Row) {
    FieldProblem(row, StartDate).None? && FieldProblem(row, EndDate).None?
  }

  function ProblemMessages(row: Row, field: DateField, line: nat): (r: seq<Message>)
    ensures forall m :: m in r <==> m.DateMessage? && m.line == line && m.field == field
                                     && FieldProblem(row, field) == Some(m.problem)
  {
    match FieldProblem(row, field)
    case None => []
    case Some(p) => [DateMessage(line, field, p)]
  }

  /** The date messages of one record: start date first, then end date. */
  function RowDateMessages(row: Row, line: nat): (r: seq<Message>)
    ensures forall m :: m in r <==> m.DateMessage? && m.line == line && FieldProblem(row, m.field) == Some(m.problem)
    ensures r == [] <==> DatesOk(row)
    ensures |r| == (if FieldProblem(row, StartDate).Some? then 1 else 0) + (if FieldProblem(row, EndDate).Some? then 1 else 0)
    ensures |r| == 2 ==> r == [DateMessage(line, StartDate, FieldProblem(row, StartDate).value),
                               DateMessage(line, EndDate, FieldProblem(row, EndDate).value)]
  {
    var r := ProblemMessages(row, StartDate, line) + ProblemMessages(row, EndDate, line);
    assert FieldProblem(row, StartDate).Some? ==> DateMessage(line, StartDate, FieldProblem(row, StartDate).value) in r;
    assert FieldProblem(row, EndDate).Some? ==> DateMessage(line, EndDate, FieldProblem(row, EndDate).value) in r;
    r
  }

  /** The date loop over `records`, the first of which is on line `line`. */
  function DateMessages(records: seq<Row>, line: nat): (r: seq<Message>)
    ensures forall m :: m in r <==> m.DateMessage? && line <= m.line < line + |records|
                                     && FieldProblem(records[m.line - line], m.field) == Some(m.problem)
    ensures r == [] <==> forall k :: 0 <= k < |records| ==> DatesOk(records[k])
  {
    if |records| == 0 then []
    else
      var head := RowDateMessages(records[0], line);
      var rest := DateMessages(records[1..], line + 1);
      assert forall k :: 1 <= k < |records| ==> records[k] == records[1..][k - 1];
      assert !DatesOk(records[0]) ==> head != [];
      head + rest
  }

  /** The date loop reports record by record: the messages for two runs of
      records are those of the first run followed by those of the second,
      whose lines continue at `next`, where the first run's stop. */
  lemma {:induction false} DateMessagesAppend(a: seq<Row>, b: seq<Row>, line: nat, next: nat)
    requires next == line + |a|
    ensures DateMessages(a + b, line) == DateMessages(a, line) + DateMessages(b, next)
    decreases |a|
  {
    if |a| == 0 {
      assert a + b == b by { EmptyAppend(a, b); }
      assert DateMessages(a, line) == [];
      EmptyAppend(DateMessages(a, line), DateMessages(b, line));
    } else {
      DateMessagesAppend(a[1..], b, line + 1, next);
      DateMessagesStep(a, b, line, DateMessages(b, next));
    }
  }

  /** The inductive step of `DateMessagesAppend`, given its claim for `a[1..]`,
      whose messages for `b` are `z`. */
  lemma DateMessagesStep(a: seq<Row>, b: seq<Row>, line: nat, z: seq<Message>)
    requires |a| > 0
    requires DateMessages(a[1..] + b, line + 1) == DateMessages(a[1..], line + 1) + z
    ensures DateMessages(a + b, line) == DateMessages(a, line) + z
  {
    var x := RowDateMessages(a[0], line);
    var y := DateMessages(a[1..], line + 1);
    assert DateMessages(a + b, line) == x + DateMessages(a[1..] + b, line + 1) by {
      HeadOfAppend(a, b);
      DateMessagesUnfold(a + b, line);
    }
    assert DateMessages(a, line) == x + y by {
      DateMessagesUnfold(a, line);
    }
    Regroup(x, y, z);
  }

  lemma DateMessagesUnfold(records: seq<Row>, line: nat)
    requires |records| > 0
    ensures DateMessages(records, line) == RowDateMessages(records[0], line) + DateMessages(records[1..], line + 1)
  {
  }

  /** One record's date messages, on its own line. */
  lemma DateMessagesOne(row: Row, line: nat)
    ensures DateMessages([row], line) == RowDateMessages(row, line)
  {
    assert [row][1..] == [];
  }

  /** The date messages come record by record. */
  lemma {:induction false} DateMessagesInLineOrder(records: seq<Row>, line: nat)
    ensures Lined(DateMessages(records, line))
    ensures InLineOrder(DateMessages(records, line))
  {
    if |records| > 0 {
      DateMessagesInLineOrder(records[1..], line + 1);
      ConcatInLineOrder(RowDateMessages(records[0], line), DateMessages(records[1..], line + 1), line);
    }
  }

  /** The date loop reads only the two date columns. */
  lemma {:induction false} DateMessagesSameDates(a: seq<Row>, b: seq<Row>, line: nat)
    requires |a| == |b|
    requires forall k :: 0 <= k < |a| ==>
               Get(a[k], "StartDate") == Get(b[k], "StartDate") && Get(a[k], "EndDate") == Get(b[k], "EndDate")
    ensures DateMessages(a, line) == DateMessages(b, line)
    decreases |a|
  {
    if |a| > 0 {
      assert FieldProblem(a[0], StartDate) == FieldProblem(b[0], StartDate);
      assert FieldProblem(a[0], EndDate) == FieldProblem(b[0], EndDate);
      assert RowDateMessages(a[0], line) == RowDateMessages(b[0], line);
      DateMessagesSameDates(a[1..], b[1..], line + 1);
    }
  }

  // ---------------------------------------------------------------------
  // The Location / Influences rewrite and the code check

  predicate HasCodeFields(row: Row) {
    "Location" in row && "Influences" in row
  }

  /** The record after the loop has rewritten its `Location` and
      `Influences` fields with `rewrite`. */
  function NormaliseRow(row: Row, rewrite: string -> string): (r: Row)
    requires HasCodeFields(row)
    ensures r.Keys == row.Keys
    ensures r["Location"] == rewrite(row["Location"])
    ensures r["Influences"] == rewrite(row["Influences"])
    ensures forall k :: k in row && k != "Location" && k != "Influences" ==> r[k] == row[k]
  {
    row["Location" := rewrite(row["Location"])]["Influences" := rewrite(row["Influences"])]
  }

  function NormaliseRows(records: seq<Row>, rewrite: string -> string): (r: seq<Row>)
    requires forall k :: 0 <= k < |records| ==> HasCodeFields(records[k])
    ensures |r| == |records|
    ensures forall k :: 0 <= k < |records| ==> r[k] == NormaliseRow(records[k], rewrite)
  {
    seq(|records|, k requires 0 <= k < |records| => NormaliseRow(records[k], rewrite))
  }

  /** The rewrite the validator applies to both fields: lower-case, split,
      expand the aliases against the map's countries, join with `;`. */
  function Rewrite(geo: seq<GeoEntry>): string -> string
  {
    raw => NormaliseField(raw, CountryIds(geo))
  }

  lemma RewriteIdempotent(geo: seq<GeoEntry>)
    requires forall i :: 0 <= i < |CountryIds(geo)| ==> IsCanonical(CountryIds(geo)[i])
    ensures forall raw :: Rewrite(geo)(Rewrite(geo)(raw)) == Rewrite(geo)(raw)
  {
    forall raw ensures Rewrite(geo)(Rewrite(geo)(raw)) == Rewrite(geo)(raw) {
      NormaliseIdempotent(raw, CountryIds(geo));
    }
  }

  /** A rewritten record whose fields hold only known codes or tokens
      without letters. */
  predicate CodesOk(row: Row, geo: seq<GeoEntry>)
    requires HasCodeFields(row)
  {
    (forall p :: p in SplitUpLocations(row["Location"]) ==> !IsFlagged(p, CodeSet(geo)))
    && (forall p :: p in SplitUpLocations(row["Influences"]) ==> !IsFlagged(p, CodeSet(geo)))
  }

  /** The code messages of one rewritten record: location first. */
  function RowCodeMessages(row: Row, line: nat, geo: seq<GeoEntry>): (r: seq<Message>)
    requires HasCodeFields(row)
    ensures forall m :: m in r ==> m.InvalidCode? && m.line == line && IsFlagged(m.code, CodeSet(geo))
    ensures r == [] <==> CodesOk(row, geo)
    ensures r == ValidateCodes(row["Location"], line, geo) + ValidateCodes(row["Influences"], line, geo)
  {
    ValidateCodes(row["Location"], line, geo) + ValidateCodes(row["Influences"], line, geo)
  }

  /** Every rewritten record passes the code check; stated record by record
      in `AllCodesOkMeans`. */
  predicate AllCodesOk(records: seq<Row>, geo: seq<GeoEntry>)
    requires forall k :: 0 <= k < |records| ==> HasCodeFields(records[k])
  {
    |records| == 0 || (CodesOk(records[0], geo) && AllCodesOk(records[1..], geo))
  }

  lemma {:induction false} AllCodesOkMeans(records: seq<Row>, geo: seq<GeoEntry>)
    requires forall k :: 0 <= k < |records| ==> HasCodeFields(records[k])
    ensures AllCodesOk(records, geo) <==> forall k :: 0 <= k < |records| ==> CodesOk(records[k], geo)
  {
    if |records| > 0 {
      AllCodesOkMeans(records[1..], geo);
      assert forall k :: 1 <= k < |records| ==> records[k] == records[1..][k - 1];
    }
  }

  /** The code loop over already rewritten `records`, the first of which is
      on line `line`. */
  function CodeMessages(records: seq<Row>, line: nat, geo: seq<GeoEntry>): (r: seq<Message>)
    requires forall k :: 0 <= k < |records| ==> HasCodeFields(records[k])
    ensures forall m :: m in r ==> m.InvalidCode? && line <= m.line < line + |records|
    ensures r == [] <==> AllCodesOk(records, geo)
  {
    if |records| == 0 then []
    else RowCodeMessages(records[0], line, geo) + CodeMessages(records[1..], line + 1, geo)
  }

  /** The code loop reports record by record: the messages for two runs of
      records are those of the first run followed by those of the second,
      whose lines continue at `next`, where the first run's stop. */
  lemma {:induction false} CodeMessagesAppend(a: seq<Row>, b: seq<Row>, line: nat, next: nat, geo: seq<GeoEntry>)
    requires next == line + |a|
    requires forall k :: 0 <= k < |a| ==> HasCodeFields(a[k])
    requires forall k :: 0 <= k < |b| ==> HasCodeFields(b[k])
    ensures forall k :: 0 <= k < |a + b| ==> HasCodeFields((a + b)[k])
    ensures CodeMessages(a + b, line, geo) == CodeMessages(a, line, geo) + CodeMessages(b, next, geo)
    decreases |a|
  {
    if |a| == 0 {
      assert a + b == b by { EmptyAppend(a, b); }
      assert CodeMessages(a, line, geo) == [];
      EmptyAppend(CodeMessages(a, line, geo), CodeMessages(b, line, geo));
    } else {
      CodeMessagesAppend(a[1..], b, line + 1, next, geo);
      CodeMessagesStep(a, b, line, geo, CodeMessages(b, next, geo));
    }
  }

  /** The inductive step of `CodeMessagesAppend`, given its claim for `a[1..]`,
      whose messages for `b` are `z`. */
  lemma CodeMessagesStep(a: seq<Row>, b: seq<Row>, line: nat, geo: seq<GeoEntry>, z: seq<Message>)
    requires |a| > 0
    requires forall k :: 0 <= k < |a| ==> HasCodeFields(a[k])
    requires forall k :: 0 <= k < |b| ==> HasCodeFields(b[k])
    requires CodeMessages(a[1..] + b, line + 1, geo) == CodeMessages(a[1..], line + 1, geo) + z
    ensures CodeMessages(a + b, line, geo) == CodeMessages(a, line, geo) + z
  {
    CodeFieldsAppend(a, b);
    var x := RowCodeMessages(a[0], line, geo);
    var y := CodeMessages(a[1..], line + 1, geo);
    assert CodeMessages(a + b, line, geo) == x + CodeMessages(a[1..] + b, line + 1, geo) by {
      HeadOfAppend(a, b);
      CodeMessagesUnfold(a + b, line, geo);
    }
    assert CodeMessages(a, line, geo) == x + y by {
      CodeMessagesUnfold(a, line, geo);
    }
    Regroup(x, y, z);
  }

  lemma CodeFieldsAppend(a: seq<Row>, b: seq<Row>)
    requires |a| > 0
    requires forall k :: 0 <= k < |a| ==> HasCodeFields(a[k])
    requires forall k :: 0 <= k < |b| ==> HasCodeFields(b[k])
    ensures HasCodeFields(a[0])
    ensures forall k :: 0 <= k < |a + b| ==> HasCodeFields((a + b)[k])
    ensures forall k :: 0 <= k < |a[1..]| ==> HasCodeFields(a[1..][k])
    ensures forall k :: 0 <= k < |a[1..] + b| ==> HasCodeFields((a[1..] + b)[k])
  {
  }

  lemma CodeMessagesUnfold(records: seq<Row>, line: nat, geo: seq<GeoEntry>)
    requires |records| > 0
    requires forall k :: 0 <= k < |records| ==> HasCodeFields(records[k])
    ensures forall k :: 0 <= k < |records[1..]| ==> HasCodeFields(records[1..][k])
    ensures CodeMessages(records, line, geo)
         == RowCodeMessages(records[0], line, geo) + CodeMessages(records[1..], line + 1, geo)
  {
  }

  /** One record's code messages: its `Location` field's, then its
      `Influences` field's, on its own line. */
  lemma CodeMessagesOne(row: Row, line: nat, geo: seq<GeoEntry>)
    requires HasCodeFields(row)
    ensures CodeMessages([row], line, geo)
         == ValidateCodes(row["Location"], line, geo) + ValidateCodes(row["Influences"], line, geo)
  {
    assert [row][1..] == [];
  }

  /** Messages that carry a line number. */
  predicate Lined(ms: seq<Message>) {
    forall m :: m in ms ==> m.DateMessage? || m.InvalidCode?
  }

  predicate InLineOrder(ms: seq<Message>)
    requires Lined(ms)
  {
    forall i, j :: 0 <= i < j < |ms| ==> ms[i].line <= ms[j].line
  }

  lemma ConcatInLineOrder(head: seq<Message>, rest: seq<Message>, line: nat)
    requires forall m :: m in head ==> (m.DateMessage? || m.InvalidCode?) && m.line == line
    requires Lined(rest) && InLineOrder(rest)
    requires forall m :: m in rest ==> m.line > line
    ensures Lined(head + rest) && InLineOrder(head + rest)
  {
    var r := head + rest;
    assert forall i :: 0 <= i < |head| ==> r[i] == head[i] && head[i] in head;
    assert forall j :: |head| <= j < |r| ==> r[j] == rest[j - |head|] && rest[j - |head|] in rest;
  }

  /** The code messages come out record by record, in line order. */
  lemma {:induction false} CodeMessagesInLineOrder(records: seq<Row>, line: nat, geo: seq<GeoEntry>)
    requires forall k :: 0 <= k < |records| ==> HasCodeFields(records[k])
    ensures Lined(CodeMessages(records, line, geo))
    ensures InLineOrder(CodeMessages(records, line, geo))
  {
    if |records| > 0 {
      CodeMessagesInLineOrder(records[1..], line + 1, geo);
      ConcatInLineOrder(RowCodeMessages(records[0], line, geo), CodeMessages(records[1..], line + 1, geo), line);
    }
  }

  /** Rewriting a record twice is rewriting it once, when the field
      rewrite is idempotent. */
  lemma NormaliseRowIdempotent(row: Row, rewrite: string -> string)
    requires HasCodeFields(row)
    requires forall raw :: rewrite(rewrite(raw)) == rewrite(raw)
    ensures NormaliseRow(NormaliseRow(row, rewrite), rewrite) == NormaliseRow(row, rewrite)
  {
    var once := NormaliseRow(row, rewrite);
    var twice := NormaliseRow(once, rewrite);
    assert twice["Location"] == once["Location"];
    assert twice["Influences"] == once["Influences"];
    assert forall k :: k in once ==> twice[k] == once[k];
  }

  // ---------------------------------------------------------------------
  // The whole table

  /** The table can be checked without a property read on `undefined`: once
      the first record has every column, every later record has the two
      fields the rewrite reads. */
  predicate Checkable(rows: seq<Row>) {
    |rows| > 0 && HasAllColumns(rows[0]) ==> forall k :: 1 <= k < |rows| ==> HasCodeFields(rows[k])
  }

  lemma NoMissingColumns(row: Row)
    ensures MissingColumns(row) == [] <==> HasAllColumns(row)
  {
    var missing := MissingColumns(row);
    if missing != [] {
      assert missing[0] in missing;
    } else {
      forall c | c in NeededColumns ensures c in row {
        assert MissingColumn(c) !in missing;
      }
    }
  }

  /** The report of the date loop over the original `records` and the code
      loop over the `rewritten` ones, date messages first. */
  function RecordsReport(records: seq<Row>, rewritten: seq<Row>, geo: seq<GeoEntry>): (r: Report)
    requires forall k :: 0 <= k < |rewritten| ==> HasCodeFields(rewritten[k])
    ensures r.Invalid? ==> r.messages != []
  {
    var messages := DateMessages(records, FirstCheckedLine) + CodeMessages(rewritten, FirstCheckedLine, geo);
    if messages == [] then Valid else Invalid(messages)
  }

  /** The records pass exactly when no record has a date problem and no
      rewritten record holds a flagged token. */
  lemma RecordsReportValid(records: seq<Row>, rewritten: seq<Row>, geo: seq<GeoEntry>)
    requires forall k :: 0 <= k < |rewritten| ==> HasCodeFields(rewritten[k])
    ensures RecordsReport(records, rewritten, geo).Valid? <==>
              (forall k :: 0 <= k < |records| ==> DatesOk(records[k]))
              && (forall k :: 0 <= k < |rewritten| ==> CodesOk(rewritten[k], geo))
  {
    AllCodesOkMeans(rewritten, geo);
  }

  /** Every reported line is that of one of the records, counting from line
      3, and every date message comes before every code message. */
  lemma RecordsReportLines(records: seq<Row>, rewritten: seq<Row>, geo: seq<GeoEntry>)
    requires forall k :: 0 <= k < |rewritten| ==> HasCodeFields(rewritten[k])
    requires |records| == |rewritten|
    requires RecordsReport(records, rewritten, geo).Invalid?
    ensures forall m :: m in RecordsReport(records, rewritten, geo).messages ==>
              (m.DateMessage? || m.InvalidCode?) && FirstCheckedLine <= m.line < FirstCheckedLine + |records|
    ensures forall i, j :: 0 <= i < j < |RecordsReport(records, rewritten, geo).messages| ==>
              !(RecordsReport(records, rewritten, geo).messages[i].InvalidCode?
                && RecordsReport(records, rewritten, geo).messages[j].DateMessage?)
  {
    var dates := DateMessages(records, FirstCheckedLine);
    var codes := CodeMessages(rewritten, FirstCheckedLine, geo);
    assert RecordsReport(records, rewritten, geo).messages == dates + codes;
    DatesThenCodes(dates, codes, FirstCheckedLine, FirstCheckedLine + |records|);
  }

  /** Date messages followed by code messages, all within lines `lo..hi`. */
  lemma DatesThenCodes(dates: seq<Message>, codes: seq<Message>, lo: nat, hi: nat)
    requires forall m :: m in dates ==> m.DateMessage? && lo <= m.line < hi
    requires forall m :: m in codes ==> m.InvalidCode? && lo <= m.line < hi
    ensures forall m :: m in dates + codes ==> (m.DateMessage? || m.InvalidCode?) && lo <= m.line < hi
    ensures forall i, j :: 0 <= i < j < |dates + codes| ==>
              !((dates + codes)[i].InvalidCode? && (dates + codes)[j].DateMessage?)
  {
    var ms := dates + codes;
    forall i, j | 0 <= i < j < |ms| ensures !(ms[i].InvalidCode? && ms[j].DateMessage?) {
      if i < |dates| {
        assert ms[i] == dates[i] && dates[i] in dates;
      } else {
        assert ms[j] == codes[j - |dates|] && codes[j - |dates|] in codes;
      }
    }
  }

  /** `validateData(rawEvents, map)` with the field rewrite as a parameter.
      The first record only supplies the column names: its dates and codes
      are never checked or rewritten. */
  function ValidateWith(rows: seq<Row>, rewrite: string -> string, geo: seq<GeoEntry>): (r: Outcome)
    requires Checkable(rows)
    ensures |rows| == 0 ==> r == Outcome(Invalid([NoEvents]), rows)
    ensures |r.rows| == |rows|
    ensures r.report.Invalid? ==> r.report.messages != []
  {
    if |rows| == 0 then Outcome(Invalid([NoEvents]), rows)
    else
      var missing := MissingColumns(rows[0]);
      if missing != [] then Outcome(Invalid(missing), rows)
      else
        NoMissingColumns(rows[0]);
        var records := rows[1..];
        assert forall k :: 0 <= k < |records| ==> records[k] == rows[k + 1];
        var rewritten := NormaliseRows(records, rewrite);
        Outcome(RecordsReport(records, rewritten, geo), [rows[0]] + rewritten)
  }

  /** With every column present: the first record is kept, every later one
      is rewritten, and the report is that of the original records' dates
      and the rewritten records' codes. */
  lemma ValidateWithChecks(rows: seq<Row>, rewrite: string -> string, geo: seq<GeoEntry>)
    requires Checkable(rows)
    requires |rows| > 0 && HasAllColumns(rows[0])
    ensures ValidateWith(rows, rewrite, geo).rows[0] == rows[0]
    ensures forall k :: 1 <= k < |rows| ==>
              HasCodeFields(rows[k]) && ValidateWith(rows, rewrite, geo).rows[k] == NormaliseRow(rows[k], rewrite)
    ensures forall k :: 1 <= k < |rows| ==> HasCodeFields(ValidateWith(rows, rewrite, geo).rows[k])
    ensures ValidateWith(rows, rewrite, geo).report
         == RecordsReport(rows[1..], ValidateWith(rows, rewrite, geo).rows[1..], geo)
  {
    NoMissingColumns(rows[0]);
    var records := rows[1..];
    assert forall k :: 0 <= k < |records| ==> records[k] == rows[k + 1];
    var rewritten := NormaliseRows(records, rewrite);
    var newRows := [rows[0]] + rewritten;
    assert ValidateWith(rows, rewrite, geo).rows == newRows;
    Cons(rows[0], rewritten);
  }

  /** The parts of a sequence with one element put in front. */
  lemma Cons<T>(x: T, xs: seq<T>)
    ensures ([x] + xs)[0] == x && ([x] + xs)[1..] == xs
    ensures forall k :: 1 <= k <= |xs| ==> ([x] + xs)[k] == xs[k - 1]
  {
  }

  /** Any missing column stops the validator: the report lists exactly the
      missing needed columns and no record is rewritten. */
  lemma ValidateWithMissingColumns(rows: seq<Row>, rewrite: string -> string, geo: seq<GeoEntry>)
    requires Checkable(rows)
    requires |rows| > 0 && !HasAllColumns(rows[0])
    ensures ValidateWith(rows, rewrite, geo).rows == rows
    ensures ValidateWith(rows, rewrite, geo).report.Invalid?
    ensures forall m :: m in ValidateWith(rows, rewrite, geo).report.messages <==>
              m.MissingColumn? && m.column in NeededColumns && m.column !in rows[0]
    ensures ValidateWith(rows, rewrite, geo).report.messages == MissingFrom(NeededColumns, rows[0])
  {
    NoMissingColumns(rows[0]);
  }

  /** The table is valid exactly when it has a record with every column, no
      later record has a date problem, and no rewritten field of a later
      record holds a flagged token. */
  lemma ValidateWithValid(rows: seq<Row>, rewrite: string -> string, geo: seq<GeoEntry>)
    requires Checkable(rows)
    ensures ValidateWith(rows, rewrite, geo).report.Valid? <==>
              |rows| > 0 && HasAllColumns(rows[0])
              && forall k :: 1 <= k < |rows| ==>
                   DatesOk(rows[k]) && HasCodeFields(ValidateWith(rows, rewrite, geo).rows[k])
                   && CodesOk(ValidateWith(rows, rewrite, geo).rows[k], geo)
  {
    if |rows| > 0 {
      NoMissingColumns(rows[0]);
      if HasAllColumns(rows[0]) {
        var out := ValidateWith(rows, rewrite, geo);
        ValidateWithChecks(rows, rewrite, geo);
        var records := rows[1..];
        var rewritten := out.rows[1..];
        RecordsReportValid(records, rewritten, geo);
        ChecksShifted(rows, out.rows, geo);
      }
    }
  }

  /** The checks of the records after the first, indexed from the table or
      from the records. */
  lemma ChecksShifted(rows: seq<Row>, out: seq<Row>, geo: seq<GeoEntry>)
    requires |rows| == |out| > 0
    requires forall k :: 1 <= k < |out| ==> HasCodeFields(out[k])
    ensures forall k :: 0 <= k < |out[1..]| ==> HasCodeFields(out[1..][k])
    ensures ((forall k :: 0 <= k < |rows[1..]| ==> DatesOk(rows[1..][k]))
             && (forall k :: 0 <= k < |out[1..]| ==> CodesOk(out[1..][k], geo)))
        <==> forall k :: 1 <= k < |rows| ==> DatesOk(rows[k]) && CodesOk(out[k], geo)
  {
    forall k | 0 <= k < |out[1..]| ensures HasCodeFields(out[1..][k]) {
      assert out[1..][k] == out[k + 1];
    }
    if (forall k :: 0 <= k < |rows[1..]| ==> DatesOk(rows[1..][k]))
       && (forall k :: 0 <= k < |out[1..]| ==> CodesOk(out[1..][k], geo))
    {
      forall k | 1 <= k < |rows| ensures DatesOk(rows[k]) && CodesOk(out[k], geo) {
        assert rows[k] == rows[1..][k - 1] && out[k] == out[1..][k - 1];
      }
    }
    if forall k :: 1 <= k < |rows| ==> DatesOk(rows[k]) && CodesOk(out[k], geo) {
      forall j | 0 <= j < |rows| - 1 ensures DatesOk(rows[1..][j]) && CodesOk(out[1..][j], geo) {
        assert rows[1..][j] == rows[j + 1] && out[1..][j] == out[j + 1];
        assert DatesOk(rows[j + 1]) && CodesOk(out[j + 1], geo);
      }
    }
  }

  /** Every line number reported is that of a record after the first, and
      every date message comes before every code message. */
  lemma ValidateWithLines(rows: seq<Row>, rewrite: string -> string, geo: seq<GeoEntry>)
    requires Checkable(rows)
    requires ValidateWith(rows, rewrite, geo).report.Invalid?
    ensures forall m :: m in ValidateWith(rows, rewrite, geo).report.messages && !m.MissingColumn? && !m.NoEvents? ==>
              FirstCheckedLine <= m.line <= |rows| + 1
    ensures forall i, j :: 0 <= i < j < |ValidateWith(rows, rewrite, geo).report.messages| ==>
              !(ValidateWith(rows, rewrite, geo).report.messages[i].InvalidCode?
                && ValidateWith(rows, rewrite, geo).report.messages[j].DateMessage?)
  {
    if |rows| > 0 {
      NoMissingColumns(rows[0]);
      if HasAllColumns(rows[0]) {
        ValidateWithChecks(rows, rewrite, geo);
        RecordsReportLines(rows[1..], ValidateWith(rows, rewrite, geo).rows[1..], geo);
      }
    }
  }

  /** Record 0 is skipped: replacing it by any record with the same needed
      columns changes nothing in the report. */
  lemma FirstRecordSkipped(rows: seq<Row>, other: Row, rewrite: string -> string, geo: seq<GeoEntry>)
    requires |rows| > 0 && Checkable(rows)
    requires forall c :: c in NeededColumns ==> (c in rows[0] <==> c in other)
    ensures Checkable([other] + rows[1..])
    ensures ValidateWith([other] + rows[1..], rewrite, geo).report == ValidateWith(rows, rewrite, geo).report
  {
    var rows2 := [other] + rows[1..];
    assert rows2[1..] == rows[1..];
    MissingFromSameColumns(NeededColumns, rows[0], other);
  }

  /** Rewriting already rewritten records changes nothing, and the
      rewrite leaves their dates alone. */
  lemma RewriteStable(records: seq<Row>, rewrite: string -> string, line: nat)
    requires forall k :: 0 <= k < |records| ==> HasCodeFields(records[k])
    requires forall raw :: rewrite(rewrite(raw)) == rewrite(raw)
    ensures forall k :: 0 <= k < |records| ==> HasCodeFields(NormaliseRows(records, rewrite)[k])
    ensures NormaliseRows(NormaliseRows(records, rewrite), rewrite) == NormaliseRows(records, rewrite)
    ensures DateMessages(NormaliseRows(records, rewrite), line) == DateMessages(records, line)
  {
    var rewritten := NormaliseRows(records, rewrite);
    forall k | 0 <= k < |records|
      ensures NormaliseRow(rewritten[k], rewrite) == rewritten[k]
      ensures Get(rewritten[k], "StartDate") == Get(records[k], "StartDate")
      ensures Get(rewritten[k], "EndDate") == Get(records[k], "EndDate")
    {
      NormaliseRowIdempotent(records[k], rewrite);
    }
    DateMessagesSameDates(rewritten, records, line);
  }

  /** Validating the rewritten table again gives the same report and leaves
      the records as they are, when the field rewrite is idempotent. */
  lemma ValidateWithIdempotent(rows: seq<Row>, rewrite: string -> string, geo: seq<GeoEntry>)
    requires Checkable(rows)
    requires forall raw :: rewrite(rewrite(raw)) == rewrite(raw)
    ensures Checkable(ValidateWith(rows, rewrite, geo).rows)
    ensures ValidateWith(ValidateWith(rows, rewrite, geo).rows, rewrite, geo) == ValidateWith(rows, rewrite, geo)
  {
    if |rows| > 0 {
      NoMissingColumns(rows[0]);
      if HasAllColumns(rows[0]) {
        var records := rows[1..];
        assert forall k :: 0 <= k < |records| ==> records[k] == rows[k + 1];
        var rewritten := NormaliseRows(records, rewrite);
        RewriteStable(records, rewrite, FirstCheckedLine);
        var once := [rows[0]] + rewritten;
        assert ValidateWith(rows, rewrite, geo) == Outcome(RecordsReport(records, rewritten, geo), once);
        Cons(rows[0], rewritten);
        assert ValidateWith(once, rewrite, geo) == Outcome(RecordsReport(rewritten, rewritten, geo), once);
      }
    }
  }

  /** `validateData(rawEvents, map)`: validation with the validator's own
      rewrite of `Location` and `Influences`. */
  function ValidateData(rows: seq<Row>, geo: seq<GeoEntry>): (r: Outcome)
    requires Checkable(rows)
    ensures |rows| == 0 ==> r == Outcome(Invalid([NoEvents]), rows)
    ensures |r.rows| == |rows|
    ensures r.report.Invalid? ==> r.report.messages != []
  {
    ValidateWith(rows, Rewrite(geo), geo)
  }

  /** Validating the table the validator has rewritten gives the same
      outcome again, when the map's country ids are canonical codes. */
  lemma ValidateDataIdempotent(rows: seq<Row>, geo: seq<GeoEntry>)
    requires Checkable(rows)
    requires forall i :: 0 <= i < |CountryIds(geo)| ==> IsCanonical(CountryIds(geo)[i])
    ensures Checkable(ValidateData(rows, geo).rows)
    ensures ValidateData(ValidateData(rows, geo).rows, geo) == ValidateData(rows, geo)
  {
    RewriteIdempotent(geo);
    ValidateWithIdempotent(rows, Rewrite(geo), geo);
  }
}
