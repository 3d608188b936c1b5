/**
  `POST /upload`: a CSV roster is split into lines and cells, each data row
  is validated, and the row's student is either created with the uploader's
  marker or given that marker, while `created`, `updated` and the per-row
  `errors` are tallied.

  The specification of the loop is `RunRows`, a fold of `Step` over the data
  lines; `Post` runs the loop against a `StudentTable` and is proved to end in
  the state and response `RunRows` describes.
*/
module Upload {
  import opened Wrappers
  import opened Text
  import opened Students

  /** The response: status 400 with an error text, or the tallies. */
  datatype Response =
    | BadRequest(error: string)
    | Success(created: nat, updated: nat, errors: seq<string>)

  const MissingInput: string := "File and marker are required"
  const NoDataRows: string := "CSV file must contain data rows"
  const InvalidFormat: string := "Invalid format"
  const MissingEmailOrName: string := "Missing email or name"

  // ---------------------------------------------------------------------
  // Lines and cells
  // ---------------------------------------------------------------------

  /** `.filter((line) => line.trim())`: the lines that are not all whitespace, in order. */
  function NonBlank(lines: seq<string>): (r: seq<string>)
    ensures |r| <= |lines|
  {
    if lines == [] then []
    else (if Trim(lines[0]) != "" then [lines[0]] else []) + NonBlank(lines[1..])
  }

  /** The filter keeps exactly the lines that are not all whitespace. */
  lemma {:induction false} NonBlankMembers(lines: seq<string>)
    ensures forall l :: l in NonBlank(lines) <==> l in lines && !AllWhitespace(l)
  {
    if lines != [] {
      var rest := lines[1..];
      NonBlankMembers(rest);
      assert (Trim(lines[0]) != "") == !AllWhitespace(lines[0]);
      forall l ensures l in NonBlank(lines) <==> l in lines && !AllWhitespace(l) {
        assert l in lines <==> l == lines[0] || l in rest;
      }
    }
  }

  /** The filter works line by line: filtering a concatenation filters each
      part, so the kept lines stay in order with their repetitions. */
  lemma {:induction false} NonBlankAppend(a: seq<string>, b: seq<string>)
    ensures NonBlank(a + b) == NonBlank(a) + NonBlank(b)
  {
    if a != [] {
      NonBlankAppend(a[1..], b);
      ConsAppend(a, b);
      NonBlankFirst(a);
      NonBlankFirst(a + b);
    } else {
      assert a + b == b;
    }
  }

  /** The filter's first step, as a concatenation. */
  lemma NonBlankFirst(ls: seq<string>)
    requires ls != []
    ensures NonBlank(ls) == NonBlank([ls[0]]) + NonBlank(ls[1..])
  {
    NonBlankSingle(ls[0]);
  }

  lemma NonBlankSingle(l: string)
    ensures NonBlank([l]) == if Trim(l) != "" then [l] else []
  {
    assert [l][1..] == [];
  }

  lemma ConsAppend(a: seq<string>, b: seq<string>)
    requires a != []
    ensures (a + b)[0] == a[0] && (a + b)[1..] == a[1..] + b
  {
  }

  /** `text.split("\n").filter((line) => line.trim())`: the newline-separated
      pieces of the text that are not all whitespace. */
  function Lines(text: string): (lines: seq<string>)
    ensures |lines| <= CountChar(text, '\n') + 1
    ensures forall l :: l in lines ==> '\n' !in l && !AllWhitespace(l)
  {
    NonBlankMembers(Split(text, '\n'));
    NonBlank(Split(text, '\n'))
  }

  /** `cell.trim().replace(/"/g, "")`. */
  function CleanCell(piece: string): (cell: string)
    ensures '"' !in cell
    ensures forall c :: c in cell ==> c in piece
  {
    RemoveAll(Trim(piece), '"')
  }

  /** `line.split(",").map(...)`: one cleaned cell per comma-separated piece. */
  function Cells(line: string): (row: seq<string>)
    ensures |row| == CountChar(line, ',') + 1
    ensures forall k :: 0 <= k < |row| ==> '"' !in row[k] && ',' !in row[k]
  {
    var pieces := Split(line, ',');
    seq(|pieces|, k requires 0 <= k < |pieces| => CleanCell(pieces[k]))
  }

  /** The lines kept are exactly the newline-separated pieces of the text
      that are not all whitespace. */
  lemma LinesMembers(text: string)
    ensures forall l :: l in Lines(text) <==> l in Split(text, '\n') && !AllWhitespace(l)
  {
    NonBlankMembers(Split(text, '\n'));
  }

  /** A cell is empty exactly when its trimmed piece is made of quotes only,
      and it is the trimmed piece itself when that holds no quote. */
  lemma CleanCellEmpty(piece: string)
    ensures CleanCell(piece) == [] <==> CountChar(Trim(piece), '"') == |Trim(piece)|
    ensures '"' !in Trim(piece) ==> CleanCell(piece) == Trim(piece)
  {
    var t := Trim(piece);
    assert |RemoveAll(t, '"')| == |t| - CountChar(t, '"');
  }

  /** In terms of the raw line: a line with a comma is rejected for a missing
      field exactly when its first or its second piece cleans to nothing. */
  lemma MissingFieldOfLine(line: string)
    ensures ParseRow(line) == MissingField <==>
      ',' in line && (CleanCell(Split(line, ',')[0]) == "" || CleanCell(Split(line, ',')[1]) == "")
  {
    ParseRowCases(line);
    CellsPieces(line);
  }

  /** Cell `k` of a line is piece `k` of its comma split, cleaned. */
  lemma CellsPieces(line: string)
    ensures |Cells(line)| == |Split(line, ',')|
    ensures forall k :: 0 <= k < |Cells(line)| ==> Cells(line)[k] == CleanCell(Split(line, ',')[k])
  {
  }

  /** How a data line is judged before the collection is consulted. */
  datatype RowParse =
    | BadFormat
    | MissingField
    | Row(emailId: string, studentName: string)

  function ParseRow(line: string): RowParse
  {
    var row := Cells(line);
    if |row| < 2 then BadFormat
    else if row[0] == "" || row[1] == "" then MissingField
    else Row(row[0], row[1])
  }

  /** `Row ${i + 2}: <reason>` for the data line at index `i`. */
  function RowMessage(i: nat, reason: string): string
  {
    "Row " + NatToString(i + 2) + ": " + reason
  }

  /** A data line is rejected as badly formatted exactly when it has no comma;
      otherwise it is rejected for a missing field exactly when its first or
      second cell is empty, and accepted with those two cells otherwise. */
  lemma ParseRowCases(line: string)
    ensures ParseRow(line) == BadFormat <==> ',' !in line
    ensures ParseRow(line) == MissingField <==> ',' in line && (Cells(line)[0] == "" || Cells(line)[1] == "")
    ensures ParseRow(line).Row? ==> ParseRow(line).emailId != "" && ParseRow(line).studentName != ""
    ensures ParseRow(line).Row? ==> ',' !in ParseRow(line).emailId && '"' !in ParseRow(line).emailId
  {
  }

  /** A cell value that survives the round trip through a CSV line: no comma,
      no double quote, and no whitespace at either end. */
  predicate PlainCell(x: string)
  {
    ',' !in x && '"' !in x && (x == [] || (!IsWhitespace(x[0]) && !IsWhitespace(x[|x| - 1])))
  }

  lemma CleanCellPlain(x: string)
    requires PlainCell(x)
    ensures CleanCell(x) == x
  {
    TrimTrimmed(x);
  }

  /** Reading back a line written as plain cells joined by commas gives the
      cells. */
  lemma CellsJoin(xs: seq<string>)
    requires |xs| >= 1
    requires forall k :: 0 <= k < |xs| ==> PlainCell(xs[k])
    ensures Cells(Join(xs, ",")) == xs
  {
    SplitJoin(xs, ',');
    forall k | 0 <= k < |xs| ensures CleanCell(xs[k]) == xs[k] {
      CleanCellPlain(xs[k]);
    }
  }

  /** A line `email,name` made of two non-empty plain cells is a valid row
      with exactly that email and name. */
  lemma ParseRowOfCells(emailId: string, studentName: string)
    requires PlainCell(emailId) && PlainCell(studentName) && emailId != "" && studentName != ""
    ensures ParseRow(emailId + "," + studentName) == Row(emailId, studentName)
  {
    assert Join([emailId, studentName], ",") == emailId + "," + studentName;
    CellsJoin([emailId, studentName]);
  }

  // ---------------------------------------------------------------------
  // The loop, as a fold over the data lines
  // ---------------------------------------------------------------------

  /** The collection and the `results` object part-way through the loop. */
  datatype Tally = Tally(records: seq<Student>, created: nat, updated: nat, errors: seq<string>)

  /** Rows accounted for so far. */
  function Processed(t: Tally): nat
  {
    t.created + t.updated + |t.errors|
  }

  /** The record with this email (the first in storage order) carries `m`. */
  predicate HasMarkerFor(rs: seq<Student>, email: string, m: string)
  {
    FindByEmail(rs, email).Some? && m in FindByEmail(rs, email).value.markers
  }

  /** One iteration of the loop body, for the data line at index `i`. */
  function Step(t: Tally, i: nat, line: string, marker: string): Tally
  {
    match ParseRow(line)
    case BadFormat => t.(errors := t.errors + [RowMessage(i, InvalidFormat)])
    case MissingField => t.(errors := t.errors + [RowMessage(i, MissingEmailOrName)])
    case Row(emailId, studentName) => Register(t, emailId, studentName, marker)
  }

  /** The part of the loop body after a row has parsed: the student found by
      email gains the marker if it lacks it, or a new student is created. */
  function Register(t: Tally, emailId: string, studentName: string, marker: string): Tally
  {
    match FindByEmail(t.records, emailId)
    case Some(existing) =>
      if marker !in existing.markers then
        t.(records := WithMarker(t.records, emailId, marker), updated := t.updated + 1)
      else t
    case None =>
      t.(records := WithStudent(t.records, emailId, studentName, marker), created := t.created + 1)
  }

  /** The loop over `dataLines`, starting from the collection `rs`. */
  function RunRows(rs: seq<Student>, dataLines: seq<string>, marker: string): Tally
  {
    if dataLines == [] then Tally(rs, 0, 0, [])
    else
      var n := |dataLines| - 1;
      Step(RunRows(rs, dataLines[..n], marker), n, dataLines[n], marker)
  }

  // ---------------------------------------------------------------------
  // The route
  // ---------------------------------------------------------------------

  /** `POST /upload` with the form's `file` (its text) and `marker` fields. */
  method Post(table: StudentTable, file: Option<string>, marker: Option<string>) returns (response: Response)
    requires table.Valid()
    modifies table
    ensures table.Valid()
    ensures file.None? || marker.None? || marker.value == "" ==>
      response == BadRequest(MissingInput) && table.records == old(table.records)
    ensures file.Some? && marker.Some? && marker.value != "" && |Lines(file.value)| <= 1 ==>
      response == BadRequest(NoDataRows) && table.records == old(table.records)
    ensures file.Some? && marker.Some? && marker.value != "" && |Lines(file.value)| > 1 ==>
      var t := RunRows(old(table.records), Lines(file.value)[1..], marker.value);
      response == Success(t.created, t.updated, t.errors) && table.records == t.records
  {
    if file.None? || marker.None? || marker.value == "" {
      return BadRequest(MissingInput);
    }
    var m := marker.value;
    var lines := Lines(file.value);
    if |lines| <= 1 {
      return BadRequest(NoDataRows);
    }
    var created, updated, errors := ProcessRows(table, lines[1..], m);
    response := Success(created, updated, errors);
  }

  /** The loop over the data lines: it ends in the collection and tallies
      that `RunRows` describes. */
  method ProcessRows(table: StudentTable, dataLines: seq<string>, m: string)
    returns (created: nat, updated: nat, errors: seq<string>)
    requires table.Valid()
    modifies table
    ensures table.Valid()
    ensures Tally(table.records, created, updated, errors) == RunRows(old(table.records), dataLines, m)
  {
    ghost var rs := table.records;
    created, updated, errors := 0, 0, [];
    for i := 0 to |dataLines|
      invariant table.Valid()
      invariant RunRows(rs, dataLines[..i], m) == Tally(table.records, created, updated, errors)
    {
      RunRowsExtend(rs, dataLines, i, m);
      created, updated, errors := ProcessRow(table, i, dataLines[i], m, created, updated, errors);
    }
    assert dataLines[..|dataLines|] == dataLines;
  }

  /** One more data line is one more `Step`. */
  lemma RunRowsExtend(rs: seq<Student>, dataLines: seq<string>, i: nat, m: string)
    requires i < |dataLines|
    ensures RunRows(rs, dataLines[..i + 1], m) == Step(RunRows(rs, dataLines[..i], m), i, dataLines[i], m)
  {
    assert dataLines[..i + 1][..i] == dataLines[..i];
  }

  /** The body of the loop for the data line at index `i`: the tallies and
      the collection move as `Step` says. */
  method ProcessRow(table: StudentTable, i: nat, line: string, m: string, created: nat, updated: nat, errors: seq<string>)
    returns (created': nat, updated': nat, errors': seq<string>)
    requires table.Valid()
    modifies table
    ensures table.Valid()
    ensures Tally(table.records, created', updated', errors') == Step(Tally(old(table.records), created, updated, errors), i, line, m)
  {
    created', updated', errors' := created, updated, errors;
    match ParseRow(line)
    case BadFormat =>
      errors' := errors + [RowMessage(i, InvalidFormat)];
    case MissingField =>
      errors' := errors + [RowMessage(i, MissingEmailOrName)];
    case Row(emailId, studentName) =>
      created', updated' := RegisterRow(table, emailId, studentName, m, created, updated, errors);
  }

  /** The part of the loop body after a row has parsed: the tallies and the
      collection move as `Register` says. */
  method RegisterRow(table: StudentTable, emailId: string, studentName: string, m: string, created: nat, updated: nat, ghost errors: seq<string>)
    returns (created': nat, updated': nat)
    requires table.Valid()
    modifies table
    ensures table.Valid()
    ensures Tally(table.records, created', updated', errors) == Register(Tally(old(table.records), created, updated, errors), emailId, studentName, m)
  {
    created', updated' := created, updated;
    var existing := FindByEmail(table.records, emailId);
    if existing.Some? {
      if m !in existing.value.markers {
        table.AddMarker(emailId, m);
        updated' := updated + 1;
      }
    } else {
      table.AddStudent(emailId, studentName, m);
      created' := created + 1;
    }
  }

  // ---------------------------------------------------------------------
  // Properties of one row
  // ---------------------------------------------------------------------

  /** A row moves at most one of the tallies, by one; it moves none exactly
      when it is a valid row whose student already carries the marker, and
      then nothing at all changes. */
  lemma StepAccounting(t: Tally, i: nat, line: string, m: string)
    ensures Step(t, i, line, m).created >= t.created && Step(t, i, line, m).updated >= t.updated
    ensures Step(t, i, line, m).errors[..|t.errors|] == t.errors
    ensures Processed(Step(t, i, line, m)) == Processed(t) + 1 || Step(t, i, line, m) == t
    ensures Step(t, i, line, m) == t <==> ParseRow(line).Row? && HasMarkerFor(t.records, ParseRow(line).emailId, m)
  {
    var t' := Step(t, i, line, m);
    match ParseRow(line)
    case BadFormat =>
      assert |t'.errors| == |t.errors| + 1;
    case MissingField =>
      assert |t'.errors| == |t.errors| + 1;
    case Row(emailId, studentName) =>
      assert t' == Register(t, emailId, studentName, m);
      RegisterAccounting(t, emailId, studentName, m);
  }

  /** A parsed row moves exactly one of `created` and `updated`, by one,
      unless its student already carries the marker, and then nothing changes. */
  lemma RegisterAccounting(t: Tally, emailId: string, studentName: string, m: string)
    ensures Register(t, emailId, studentName, m).errors == t.errors
    ensures Register(t, emailId, studentName, m) == t <==> HasMarkerFor(t.records, emailId, m)
    ensures !HasMarkerFor(t.records, emailId, m) ==>
      Register(t, emailId, studentName, m).created + Register(t, emailId, studentName, m).updated
        == t.created + t.updated + 1
    ensures Register(t, emailId, studentName, m).created >= t.created
    ensures Register(t, emailId, studentName, m).updated >= t.updated
  {
    var t' := Register(t, emailId, studentName, m);
    match FindByEmail(t.records, emailId)
    case Some(existing) =>
      if m !in existing.markers {
        assert t'.updated == t.updated + 1;
      }
    case None =>
      assert t'.created == t.created + 1;
  }

  /** An invalid row leaves the collection and the counters alone and records
      one error naming the row's position, `i + 2`. */
  lemma InvalidRowRecordsError(t: Tally, i: nat, line: string, m: string)
    requires !ParseRow(line).Row?
    ensures Step(t, i, line, m).records == t.records
    ensures Step(t, i, line, m).created == t.created && Step(t, i, line, m).updated == t.updated
    ensures Step(t, i, line, m).errors == t.errors + [RowMessage(i, if ',' !in line then InvalidFormat else MissingEmailOrName)]
  {
    ParseRowCases(line);
  }

  /** A valid row for a student who lacks the marker gives that student the
      marker, counts it as updated, and changes no other record. */
  lemma ExistingStudentGetsMarker(t: Tally, i: nat, line: string, m: string)
    requires ParseRow(line).Row? && FindByEmail(t.records, ParseRow(line).emailId).Some?
    requires m !in FindByEmail(t.records, ParseRow(line).emailId).value.markers
    ensures HasMarkerFor(Step(t, i, line, m).records, ParseRow(line).emailId, m)
    ensures |Step(t, i, line, m).records| == |t.records|
    ensures forall j :: 0 <= j < |t.records| && t.records[j].emailId != ParseRow(line).emailId ==>
      Step(t, i, line, m).records[j] == t.records[j]
    ensures Step(t, i, line, m).updated == t.updated + 1 && Step(t, i, line, m).created == t.created
    ensures Step(t, i, line, m).errors == t.errors
  {
    var e := ParseRow(line).emailId;
    AddMarkerSpec(t.records, e, m);
  }

  /** A valid row with an email not yet in the collection appends exactly one
      record, whose only marker is the uploader's, and counts it as created. */
  lemma NewStudentCreated(t: Tally, i: nat, line: string, m: string)
    requires ParseRow(line).Row? && FindByEmail(t.records, ParseRow(line).emailId).None?
    ensures |Step(t, i, line, m).records| == |t.records| + 1
    ensures Step(t, i, line, m).records[..|t.records|] == t.records
    ensures FindByEmail(Step(t, i, line, m).records, ParseRow(line).emailId)
      == Some(Student(NextSlNo(t.records), ParseRow(line).emailId, ParseRow(line).studentName, [m]))
    ensures Step(t, i, line, m).created == t.created + 1 && Step(t, i, line, m).updated == t.updated
    ensures Step(t, i, line, m).errors == t.errors
  {
    var r := ParseRow(line);
    AddStudentSpec(t.records, r.emailId, r.studentName, m);
  }

  /** A row never takes a marker away: whatever email carried whatever marker
      before the row still does after it; and after it, a valid row's email
      carries the uploader's marker. */
  lemma StepKeepsMarkers(t: Tally, i: nat, line: string, m: string)
    ensures forall e, x :: HasMarkerFor(t.records, e, x) ==> HasMarkerFor(Step(t, i, line, m).records, e, x)
    ensures ParseRow(line).Row? ==> HasMarkerFor(Step(t, i, line, m).records, ParseRow(line).emailId, m)
  {
    match ParseRow(line)
    case BadFormat =>
    case MissingField =>
    case Row(email, name) =>
      match FindByEmail(t.records, email)
      case Some(existing) =>
        if m !in existing.markers {
          WithMarkerKeepsMarkers(t.records, email, m);
        }
      case None =>
        WithStudentKeepsMarkers(t.records, email, name, m);
  }

  /** Adding a marker to the record with `email` takes none away. */
  lemma WithMarkerKeepsMarkers(rs: seq<Student>, email: string, m: string)
    requires FindByEmail(rs, email).Some?
    ensures forall e, x :: HasMarkerFor(rs, e, x) ==> HasMarkerFor(WithMarker(rs, email, m), e, x)
    ensures HasMarkerFor(WithMarker(rs, email, m), email, m)
  {
    var rs' := WithMarker(rs, email, m);
    var existing := FindByEmail(rs, email).value;
    AddMarkerSpec(rs, email, m);
    forall e, x | HasMarkerFor(rs, e, x) ensures HasMarkerFor(rs', e, x) {
      assert IndexOfEmail(rs', e) == IndexOfEmail(rs, e) by {
        IndexOfEmailUpdate(rs, IndexOfEmail(rs, email).value, AddToSet(existing.markers, m), e);
      }
    }
  }

  /** Appending a new record takes no marker away from the existing ones. */
  lemma WithStudentKeepsMarkers(rs: seq<Student>, email: string, name: string, m: string)
    requires FindByEmail(rs, email).None?
    ensures forall e, x :: HasMarkerFor(rs, e, x) ==> HasMarkerFor(WithStudent(rs, email, name, m), e, x)
    ensures HasMarkerFor(WithStudent(rs, email, name, m), email, m)
  {
    var rs' := WithStudent(rs, email, name, m);
    AddStudentSpec(rs, email, name, m);
    forall e, x | HasMarkerFor(rs, e, x) ensures HasMarkerFor(rs', e, x) {
      IndexOfEmailAppend(rs, Student(NextSlNo(rs), email, name, [m]), e);
      assert rs'[IndexOfEmail(rs, e).value] == rs[IndexOfEmail(rs, e).value];
    }
  }

  // ---------------------------------------------------------------------
  // Properties of the whole loop
  // ---------------------------------------------------------------------

  /** Each data row moves at most one tally, so the tallies never add up to
      more than the number of data rows (they can add up to fewer: a row whose
      student already has the marker moves none). */
  lemma {:induction false} RunRowsAccounting(rs: seq<Student>, dataLines: seq<string>, m: string)
    ensures Processed(RunRows(rs, dataLines, m)) <= |dataLines|
    ensures |RunRows(rs, dataLines, m).errors| <= |dataLines|
  {
    if dataLines != [] {
      var n := |dataLines| - 1;
      RunRowsAccounting(rs, dataLines[..n], m);
      StepAccounting(RunRows(rs, dataLines[..n], m), n, dataLines[n], m);
    }
  }

  /** The error list depends on the lines alone, never on the collection. */
  lemma {:induction false} ErrorsIgnoreTable(rs1: seq<Student>, rs2: seq<Student>, dataLines: seq<string>, m: string)
    ensures RunRows(rs1, dataLines, m).errors == RunRows(rs2, dataLines, m).errors
  {
    if dataLines != [] {
      var n := |dataLines| - 1;
      ErrorsIgnoreTable(rs1, rs2, dataLines[..n], m);
      StepErrors(RunRows(rs1, dataLines[..n], m), n, dataLines[n], m);
      StepErrors(RunRows(rs2, dataLines[..n], m), n, dataLines[n], m);
    }
  }

  /** The error a row adds depends on the row alone. */
  lemma StepErrors(t: Tally, i: nat, line: string, m: string)
    ensures Step(t, i, line, m).errors == t.errors + match ParseRow(line)
      case BadFormat => [RowMessage(i, InvalidFormat)]
      case MissingField => [RowMessage(i, MissingEmailOrName)]
      case Row(_, _) => []
  {
    match ParseRow(line)
    case BadFormat =>
    case MissingField =>
    case Row(emailId, studentName) =>
      assert Step(t, i, line, m) == Register(t, emailId, studentName, m);
      RegisterKeepsErrors(t, emailId, studentName, m);
      assert t.errors + [] == t.errors;
  }

  /** A parsed row records no error. */
  lemma RegisterKeepsErrors(t: Tally, emailId: string, studentName: string, m: string)
    ensures Register(t, emailId, studentName, m).errors == t.errors
  {
  }

  /** The table invariant (positive, strictly increasing serial numbers and
      duplicate-free markers) survives any upload. */
  lemma {:induction false} RunRowsKeepsInvariant(rs: seq<Student>, dataLines: seq<string>, m: string)
    requires TableInvariant(rs)
    ensures TableInvariant(RunRows(rs, dataLines, m).records)
  {
    if dataLines != [] {
      var n := |dataLines| - 1;
      RunRowsKeepsInvariant(rs, dataLines[..n], m);
      var t := RunRows(rs, dataLines[..n], m);
      match ParseRow(dataLines[n])
      case BadFormat =>
      case MissingField =>
      case Row(email, name) =>
        AddMarkerSpec(t.records, email, m);
        AddStudentSpec(t.records, email, name, m);
    }
  }

  /** A student is created only after `findByEmail` found nothing, so an
      upload never gives two records the same email. */
  lemma {:induction false} RunRowsKeepsUniqueEmails(rs: seq<Student>, dataLines: seq<string>, m: string)
    requires UniqueEmails(rs)
    ensures UniqueEmails(RunRows(rs, dataLines, m).records)
  {
    if dataLines != [] {
      var n := |dataLines| - 1;
      RunRowsKeepsUniqueEmails(rs, dataLines[..n], m);
      var t := RunRows(rs, dataLines[..n], m);
      match ParseRow(dataLines[n])
      case BadFormat =>
      case MissingField =>
      case Row(email, name) =>
        AddMarkerSpec(t.records, email, m);
        AddStudentSpec(t.records, email, name, m);
    }
  }

  /** Every valid row's email carries the marker, in `rs`. */
  predicate Covered(rs: seq<Student>, dataLines: seq<string>, m: string)
  {
    forall k :: 0 <= k < |dataLines| && ParseRow(dataLines[k]).Row? ==>
      HasMarkerFor(rs, ParseRow(dataLines[k]).emailId, m)
  }

  /** After an upload, every valid row's student carries the marker. */
  lemma {:induction false} RunRowsCovers(rs: seq<Student>, dataLines: seq<string>, m: string)
    ensures Covered(RunRows(rs, dataLines, m).records, dataLines, m)
  {
    if dataLines != [] {
      var n := |dataLines| - 1;
      var init := dataLines[..n];
      RunRowsCovers(rs, init, m);
      CoveredExtend(RunRows(rs, init, m), init, dataLines[n], m);
      assert init + [dataLines[n]] == dataLines;
      assert RunRows(rs, dataLines, m) == Step(RunRows(rs, init, m), |init|, dataLines[n], m);
    }
  }

  lemma CoveredExtend(t: Tally, init: seq<string>, line: string, m: string)
    requires Covered(t.records, init, m)
    ensures Covered(Step(t, |init|, line, m).records, init + [line], m)
  {
    var after := Step(t, |init|, line, m).records;
    var lines := init + [line];
    StepKeepsMarkers(t, |init|, line, m);
    forall k | 0 <= k < |lines| && ParseRow(lines[k]).Row?
      ensures HasMarkerFor(after, ParseRow(lines[k]).emailId, m)
    {
      if k < |init| {
        assert lines[k] == init[k];
        assert HasMarkerFor(t.records, ParseRow(init[k]).emailId, m);
      } else {
        assert lines[k] == line;
      }
    }
  }

  /** An upload over a collection in which every valid row's student already
      carries the marker changes nothing and counts nothing. */
  lemma {:induction false} CoveredRunIsStable(rs: seq<Student>, dataLines: seq<string>, m: string)
    requires Covered(rs, dataLines, m)
    ensures RunRows(rs, dataLines, m).records == rs
    ensures RunRows(rs, dataLines, m).created == 0 && RunRows(rs, dataLines, m).updated == 0
  {
    if dataLines != [] {
      var n := |dataLines| - 1;
      var init := dataLines[..n];
      assert Covered(rs, init, m) by {
        forall k | 0 <= k < |init| && ParseRow(init[k]).Row?
          ensures HasMarkerFor(rs, ParseRow(init[k]).emailId, m)
        {
          assert init[k] == dataLines[k];
        }
      }
      CoveredRunIsStable(rs, init, m);
    }
  }

  /** Uploading the same CSV with the same marker a second time creates and
      updates nothing, leaves the collection as the first upload left it, and
      reports the same row errors. */
  lemma ReuploadIsIdempotent(rs: seq<Student>, dataLines: seq<string>, m: string)
    ensures RunRows(RunRows(rs, dataLines, m).records, dataLines, m).created == 0
    ensures RunRows(RunRows(rs, dataLines, m).records, dataLines, m).updated == 0
    ensures RunRows(RunRows(rs, dataLines, m).records, dataLines, m).records == RunRows(rs, dataLines, m).records
    ensures RunRows(RunRows(rs, dataLines, m).records, dataLines, m).errors == RunRows(rs, dataLines, m).errors
  {
    var first := RunRows(rs, dataLines, m);
    RunRowsCovers(rs, dataLines, m);
    CoveredRunIsStable(first.records, dataLines, m);
    ErrorsIgnoreTable(first.records, rs, dataLines, m);
  }

  // ---------------------------------------------------------------------
  // Small uploads
  // ---------------------------------------------------------------------

  /** A line keeps its place when it is not all whitespace. */
  lemma {:induction false} NonBlankKeepsAll(ls: seq<string>)
    requires forall k :: 0 <= k < |ls| ==> !AllWhitespace(ls[k])
    ensures NonBlank(ls) == ls
  {
    if ls != [] {
      NonBlankKeepsAll(ls[1..]);
      assert [ls[0]] + ls[1..] == ls;
    }
  }

  /** A roster written as newline-separated, non-blank lines reads back as
      those lines. */
  lemma LinesJoin(ls: seq<string>)
    requires |ls| >= 1
    requires forall k :: 0 <= k < |ls| ==> '\n' !in ls[k] && !AllWhitespace(ls[k])
    ensures Lines(Join(ls, "\n")) == ls
  {
    SplitJoin(ls, '\n');
    NonBlankKeepsAll(ls);
  }

  /** A roster holding only its header line, with or without a final newline,
      has no data rows, so the upload is refused. */
  lemma HeaderOnlyRoster(header: string)
    requires '\n' !in header && !AllWhitespace(header)
    ensures Lines(header) == [header]
    ensures Lines(header + "\n") == [header]
  {
    SplitNoSeparator(header, '\n');
    SplitAfterPiece(header, '\n', "");
    assert header + ['\n'] + "" == header + "\n";
    assert [header] + [""] == [header, ""];
    assert NonBlank([header, ""]) == [header] + NonBlank([""]);
  }

  /** Two rows with different, plain emails and names over an empty
      collection create two students, numbered 1 and 2, carrying the
      uploader's marker; nothing is updated and no row fails. */
  lemma TwoNewStudents(e1: string, n1: string, e2: string, n2: string, m: string)
    requires PlainCell(e1) && PlainCell(n1) && PlainCell(e2) && PlainCell(n2)
    requires e1 != "" && n1 != "" && e2 != "" && n2 != "" && e1 != e2
    ensures RunRows([], [e1 + "," + n1, e2 + "," + n2], m)
      == Tally([Student(1, e1, n1, [m]), Student(2, e2, n2, [m])], 2, 0, [])
    ensures StudentsByMarker(RunRows([], [e1 + "," + n1, e2 + "," + n2], m).records, m)
      == [Student(1, e1, n1, [m]), Student(2, e2, n2, [m])]
  {
    TwoRowsRun(e1, n1, e2, n2, m);
    TwoStudentsListed(e1, n1, e2, n2, m);
  }

  lemma TwoRowsRun(e1: string, n1: string, e2: string, n2: string, m: string)
    requires PlainCell(e1) && PlainCell(n1) && PlainCell(e2) && PlainCell(n2)
    requires e1 != "" && n1 != "" && e2 != "" && n2 != "" && e1 != e2
    ensures RunRows([], [e1 + "," + n1, e2 + "," + n2], m)
      == Tally([Student(1, e1, n1, [m]), Student(2, e2, n2, [m])], 2, 0, [])
  {
    RunRowsTwo([], e1 + "," + n1, e2 + "," + n2, m);
    FirstNewRow(e1, n1, m);
    SecondNewRow(e1, n1, e2, n2, m);
  }

  lemma FirstNewRow(e1: string, n1: string, m: string)
    requires PlainCell(e1) && PlainCell(n1) && e1 != "" && n1 != ""
    ensures Step(Tally([], 0, 0, []), 0, e1 + "," + n1, m) == Tally([Student(1, e1, n1, [m])], 1, 0, [])
  {
    NewRowStep(Tally([], 0, 0, []), 0, e1, n1, m);
    assert NextSlNo([]) == 1;
    assert [] + [Student(1, e1, n1, [m])] == [Student(1, e1, n1, [m])];
  }

  lemma SecondNewRow(e1: string, n1: string, e2: string, n2: string, m: string)
    requires PlainCell(e2) && PlainCell(n2) && e2 != "" && n2 != "" && e1 != e2
    ensures Step(Tally([Student(1, e1, n1, [m])], 1, 0, []), 1, e2 + "," + n2, m)
      == Tally([Student(1, e1, n1, [m]), Student(2, e2, n2, [m])], 2, 0, [])
  {
    var first := [Student(1, e1, n1, [m])];
    OneRecord(e1, n1, e2, m);
    NewRowStep(Tally(first, 1, 0, []), 1, e2, n2, m);
    assert first + [Student(2, e2, n2, [m])] == [Student(1, e1, n1, [m]), Student(2, e2, n2, [m])];
  }

  /** After the first student, a different email is unknown and the next serial number is 2. */
  lemma OneRecord(e1: string, n1: string, e2: string, m: string)
    requires e1 != e2
    ensures FindByEmail([Student(1, e1, n1, [m])], e2) == None
    ensures NextSlNo([Student(1, e1, n1, [m])]) == 2
  {
    var first := [Student(1, e1, n1, [m])];
    assert first[0].slNo == 1;
  }

  /** Two data lines are two steps. */
  lemma RunRowsTwo(rs: seq<Student>, l1: string, l2: string, m: string)
    ensures RunRows(rs, [l1, l2], m) == Step(Step(Tally(rs, 0, 0, []), 0, l1, m), 1, l2, m)
  {
    var dl := [l1, l2];
    RunRowsExtend(rs, dl, 0, m);
    RunRowsExtend(rs, dl, 1, m);
    assert dl[..0] == [] && dl[..2] == dl;
  }

  /** Two records numbered 1 and 2 whose only marker is `m` make up `m`'s list, in that order. */
  lemma TwoStudentsListed(e1: string, n1: string, e2: string, n2: string, m: string)
    ensures StudentsByMarker([Student(1, e1, n1, [m]), Student(2, e2, n2, [m])], m)
      == [Student(1, e1, n1, [m]), Student(2, e2, n2, [m])]
  {
    var rs := [Student(1, e1, n1, [m]), Student(2, e2, n2, [m])];
    assert TableInvariant(rs);
    FilterAll(rs, SoleMarker(m));
  }

  lemma NewRowStep(t: Tally, i: nat, emailId: string, studentName: string, m: string)
    requires PlainCell(emailId) && PlainCell(studentName) && emailId != "" && studentName != ""
    requires FindByEmail(t.records, emailId).None?
    ensures Step(t, i, emailId + "," + studentName, m)
      == t.(records := t.records + [Student(NextSlNo(t.records), emailId, studentName, [m])], created := t.created + 1)
  {
    ParseRowOfCells(emailId, studentName);
  }

  /** A data row without a comma changes nothing and is reported as an
      invalid format at its position. */
  lemma OneColumnRow(rs: seq<Student>, line: string, m: string)
    requires ',' !in line
    ensures RunRows(rs, [line], m) == Tally(rs, 0, 0, [RowMessage(0, InvalidFormat)])
  {
    ParseRowCases(line);
    assert [line][..0] == [];
  }

  /** The first data row is reported as row 2. */
  lemma FirstRowMessage()
    ensures RowMessage(0, InvalidFormat) == "Row 2: Invalid format"
    ensures RowMessage(0, MissingEmailOrName) == "Row 2: Missing email or name"
  {
  }
}
