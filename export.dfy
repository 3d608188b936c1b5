/**
  `GET /export`: the report workbook, as the list of sheets handed to the
  spreadsheet writer. One sheet per module, in a fixed order, lists the
  students whose only marker is that module; a last sheet lists the students
  with several markers. Every sheet starts with the same header row.
*/
module Export {
  import opened Wrappers
  import opened Text
  import opened Students

  /** A spreadsheet cell: the serial number is a number, the rest is text. */
  datatype Cell = NumberCell(n: nat) | TextCell(s: string)

  type Row = seq<Cell>

  /** A named worksheet given as an array of rows (`aoa_to_sheet`). */
  datatype Sheet = Sheet(name: string, rows: seq<Row>)

  /** The modules, in the order their sheets appear. */
  const Modules: seq<string> := ["App", "Web", "ML", "Cyber", "Design", "CP"]

  const Header: Row := [TextCell("Sl.No"), TextCell("Email ID"), TextCell("Student Name"), TextCell("Markers")]

  const MultipleSheetName: string := "Multiple Markers"

  /** One student's row: serial number, email, name and the markers joined by ", ". */
  function StudentRow(s: Student): Row
  {
    [NumberCell(s.slNo), TextCell(s.emailId), TextCell(s.studentName), TextCell(Join(s.markers, ", "))]
  }

  /** The header followed by one row per student, in the students' order;
      every row has the header's four columns. */
  function SheetRows(students: seq<Student>): (rows: seq<Row>)
    ensures |rows| == |students| + 1
    ensures forall j :: 0 <= j < |rows| ==> |rows[j]| == |Header|
  {
    [Header] + seq(|students|, k requires 0 <= k < |students| => StudentRow(students[k]))
  }

  /** The query whose students sheet `k` lists. */
  function SheetQuery(rs: seq<Student>, k: nat): (q: seq<Student>)
    requires k <= |Modules|
    ensures forall s :: s in q <==> s in rs && HomeSheet(s) == Some(k)
    ensures SortedBySlNo(q)
    ensures TableInvariant(rs) ==> StrictlyAscending(q)
  {
    HomeSheetOf(k);
    if k < |Modules| then
      assert TableInvariant(rs) ==> StrictlyAscending(Filter(rs, SoleMarker(Modules[k]))) by {
        if TableInvariant(rs) {
          FilterKeepsAscending(rs, SoleMarker(Modules[k]));
        }
      }
      StudentsByMarker(rs, Modules[k])
    else
      assert TableInvariant(rs) ==> StrictlyAscending(Filter(rs, HasMultipleMarkers)) by {
        if TableInvariant(rs) {
          FilterKeepsAscending(rs, HasMultipleMarkers);
        }
      }
      StudentsWithMultipleMarkers(rs)
  }

  function SheetName(k: nat): string
  {
    if k < |Modules| then Modules[k] + " Only" else MultipleSheetName
  }

  /** Sheet `k` of the report: module `k`'s sheet, or "Multiple Markers". */
  function SheetAt(rs: seq<Student>, k: nat): Sheet
    requires k <= |Modules|
  {
    Sheet(SheetName(k), SheetRows(SheetQuery(rs, k)))
  }

  /** The sheets of the report, in the order they are appended. */
  function Workbook(rs: seq<Student>): (wb: seq<Sheet>)
    ensures |wb| == |Modules| + 1
  {
    seq(|Modules| + 1, k requires 0 <= k <= |Modules| => SheetAt(rs, k))
  }

  /** `GET /export`, up to the point where the workbook is serialised. */
  method Get(table: StudentTable) returns (workbook: seq<Sheet>)
    ensures workbook == Workbook(table.records)
  {
    workbook := [];
    for k := 0 to |Modules|
      invariant workbook == Workbook(table.records)[..k]
    {
      var modul := Modules[k];
      var students := StudentsByMarker(table.records, modul);
      WorkbookPrefix(table.records, k);
      workbook := workbook + [Sheet(modul + " Only", SheetRows(students))];
    }
    var multipleMarkerStudents := StudentsWithMultipleMarkers(table.records);
    WorkbookLast(table.records);
    workbook := workbook + [Sheet(MultipleSheetName, SheetRows(multipleMarkerStudents))];
  }

  /** The first `k + 1` sheets are the first `k` and module `k`'s sheet. */
  lemma WorkbookPrefix(rs: seq<Student>, k: nat)
    requires k < |Modules|
    ensures Workbook(rs)[..k + 1]
      == Workbook(rs)[..k] + [Sheet(Modules[k] + " Only", SheetRows(StudentsByMarker(rs, Modules[k])))]
  {
    SheetAtModule(rs, k);
    PrefixExtend(Workbook(rs), k);
  }

  lemma PrefixExtend(xs: seq<Sheet>, k: nat)
    requires k < |xs|
    ensures xs[..k + 1] == xs[..k] + [xs[k]]
  {
  }

  /** The workbook is the module sheets followed by "Multiple Markers". */
  lemma WorkbookLast(rs: seq<Student>)
    ensures Workbook(rs)
      == Workbook(rs)[..|Modules|] + [Sheet(MultipleSheetName, SheetRows(StudentsWithMultipleMarkers(rs)))]
  {
    var wb := Workbook(rs);
    assert wb[|Modules|] == SheetAt(rs, |Modules|);
    PrefixExtend(wb, |Modules|);
    assert wb[..|Modules| + 1] == wb;
  }

  lemma SheetAtModule(rs: seq<Student>, k: nat)
    requires k < |Modules|
    ensures Workbook(rs)[k] == Sheet(Modules[k] + " Only", SheetRows(StudentsByMarker(rs, Modules[k])))
  {
  }

  // ---------------------------------------------------------------------
  // Properties of the workbook
  // ---------------------------------------------------------------------

  /** The sheets are, in order, the six module sheets and "Multiple Markers". */
  lemma WorkbookSheetNames(rs: seq<Student>)
    ensures |Workbook(rs)| == 7
    ensures Workbook(rs)[0].name == "App Only" && Workbook(rs)[1].name == "Web Only"
    ensures Workbook(rs)[2].name == "ML Only" && Workbook(rs)[3].name == "Cyber Only"
    ensures Workbook(rs)[4].name == "Design Only" && Workbook(rs)[5].name == "CP Only"
    ensures Workbook(rs)[6].name == "Multiple Markers"
  {
    forall k | 0 <= k < 7 ensures Workbook(rs)[k].name == SheetName(k) {
      WorkbookName(rs, k);
    }
    SheetNameValues();
  }

  lemma WorkbookName(rs: seq<Student>, k: nat)
    requires k <= |Modules|
    ensures Workbook(rs)[k].name == SheetName(k)
  {
  }

  lemma SheetNameValues()
    ensures SheetName(0) == "App Only" && SheetName(1) == "Web Only" && SheetName(2) == "ML Only"
    ensures SheetName(3) == "Cyber Only" && SheetName(4) == "Design Only" && SheetName(5) == "CP Only"
    ensures SheetName(6) == "Multiple Markers"
  {
  }

  /** A sheet's rows: the header, then one row per student of `q` in the same
      order, made of the student's serial number, email, name and joined
      markers. */
  lemma SheetRowsSpec(q: seq<Student>)
    ensures |SheetRows(q)| == |q| + 1 && SheetRows(q)[0] == Header
    ensures forall j :: 0 <= j < |q| ==> SheetRows(q)[j + 1] == StudentRow(q[j])
  {
  }

  /** Students sorted by serial number give data rows whose serial-number
      cells ascend. */
  lemma SheetRowsAscending(q: seq<Student>)
    requires SortedBySlNo(q)
    ensures forall a: int, b: int :: 1 <= a < b < |SheetRows(q)| ==>
      SheetRows(q)[a][0].NumberCell? && SheetRows(q)[a][0].n <= SheetRows(q)[b][0].n
  {
    var rows: seq<Row> := SheetRows(q);
    forall a: int, b: int | 1 <= a < b < |rows|
      ensures rows[a][0] == NumberCell(q[a - 1].slNo) && rows[b][0] == NumberCell(q[b - 1].slNo)
    {
      assert rows[a] == StudentRow(q[a - 1]) && rows[b] == StudentRow(q[b - 1]);
    }
  }

  /** Every sheet starts with the header row, then holds one row per student
      of its query (sorted by serial number), in the query's order. */
  lemma WorkbookRows(rs: seq<Student>, k: nat)
    requires k < |Workbook(rs)|
    ensures Workbook(rs)[k].rows[0] == Header
    ensures |Workbook(rs)[k].rows| == 1 + |SheetQuery(rs, k)|
    ensures forall j :: 0 <= j < |SheetQuery(rs, k)| ==>
      Workbook(rs)[k].rows[j + 1] == StudentRow(SheetQuery(rs, k)[j])
    ensures forall a: int, b: int :: 1 <= a < b < |Workbook(rs)[k].rows| ==>
      Workbook(rs)[k].rows[a][0].NumberCell? && Workbook(rs)[k].rows[a][0].n <= Workbook(rs)[k].rows[b][0].n
  {
    var sheet := Workbook(rs)[k];
    assert sheet == SheetAt(rs, k);
    SheetRowsSpec(SheetQuery(rs, k));
    SheetRowsAscending(SheetQuery(rs, k));
  }

  /** A module sheet has one row per student whose only marker is that module,
      and every one of its Markers cells is just the module's name. */
  lemma ModuleSheetMarkersCell(rs: seq<Student>, k: nat)
    requires k < |Modules|
    ensures |Workbook(rs)[k].rows| == 1 + |StudentsByMarker(rs, Modules[k])|
    ensures forall j :: 1 <= j < |Workbook(rs)[k].rows| ==> Workbook(rs)[k].rows[j][3] == TextCell(Modules[k])
  {
    var sheet := Workbook(rs)[k];
    SheetAtModule(rs, k);
    SoleMarkerCells(StudentsByMarker(rs, Modules[k]), Modules[k]);
  }

  lemma SoleMarkerCells(q: seq<Student>, m: string)
    requires forall s :: s in q ==> s.markers == [m]
    ensures forall j :: 1 <= j < |SheetRows(q)| ==> SheetRows(q)[j][3] == TextCell(m)
  {
    var rows := SheetRows(q);
    forall j | 1 <= j < |rows| ensures rows[j][3] == TextCell(m) {
      assert q[j - 1] in q;
      assert rows[j] == StudentRow(q[j - 1]);
    }
  }

  /** The data rows of a sheet whose serial-number cell is `n`. */
  function RowsWithSlNo(sheet: Sheet, n: nat): set<nat>
  {
    set j: nat | 1 <= j < |sheet.rows| && |sheet.rows[j]| > 0 && sheet.rows[j][0] == NumberCell(n)
  }

  /** In a sheet listing students with distinct, ascending serial numbers, a
      listed student's serial number is found in exactly its own row. */
  lemma SlNoFoundOnce(q: seq<Student>, name: string, i: nat)
    requires StrictlyAscending(q) && i < |q|
    ensures RowsWithSlNo(Sheet(name, SheetRows(q)), q[i].slNo) == {i + 1}
    ensures SheetRows(q)[i + 1] == StudentRow(q[i])
  {
    var rows := SheetRows(q);
    var found := RowsWithSlNo(Sheet(name, rows), q[i].slNo);
    SheetRowsSpec(q);
    assert rows[i + 1] == StudentRow(q[i]);
    assert i + 1 in found;
    forall j: nat | j in found ensures j == i + 1 {
      assert rows[j] == StudentRow(q[j - 1]);
      assert q[j - 1].slNo == q[i].slNo;
      assert !(j - 1 < i) && !(i < j - 1);
    }
    assert found == {i + 1};
  }

  /** A serial number that no listed student has is in no row. */
  lemma SlNoNotFound(q: seq<Student>, name: string, n: nat)
    requires forall i :: 0 <= i < |q| ==> q[i].slNo != n
    ensures RowsWithSlNo(Sheet(name, SheetRows(q)), n) == {}
  {
    var rows := SheetRows(q);
    SheetRowsSpec(q);
    forall j | 1 <= j < |rows| ensures rows[j][0] != NumberCell(n) {
      assert rows[j] == StudentRow(q[j - 1]);
    }
  }

  /** The sheet a student belongs in: its module's sheet when its only marker
      is one of the modules, the last sheet when it has several markers, and
      none otherwise. */
  function HomeSheet(s: Student): (r: Option<nat>)
    ensures r.Some? ==> r.value <= |Modules|
    ensures |s.markers| == 0 ==> r.None?
    ensures |s.markers| > 1 <==> r == Some(|Modules|)
    ensures r.Some? && r.value < |Modules| <==> |s.markers| == 1 && s.markers[0] in Modules
    ensures r.Some? && r.value < |Modules| ==> s.markers == [Modules[r.value]]
  {
    if |s.markers| > 1 then Some(|Modules|)
    else if |s.markers| == 1 then
      if s.markers[0] == "App" then Some(0)
      else if s.markers[0] == "Web" then Some(1)
      else if s.markers[0] == "ML" then Some(2)
      else if s.markers[0] == "Cyber" then Some(3)
      else if s.markers[0] == "Design" then Some(4)
      else if s.markers[0] == "CP" then Some(5)
      else None
    else None
  }

  lemma HomeSheetOf(k: nat)
    requires k <= |Modules|
    ensures forall s :: HomeSheet(s) == Some(k) <==>
      (if k < |Modules| then s.markers == [Modules[k]] else |s.markers| > 1)
  {
  }

  lemma SameSlNoSameRecord(rs: seq<Student>, a: Student, b: Student)
    requires TableInvariant(rs) && a in rs && b in rs && a.slNo == b.slNo
    ensures a == b
  {
    var i :| 0 <= i < |rs| && rs[i] == a;
    var j :| 0 <= j < |rs| && rs[j] == b;
    assert !(i < j) && !(j < i);
  }

  /** On a collection kept by the model's operations, a student's serial
      number is in exactly one data row of its home sheet, a row that is the
      student's own, and in no row of any other sheet. So students without
      markers, or whose sole marker is not a module, are in no sheet, and each
      student with several markers is in "Multiple Markers" exactly once. */
  lemma ExportPlacesEachStudent(rs: seq<Student>, s: Student, k: nat)
    requires TableInvariant(rs) && s in rs && k < |Workbook(rs)|
    ensures |RowsWithSlNo(Workbook(rs)[k], s.slNo)| == if HomeSheet(s) == Some(k) then 1 else 0
    ensures forall j :: j in RowsWithSlNo(Workbook(rs)[k], s.slNo) ==> Workbook(rs)[k].rows[j] == StudentRow(s)
  {
    var q := SheetQuery(rs, k);
    assert Workbook(rs)[k] == Sheet(SheetName(k), SheetRows(q));
    if HomeSheet(s) == Some(k) {
      ListedOnce(q, SheetName(k), s);
    } else {
      NotListed(rs, q, SheetName(k), s);
    }
  }

  /** A student of a strictly ascending list is in exactly one data row, its own. */
  lemma ListedOnce(q: seq<Student>, name: string, s: Student)
    requires StrictlyAscending(q) && s in q
    ensures |RowsWithSlNo(Sheet(name, SheetRows(q)), s.slNo)| == 1
    ensures forall j :: j in RowsWithSlNo(Sheet(name, SheetRows(q)), s.slNo) ==> SheetRows(q)[j] == StudentRow(s)
  {
    var i :| 0 <= i < |q| && q[i] == s;
    SlNoFoundOnce(q, name, i);
  }

  /** A record of the collection that a list drawn from it leaves out has a
      serial number in none of the list's rows. */
  lemma NotListed(rs: seq<Student>, q: seq<Student>, name: string, s: Student)
    requires TableInvariant(rs) && s in rs && s !in q
    requires forall x :: x in q ==> x in rs
    ensures RowsWithSlNo(Sheet(name, SheetRows(q)), s.slNo) == {}
  {
    forall i | 0 <= i < |q| ensures q[i].slNo != s.slNo {
      assert q[i] in q;
      if q[i].slNo == s.slNo {
        SameSlNoSameRecord(rs, s, q[i]);
      }
    }
    SlNoNotFound(q, name, s.slNo);
  }
}
