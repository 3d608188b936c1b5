# Marker system: a Dafny model of the student store, CSV upload and report export

The marker system keeps one collection of students. Each student record
holds:

- a serial number (`slNo`);
- an email;
- a name;
- a list of *markers*, the modules (App, Web, ML, Cyber, Design, CP) that
  have claimed the student.

A lecturer uploads a CSV roster under their marker. Every row's student is
then either created with that marker or given the marker. A report
workbook lists, per module, the students whose only marker is that module,
plus one sheet for the students with several markers.

The model has four modules:

- `Text` (`text.dfy`): the JavaScript string built-ins the routes depend
  on. These are `split` on one character, `join`, `trim` with the
  ECMAScript whitespace set, `replace(/"/g, "")`, and the decimal rendering
  of a row number.
- `Students` (`students.dfy`): the collection and `StudentModel`. The
  collection is a sequence of records in storage order.
  - The queries are functions.
  - The four mutators are methods of the class `StudentTable`. Each one
    is specified by a pure transition function (`WithStudent`,
    `WithMarker`, `WithoutMarker`, `WithoutNonMarkers`) whose properties
    are lemmas.
  - `TableInvariant` holds for every collection these operations build:
    serial numbers are positive and strictly increasing, and no record
    carries a marker twice.
- `Upload` (`upload.dfy`): `POST /upload`. The loop over the data rows is
  specified by `RunRows`, a fold of the one-row function `Step`. The method
  `Post` is proved to end in the collection and the response that
  `RunRows` describes.
- `Export` (`export.dfy`): `GET /export` up to the point where the
  workbook is serialised. It produces the list of sheets (name plus rows
  of cells). The method `Get` is proved equal to the function `Workbook`.

## Model

| member | source | states |
|---|---|---|
| Text.Split | src/app/api/upload/route.js:19 | `split` on one character yields one more piece than there are separators, and no piece contains the separator |
| Text.Join | src/app/api/export/route.js:22-39 | `join` of a single element is that element; its partners `JoinSplit` and `SplitJoin` show it undoes `split` and is undone by it |
| Text.JoinSplit | src/app/api/upload/route.js:19 | joining the pieces of `split` with the separator gives back the original text |
| Text.SplitJoin | src/app/api/upload/route.js:38-39 | splitting a join of separator-free pieces gives back the pieces |
| Text.Trim | src/app/api/upload/route.js:40 | `trim` is empty exactly when the text is all whitespace; otherwise it starts and ends with a non-whitespace character; it is no longer than its input and uses only its characters |
| Text.TrimFramed | src/app/api/upload/route.js:40 | `trim` gives exactly the slice of the text between a whitespace prefix and a whitespace suffix |
| Text.TrimIdempotent | src/app/api/upload/route.js:19 | trimming twice is trimming once |
| Text.RemoveAll | src/app/api/upload/route.js:40 | `replace(/"/g, "")` leaves no quote; it keeps exactly the other characters and shortens the text by the number of quotes |
| Text.RemoveAllJoinsPieces | src/app/api/upload/route.js:40 | deleting every `"` equals joining, with nothing between them, the pieces that `split` on `"` yields, so the kept characters stay in order |
| Text.NatToString | src/app/api/upload/route.js:43 | a row number renders as a non-empty string of decimal digits with no leading zero |
| Text.DecimalRoundTrip | src/app/api/upload/route.js:43 | reading the rendered digits back gives the number |
| Text.NatToStringInjective | src/app/api/upload/route.js:43 | different row numbers render as different strings, so error messages name distinct rows |
| Students.AllStudents | src/models/Student.js:10-19 | `getAllStudents` returns every record (same multiset) sorted by `slNo`; on a collection satisfying the invariant, it returns the records in storage order |
| Students.SortBySlNo | src/models/Student.js:13 | `.sort({slNo: 1})` is sorted and a permutation of its input |
| Students.InsertBySlNo | src/models/Student.js:13 | inserting into a sorted list keeps it sorted and adds exactly the one record |
| Students.SortSortedIsIdentity | src/models/Student.js:13 | sorting an already sorted list changes nothing |
| Students.StudentsByMarker | src/models/Student.js:82-96 | `getStudentsByMarker(m)` returns exactly the records whose marker list is `[m]`, sorted by `slNo`, with each record counted once |
| Students.StudentsWithMultipleMarkers | src/models/Student.js:98-111 | returns exactly the records with more than one marker, sorted by `slNo` |
| Students.NonMarkers | src/models/Student.js:112-123 | `getAllNonMarkers` returns exactly the records with an empty marker list, sorted by `slNo` |
| Students.ClassesPartitionRecords | src/models/Student.js:85-118 | every record is in exactly one class: the single-marker list of its marker, the multiple-marker list, or the non-marker list |
| Students.ClassSizes | src/models/Student.js:85-118 | the sizes of the three classes add up to the number of records |
| Students.FilterKeepsAscending | src/models/Student.js:85-106 | a filtered query over a strictly ascending collection is strictly ascending |
| Students.IndexOfEmail | src/models/Student.js:24 | `findOne({emailId})` finds the first record with that email, and finds nothing exactly when no record has it |
| Students.FindByEmail | src/models/Student.js:21-29 | `findByEmail` returns a record of the collection with that email, or nothing exactly when there is none |
| Students.IncrementSpec | src/models/Student.js:150-159 | one `$group` step adds one to the count of its label only, keeping labels distinct and counts positive |
| Students.GroupSoleMarkersSpec | src/models/Student.js:150-159 | the `singleMarkers` facet has distinct labels and positive counts; each label counts the records whose only marker it is |
| Students.CategoryWiseCounts | src/models/Student.js:137-193 | `getCategoryWiseCount` has only positive counts; each module counts its sole-marker records, "Multiple" counts the multi-marker records (plus any record whose sole marker is literally "Multiple"); the total is the number of records with markers |
| Students.CategoryWiseLabels | src/models/Student.js:141-185 | a label appears in the result exactly when some record counts under it |
| Students.CategoryWiseDistinct | src/models/Student.js:141-185 | two entries share a label only when both are labelled "Multiple" |
| Students.MaxSlNo | src/models/Student.js:36 | the top record of the descending `slNo` sort has the largest serial number of the collection |
| Students.NextSlNo | src/models/Student.js:36-37 | the new serial number is 1 on an empty collection, otherwise one more than the largest, so it exceeds every existing one |
| Students.AddStudentSpec | src/models/Student.js:31-52 | `addStudent` appends one record `{next slNo, email, name, [marker]}` and leaves the others unchanged; it keeps the invariant; findByEmail then finds the new record, and emails stay unique when the email was new |
| Students.AddToSet | src/models/Student.js:59 | `$addToSet` appends the marker unless it is present, keeps the old list as a prefix and keeps it duplicate-free |
| Students.AddMarkerSpec | src/models/Student.js:54-66 | `addMarker` changes only the first record with that email, which then carries the marker; it is a no-op when there is no such record; applying it twice equals applying it once; it keeps the invariant and unique emails |
| Students.Pull | src/models/Student.js:73 | `$pull` deletes every occurrence of the marker and keeps exactly the other entries |
| Students.PullAppend | src/models/Student.js:73 | `$pull` on a concatenation is `$pull` on each part, so the kept entries stay in order with their repetitions |
| Students.PullOne | src/models/Student.js:73 | on a duplicate-free list, `$pull` removes exactly the one position holding the marker |
| Students.PullKeepsNoDuplicates | src/models/Student.js:73 | `$pull` keeps a marker list duplicate-free |
| Students.RemoveMarkerSpec | src/models/Student.js:68-80 | `removeMarker` changes only the first record with that email, which then lacks the marker; it is a no-op when there is no such record; it keeps the invariant and unique emails |
| Students.RemoveOnlyMarker | src/models/Student.js:71-74 | a record whose only marker is `m` is in `m`'s list, and once `m` is removed the record (with no markers) is in the non-marker list |
| Students.RemoveOnlyMarkerLeavesList | src/models/Student.js:71-74 | on a collection satisfying the invariant, the record then appears neither in `m`'s list nor anywhere in its old form, and the non-marker list grows by exactly one |
| Students.DeleteNonMarkersSpec | src/models/Student.js:125-135 | `deleteAllNonMarkers` keeps exactly the records with markers; the number deleted is the number of non-markers; none remain afterwards; deleting again deletes nothing; it keeps the invariant |
| Students.StudentTable.constructor | src/models/Student.js:4-8 | a fresh collection is empty and satisfies the invariant |
| Students.StudentTable.AddStudent | src/models/Student.js:31-52 | the collection becomes `WithStudent` of the old one, and the invariant is kept |
| Students.StudentTable.AddMarker | src/models/Student.js:54-66 | the collection becomes `WithMarker` of the old one, and the invariant is kept |
| Students.StudentTable.RemoveMarker | src/models/Student.js:68-80 | the collection becomes `WithoutMarker` of the old one, and the invariant is kept |
| Students.StudentTable.DeleteAllNonMarkers | src/models/Student.js:125-135 | the collection becomes `WithoutNonMarkers` of the old one, and the returned count is the number of non-marker records |
| Upload.NonBlankMembers | src/app/api/upload/route.js:19 | the filter keeps exactly the lines that are not all whitespace |
| Upload.NonBlankAppend | src/app/api/upload/route.js:19 | filtering a concatenation filters each part, so the kept lines stay in order with their repetitions |
| Upload.Lines | src/app/api/upload/route.js:19 | no line contains a newline or is blank, and there are at most as many lines as newlines plus one |
| Upload.LinesMembers | src/app/api/upload/route.js:19 | the lines are exactly the newline-separated pieces of the text that are not all whitespace |
| Upload.CleanCell | src/app/api/upload/route.js:40 | a cleaned cell has no quote and uses only characters of the piece |
| Upload.Cells | src/app/api/upload/route.js:38-40 | a line gives one cell per comma plus one, and no cell holds a quote or comma |
| Upload.CleanCellEmpty | src/app/api/upload/route.js:40 | a cell is empty exactly when its trimmed piece is made only of quotes, and it equals the trimmed piece when that has no quote |
| Upload.CellsPieces | src/app/api/upload/route.js:38-40 | cell k of a line is piece k of its comma split, trimmed and without quotes |
| Upload.MissingFieldOfLine | src/app/api/upload/route.js:38-52 | a line is rejected as "Missing email or name" exactly when it has a comma and its first or second comma-separated piece cleans to nothing |
| Upload.ParseRowCases | src/app/api/upload/route.js:38-52 | a row is "Invalid format" exactly when it has no comma; otherwise it is "Missing email or name" exactly when its first or second cell is empty; an accepted row has a non-empty email and name |
| Upload.CellsJoin | src/app/api/upload/route.js:38-40 | a line written as plain cells joined by commas reads back as those cells |
| Upload.ParseRowOfCells | src/app/api/upload/route.js:38-52 | the line `email,name` made of two non-empty plain cells is accepted with exactly that email and name |
| Upload.LinesJoin | src/app/api/upload/route.js:19 | non-blank, newline-free lines joined by newlines read back as those lines |
| Upload.HeaderOnlyRoster | src/app/api/upload/route.js:19-26 | a roster holding only its header, with or without a final newline, has exactly one line, so it is refused for lack of data rows |
| Upload.Post | src/app/api/upload/route.js:4-80 | a missing file or marker gives 400 "File and marker are required" with the collection unchanged; one line or fewer gives 400 "CSV file must contain data rows"; otherwise the response holds the tallies, and the collection is as `RunRows` over the lines after the header leaves it; the invariant is kept |
| Upload.ProcessRows | src/app/api/upload/route.js:36-75 | the loop ends in the collection and the tallies of `RunRows` over the data lines |
| Upload.ProcessRow | src/app/api/upload/route.js:37-71 | one loop iteration moves the collection and the tallies as `Step` says |
| Upload.RegisterRow | src/app/api/upload/route.js:55-71 | for an accepted row: an existing student lacking the marker gets it and counts as updated; a student who has it changes nothing; a new email creates a student and counts as created |
| Upload.StepAccounting | src/app/api/upload/route.js:36-75 | a row moves exactly one tally by one, or changes nothing; it changes nothing exactly when it is valid and its student already has the marker; earlier errors are kept |
| Upload.RegisterAccounting | src/app/api/upload/route.js:57-71 | an accepted row adds no error, and adds one to created plus updated unless its student already has the marker, in which case nothing changes |
| Upload.InvalidRowRecordsError | src/app/api/upload/route.js:42-52 | an invalid row changes neither the collection nor the counters, and appends one "Row i+2: reason" error with the right reason |
| Upload.ExistingStudentGetsMarker | src/app/api/upload/route.js:57-62 | a valid row for a known student without the marker gives that student the marker, changes no other student's record and counts one update |
| Upload.NewStudentCreated | src/app/api/upload/route.js:63-71 | a valid row with an unknown email appends one record with the next serial number and only the uploader's marker, and counts one creation |
| Upload.StepKeepsMarkers | src/app/api/upload/route.js:55-71 | a row never takes a marker away, and after a valid row its student carries the uploader's marker |
| Upload.StepErrors | src/app/api/upload/route.js:42-52 | the error a row adds depends on the row's text alone |
| Upload.RunRowsAccounting | src/app/api/upload/route.js:36-75 | created + updated + number of errors is at most the number of data rows |
| Upload.ErrorsIgnoreTable | src/app/api/upload/route.js:36-75 | the error list depends on the roster alone, not on the collection |
| Upload.RunRowsKeepsInvariant | src/app/api/upload/route.js:55-71 | an upload keeps serial numbers positive and strictly increasing and marker lists duplicate-free |
| Upload.RunRowsKeepsUniqueEmails | src/app/api/upload/route.js:55-71 | an upload never gives two records the same email |
| Upload.RunRowsCovers | src/app/api/upload/route.js:55-71 | after an upload, every valid row's student carries the uploader's marker |
| Upload.CoveredRunIsStable | src/app/api/upload/route.js:57-62 | an upload in which every valid row's student already has the marker changes nothing and counts nothing |
| Upload.ReuploadIsIdempotent | src/app/api/upload/route.js:36-75 | uploading the same roster with the same marker again creates and updates nothing, leaves the collection as it was, and reports the same row errors |
| Upload.TwoNewStudents | src/app/api/upload/route.js:36-71 | two plain rows with different emails over an empty collection create students 1 and 2 with the marker, with no update and no error; that marker's list then holds students 1 and 2 in that order |
| Upload.OneColumnRow | src/app/api/upload/route.js:42-45 | a single data row without a comma changes nothing and is reported as "Invalid format" |
| Upload.FirstRowMessage | src/app/api/upload/route.js:43-50 | the first data row is reported as "Row 2" |
| Export.SheetRows | src/app/api/export/route.js:16-24 | a sheet has the header plus one row per student, and every row has the header's four columns |
| Export.SheetQuery | src/app/api/export/route.js:14 | sheet k lists exactly the students whose home sheet is k, sorted by serial number (strictly ascending on a collection satisfying the invariant) |
| Export.Workbook | src/app/api/export/route.js:13-48 | the workbook has one sheet per module plus one |
| Export.Get | src/app/api/export/route.js:7-48 | the sheets appended by the loop and the final sheet are exactly `Workbook` of the collection |
| Export.WorkbookSheetNames | src/app/api/export/route.js:27 | the seven sheets are named "App Only", "Web Only", "ML Only", "Cyber Only", "Design Only", "CP Only" and "Multiple Markers", in that order |
| Export.SheetRowsSpec | src/app/api/export/route.js:16-24 | a sheet's first row is the header, and its row j+1 is the serial number, email, name and ", "-joined markers of student j |
| Export.SheetRowsAscending | src/app/api/export/route.js:18-23 | students sorted by serial number give data rows whose serial-number cells ascend |
| Export.WorkbookRows | src/app/api/export/route.js:16-41 | every sheet is its header followed by its query's student rows in order, with ascending serial-number cells |
| Export.ModuleSheetMarkersCell | src/app/api/export/route.js:14-24 | a module sheet has one data row per sole-marker student of that module, and each Markers cell is just the module name |
| Export.HomeSheet | src/app/api/export/route.js:13-32 | a student belongs on the last sheet exactly when it has several markers, and on module sheet k exactly when its marker list is that module alone |
| Export.SlNoFoundOnce | src/app/api/export/route.js:18-23 | in a sheet listing strictly ascending serial numbers, a listed student's serial number is in exactly its own row |
| Export.ExportPlacesEachStudent | src/app/api/export/route.js:13-48 | on a collection satisfying the invariant, each student's serial number is in exactly one data row of its home sheet, a row showing that student, and in no row of any other sheet |

## Left out

- The MongoDB connection (`getCollection`, `src/models/Student.js:4-8`) is modelled as a collection held in memory. Storage natural order is taken to be insertion order, and `findOne`/`updateOne` match the first record in that order.
- Concurrency is not modelled. Operations run one at a time, so the read-then-insert race on the next serial number in `addStudent` (`src/models/Student.js:36-46`) is not modelled.
- Sorting by `slNo` is modelled as a stable insertion sort. Mongo's order for equal serial numbers is unspecified. The invariant rules out equal numbers in any case.
- Storage exceptions are not modelled: the per-row `catch` (`src/app/api/upload/route.js:72-74`) and the outer 500 responses (`upload/route.js:81-87`, `export/route.js:71-77`).
- The HTTP layer and file reading are not modelled: `request.formData()` and `file.text()`. The form fields are parameters of type `Option<string>`; the file is given as its text. A marker given as the empty string counts as missing, as JavaScript's falsiness makes it.
- XLSX serialisation is not modelled: `aoa_to_sheet`, `book_append_sheet`, `XLSX.write`, the response headers and the dated file name (`export/route.js:26`, `43`, `50-70`). The model ends at the list of named sheets of cells.
- Students.CategoryWiseCount: the aggregation's output order follows `$group` (unspecified). The model returns labels in order of first appearance. Its properties are stated per label, so they do not depend on that order.
- Upload.RunRowsAccounting: the contract states `created + updated + |errors| <= rows`, not equality. A valid row whose student already carries the marker moves no tally, as the code is written. `StepAccounting` states exactly when that happens.
- The student list routes (`src/app/api/students/*`) and the pages (`src/app/*.jsx`) are thin callers of the model's queries, and are not part of this model.
- Console logging of errors is left out.
