/**
  The student collection and `StudentModel`, its data-access class.

  The document collection is modelled as an in-memory sequence of records in
  storage (insertion) order. The read-only queries are functions over that
  sequence; the four operations that change the collection are methods of
  `StudentTable`, each specified by a pure transition function over the
  records, and the properties of those transitions are lemmas.
*/
module Students {
  import opened Wrappers

  /** One document of the collection. `markers` is the list of module tags. */
  datatype Student = Student(slNo: nat, emailId: string, studentName: string, markers: seq<string>)

  // ---------------------------------------------------------------------
  // Classes of records, derived from the number of markers
  // ---------------------------------------------------------------------

  predicate IsNonMarker(s: Student) { |s.markers| == 0 }
  predicate HasMarkers(s: Student) { |s.markers| >= 1 }
  predicate HasSingleMarker(s: Student) { |s.markers| == 1 }
  predicate HasMultipleMarkers(s: Student) { |s.markers| > 1 }

  /** The test `{markers: m, $size(markers) == 1}`: `m` is the record's only marker. */
  function SoleMarker(m: string): Student -> bool
  {
    (s: Student) => s.markers == [m]
  }

  predicate NoDuplicates(xs: seq<string>)
  {
    forall i, j :: 0 <= i < j < |xs| ==> xs[i] != xs[j]
  }

  /** What every sequence of operations of this model keeps true of the
      collection: serial numbers are positive and strictly increase in
      storage order, and no record carries a marker twice. */
  predicate TableInvariant(rs: seq<Student>)
  {
    && StrictlyAscending(rs)
    && (forall i :: 0 <= i < |rs| ==> rs[i].slNo >= 1 && NoDuplicates(rs[i].markers))
  }

  /** Emails identify records; the collection does not enforce it, the upload loop does. */
  predicate UniqueEmails(rs: seq<Student>)
  {
    forall i, j :: 0 <= i < j < |rs| ==> rs[i].emailId != rs[j].emailId
  }

  // ---------------------------------------------------------------------
  // Filtering and sorting
  // ---------------------------------------------------------------------

  /** The records of `xs` that satisfy `p`, in their order. */
  function Filter(xs: seq<Student>, p: Student -> bool): (r: seq<Student>)
    ensures |r| <= |xs|
    ensures forall x :: x in r <==> x in xs && p(x)
    ensures forall i :: 0 <= i < |r| ==> p(r[i])
  {
    if xs == [] then []
    else
      assert xs == xs[..|xs| - 1] + [xs[|xs| - 1]];
      Filter(xs[..|xs| - 1], p) + (if p(xs[|xs| - 1]) then [xs[|xs| - 1]] else [])
  }

  /** `Filter` of a non-empty sequence: its prefix's filter, then the last
      record when it passes. */
  lemma FilterLast(xs: seq<Student>, p: Student -> bool)
    requires xs != []
    ensures Filter(xs, p) == Filter(xs[..|xs| - 1], p) + if p(xs[|xs| - 1]) then [xs[|xs| - 1]] else []
  {
  }

  lemma Uncons(xs: seq<Student>)
    requires xs != []
    ensures xs == [xs[0]] + xs[1..]
  {
  }

  lemma InitLast(xs: seq<Student>)
    requires xs != []
    ensures xs[..|xs| - 1] + [xs[|xs| - 1]] == xs
  {
  }

  /** How many records of `xs` satisfy `p`. */
  function CountPassing(xs: seq<Student>, p: Student -> bool): nat
  {
    if xs == [] then 0
    else CountPassing(xs[..|xs| - 1], p) + if p(xs[|xs| - 1]) then 1 else 0
  }

  /** A filter holds as many records as pass. */
  lemma {:induction false} FilterCount(xs: seq<Student>, p: Student -> bool)
    ensures |Filter(xs, p)| == CountPassing(xs, p)
  {
    if xs != [] {
      FilterLast(xs, p);
      FilterCount(xs[..|xs| - 1], p);
    }
  }

  /** Replacing one record changes the number of passing records by whether
      the old and the new record pass. */
  lemma {:induction false} CountUpdate(xs: seq<Student>, i: nat, x: Student, p: Student -> bool)
    requires i < |xs|
    ensures CountPassing(xs[i := x], p) + (if p(xs[i]) then 1 else 0) == CountPassing(xs, p) + (if p(x) then 1 else 0)
  {
    var n := |xs| - 1;
    if i == n {
      UpdateLast(xs, x);
    } else {
      UpdateBeforeLast(xs, i, x);
      CountUpdate(xs[..n], i, x, p);
    }
  }

  lemma UpdateLast(xs: seq<Student>, x: Student)
    requires xs != []
    ensures xs[|xs| - 1 := x][..|xs| - 1] == xs[..|xs| - 1] && xs[|xs| - 1 := x][|xs| - 1] == x
  {
  }

  lemma UpdateBeforeLast(xs: seq<Student>, i: nat, x: Student)
    requires i < |xs| - 1
    ensures xs[i := x][..|xs| - 1] == xs[..|xs| - 1][i := x] && xs[i := x][|xs| - 1] == xs[|xs| - 1]
    ensures xs[..|xs| - 1][i] == xs[i]
  {
  }

  lemma {:induction false} FilterAll(xs: seq<Student>, p: Student -> bool)
    requires forall i :: 0 <= i < |xs| ==> p(xs[i])
    ensures Filter(xs, p) == xs
  {
    if xs != [] {
      var init, last := xs[..|xs| - 1], xs[|xs| - 1];
      assert p(last);
      FilterLast(xs, p);
      FilterAll(init, p);
      InitLast(xs);
    }
  }

  lemma {:induction false} FilterNone(xs: seq<Student>, p: Student -> bool)
    requires forall i :: 0 <= i < |xs| ==> !p(xs[i])
    ensures Filter(xs, p) == []
  {
    if xs != [] {
      var init, last := xs[..|xs| - 1], xs[|xs| - 1];
      assert !p(last);
      assert Filter(xs, p) == Filter(init, p);
      FilterNone(init, p);
    }
  }

  predicate SortedBySlNo(rs: seq<Student>)
  {
    forall i, j :: 0 <= i < j < |rs| ==> rs[i].slNo <= rs[j].slNo
  }

  predicate StrictlyAscending(rs: seq<Student>)
  {
    forall i, j :: 0 <= i < j < |rs| ==> rs[i].slNo < rs[j].slNo
  }

  function InsertBySlNo(s: Student, rs: seq<Student>): (r: seq<Student>)
    requires SortedBySlNo(rs)
    ensures |r| == |rs| + 1
    ensures forall x :: x in r <==> x in rs || x == s
    ensures SortedBySlNo(r)
    ensures multiset(r) == multiset(rs) + multiset{s}
  {
    if rs == [] || s.slNo <= rs[0].slNo then [s] + rs
    else
      var t := InsertBySlNo(s, rs[1..]);
      Uncons(rs);
      ConsSorted(rs[0], t);
      [rs[0]] + t
  }


  /** A record no later than every record of a sorted sequence can go in front of it. */
  lemma ConsSorted(a: Student, t: seq<Student>)
    requires SortedBySlNo(t)
    requires forall x :: x in t ==> a.slNo <= x.slNo
    ensures SortedBySlNo([a] + t)
  {
    var r := [a] + t;
    forall i, j | 0 <= i < j < |r| ensures r[i].slNo <= r[j].slNo {
      if i == 0 {
        assert r[j] == t[j - 1] && r[j] in t;
      } else {
        assert r[i] == t[i - 1] && r[j] == t[j - 1];
      }
    }
  }

  /** `.sort({slNo: 1})`: the same records, in ascending `slNo` order
      (records with equal `slNo` keep their storage order). */
  function SortBySlNo(rs: seq<Student>): (r: seq<Student>)
    ensures SortedBySlNo(r)
    ensures multiset(r) == multiset(rs)
  {
    if rs == [] then []
    else
      assert rs == [rs[0]] + rs[1..];
      InsertBySlNo(rs[0], SortBySlNo(rs[1..]))
  }

  /** Sorting a sequence that is already in order changes nothing. */
  lemma {:induction false} SortSortedIsIdentity(rs: seq<Student>)
    requires SortedBySlNo(rs)
    ensures SortBySlNo(rs) == rs
  {
    if rs != [] {
      SortSortedIsIdentity(rs[1..]);
      assert [rs[0]] + rs[1..] == rs;
    }
  }

  /** A filtered sub-sequence of a strictly ascending sequence is strictly ascending. */
  lemma {:induction false} FilterKeepsAscending(rs: seq<Student>, p: Student -> bool)
    requires StrictlyAscending(rs)
    ensures StrictlyAscending(Filter(rs, p))
  {
    if rs != [] {
      var init, last := rs[..|rs| - 1], rs[|rs| - 1];
      FilterKeepsAscending(init, p);
      var f := Filter(init, p);
      forall k | 0 <= k < |f| ensures f[k].slNo < last.slNo {
        assert f[k] in init;
      }
    }
  }

  // ---------------------------------------------------------------------
  // Read-only queries
  // ---------------------------------------------------------------------

  /** `getAllStudents`: every record, ordered by `slNo`. On a collection
      kept by this model's operations that is the storage order itself. */
  function AllStudents(rs: seq<Student>): (r: seq<Student>)
    ensures SortedBySlNo(r)
    ensures multiset(r) == multiset(rs)
    ensures TableInvariant(rs) ==> r == rs
  {
    assert TableInvariant(rs) ==> SortBySlNo(rs) == rs by {
      if TableInvariant(rs) { SortSortedIsIdentity(rs); }
    }
    SortBySlNo(rs)
  }

  /** `getStudentsByMarker(m)`: the records whose only marker is `m`, by `slNo`. */
  function StudentsByMarker(rs: seq<Student>, m: string): (r: seq<Student>)
    ensures SortedBySlNo(r)
    ensures multiset(r) == multiset(Filter(rs, SoleMarker(m)))
    ensures forall s :: s in r <==> s in rs && s.markers == [m]
    ensures TableInvariant(rs) ==> r == Filter(rs, SoleMarker(m))
  {
    var f := Filter(rs, SoleMarker(m));
    assert TableInvariant(rs) ==> SortBySlNo(f) == f by {
      if TableInvariant(rs) {
        FilterKeepsAscending(rs, SoleMarker(m));
        SortSortedIsIdentity(f);
      }
    }
    var r := SortBySlNo(f);
    assert forall s :: s in r <==> s in multiset(f);
    r
  }

  /** `getStudentsWithMultipleMarkers`: the records with more than one marker, by `slNo`. */
  function StudentsWithMultipleMarkers(rs: seq<Student>): (r: seq<Student>)
    ensures SortedBySlNo(r)
    ensures multiset(r) == multiset(Filter(rs, HasMultipleMarkers))
    ensures forall s :: s in r <==> s in rs && |s.markers| > 1
    ensures TableInvariant(rs) ==> r == Filter(rs, HasMultipleMarkers)
  {
    var f := Filter(rs, HasMultipleMarkers);
    assert TableInvariant(rs) ==> SortBySlNo(f) == f by {
      if TableInvariant(rs) {
        FilterKeepsAscending(rs, HasMultipleMarkers);
        SortSortedIsIdentity(f);
      }
    }
    var r := SortBySlNo(f);
    assert forall s :: s in r <==> s in multiset(f);
    r
  }

  /** `getAllNonMarkers`: the records with an empty marker list, by `slNo`. */
  function NonMarkers(rs: seq<Student>): (r: seq<Student>)
    ensures SortedBySlNo(r)
    ensures multiset(r) == multiset(Filter(rs, IsNonMarker))
    ensures forall s :: s in r <==> s in rs && s.markers == []
    ensures TableInvariant(rs) ==> r == Filter(rs, IsNonMarker)
  {
    var f := Filter(rs, IsNonMarker);
    assert TableInvariant(rs) ==> SortBySlNo(f) == f by {
      if TableInvariant(rs) {
        FilterKeepsAscending(rs, IsNonMarker);
        SortSortedIsIdentity(f);
      }
    }
    var r := SortBySlNo(f);
    assert forall s :: s in r <==> s in multiset(f);
    r
  }

  /** Every record falls in exactly one class: the single-marker list of its
      one marker, the multiple-marker list or the non-marker list; and it is
      in no other module's single-marker list. */
  lemma ClassesPartitionRecords(rs: seq<Student>, s: Student, m: string)
    requires s in rs
    ensures |s.markers| == 1 ==> s in StudentsByMarker(rs, s.markers[0])
    ensures HasSingleMarker(s) || s in StudentsWithMultipleMarkers(rs) || s in NonMarkers(rs)
    ensures !(s in StudentsWithMultipleMarkers(rs) && s in NonMarkers(rs))
    ensures s in StudentsByMarker(rs, m) ==> s !in StudentsWithMultipleMarkers(rs) && s !in NonMarkers(rs)
    ensures s in StudentsByMarker(rs, m) <==> s.markers == [m]
  {
  }

  /** The three classes together account for every record exactly once. */
  lemma {:induction false} ClassSizes(rs: seq<Student>)
    ensures |Filter(rs, HasSingleMarker)| + |Filter(rs, HasMultipleMarkers)| + |Filter(rs, IsNonMarker)| == |rs|
    ensures |Filter(rs, HasSingleMarker)| + |Filter(rs, HasMultipleMarkers)| == |Filter(rs, HasMarkers)|
  {
    if rs != [] {
      ClassSizes(rs[..|rs| - 1]);
    }
  }

  /** `findOne({emailId})`: the position of the first record in storage order
      with that email, if any. */
  function IndexOfEmail(rs: seq<Student>, email: string): (r: Option<nat>)
    ensures r.Some? ==> r.value < |rs| && rs[r.value].emailId == email
    ensures r.Some? ==> forall j :: 0 <= j < r.value ==> rs[j].emailId != email
    ensures r.None? <==> forall j :: 0 <= j < |rs| ==> rs[j].emailId != email
  {
    if rs == [] then None
    else if rs[0].emailId == email then Some(0)
    else match IndexOfEmail(rs[1..], email)
      case None => None
      case Some(k) => Some(k + 1)
  }

  /** `findByEmail`: the first record with that email, or nothing. */
  function FindByEmail(rs: seq<Student>, email: string): (r: Option<Student>)
    ensures r.Some? ==> r.value in rs && r.value.emailId == email
    ensures r.None? <==> forall s :: s in rs ==> s.emailId != email
  {
    match IndexOfEmail(rs, email)
    case None => None
    case Some(i) => Some(rs[i])
  }

  // ---------------------------------------------------------------------
  // Category-wise count (the $facet pipeline)
  // ---------------------------------------------------------------------

  /** One `{category, count}` document of the aggregation's output. */
  datatype Category = Category(category: string, count: nat)

  /** The `_id` of the group of records that have more than one marker. */
  const MultipleLabel: string := "Multiple"

  function Labels(gs: seq<Category>): set<string>
  {
    if gs == [] then {} else {gs[0].category} + Labels(gs[1..])
  }

  predicate DistinctLabels(gs: seq<Category>)
  {
    gs != [] ==> gs[0].category !in Labels(gs[1..]) && DistinctLabels(gs[1..])
  }

  predicate PositiveCounts(gs: seq<Category>)
  {
    forall i :: 0 <= i < |gs| ==> gs[i].count > 0
  }

  /** The sum of the counts of the entries labelled `c`. */
  function CountOf(gs: seq<Category>, c: string): nat
  {
    if gs == [] then 0 else (if gs[0].category == c then gs[0].count else 0) + CountOf(gs[1..], c)
  }

  /** The sum of all counts. */
  function Total(gs: seq<Category>): nat
  {
    if gs == [] then 0 else gs[0].count + Total(gs[1..])
  }

  lemma {:induction false} ConcatSums(a: seq<Category>, b: seq<Category>)
    ensures Total(a + b) == Total(a) + Total(b)
    ensures Labels(a + b) == Labels(a) + Labels(b)
    ensures forall c :: CountOf(a + b, c) == CountOf(a, c) + CountOf(b, c)
  {
    if a == [] {
      assert a + b == b;
    } else {
      ConcatSums(a[1..], b);
      assert (a + b)[1..] == a[1..] + b;
      assert (a + b)[0] == a[0];
    }
  }

  lemma {:induction false} CountOfLabels(gs: seq<Category>, c: string)
    requires PositiveCounts(gs)
    ensures CountOf(gs, c) > 0 <==> c in Labels(gs)
  {
    if gs != [] {
      CountOfLabels(gs[1..], c);
    }
  }

  /** `$group` step: count one more record under label `m`. */
  function Increment(gs: seq<Category>, m: string): seq<Category>
  {
    if gs == [] then [Category(m, 1)]
    else if gs[0].category == m then [gs[0].(count := gs[0].count + 1)] + gs[1..]
    else [gs[0]] + Increment(gs[1..], m)
  }

  lemma {:induction false} IncrementSpec(gs: seq<Category>, m: string)
    requires DistinctLabels(gs) && PositiveCounts(gs)
    ensures DistinctLabels(Increment(gs, m)) && PositiveCounts(Increment(gs, m))
    ensures Labels(Increment(gs, m)) == Labels(gs) + {m}
    ensures Total(Increment(gs, m)) == Total(gs) + 1
    ensures forall c :: CountOf(Increment(gs, m), c) == CountOf(gs, c) + (if c == m then 1 else 0)
  {
    if gs != [] {
      var r := Increment(gs, m);
      if gs[0].category == m {
        assert r[1..] == gs[1..];
        CountOfLabels(gs[1..], m);
      } else {
        IncrementSpec(gs[1..], m);
        assert r[1..] == Increment(gs[1..], m);
      }
    }
  }

  /** The `singleMarkers` facet: records with exactly one marker, grouped by it. */
  function GroupSoleMarkers(rs: seq<Student>): seq<Category>
  {
    if rs == [] then []
    else
      var g := GroupSoleMarkers(rs[..|rs| - 1]);
      var s := rs[|rs| - 1];
      if |s.markers| == 1 then Increment(g, s.markers[0]) else g
  }

  lemma {:induction false} GroupSoleMarkersSpec(rs: seq<Student>)
    ensures DistinctLabels(GroupSoleMarkers(rs)) && PositiveCounts(GroupSoleMarkers(rs))
    ensures forall c :: CountOf(GroupSoleMarkers(rs), c) == |Filter(rs, SoleMarker(c))|
    ensures Total(GroupSoleMarkers(rs)) == |Filter(rs, HasSingleMarker)|
  {
    if rs != [] {
      var init, s := rs[..|rs| - 1], rs[|rs| - 1];
      var g := GroupSoleMarkers(init);
      GroupSoleMarkersSpec(init);
      FilterLast(rs, HasSingleMarker);
      if |s.markers| == 1 {
        IncrementSpec(g, s.markers[0]);
      }
      forall c ensures CountOf(GroupSoleMarkers(rs), c) == |Filter(rs, SoleMarker(c))| {
        SoleMarkerLast(rs, c);
      }
    }
  }

  /** The last record adds one to the count of its only marker, if it has one. */
  lemma SoleMarkerLast(rs: seq<Student>, c: string)
    requires rs != []
    ensures |Filter(rs, SoleMarker(c))| == |Filter(rs[..|rs| - 1], SoleMarker(c))|
      + if |rs[|rs| - 1].markers| == 1 && rs[|rs| - 1].markers[0] == c then 1 else 0
  {
    var s := rs[|rs| - 1];
    FilterLast(rs, SoleMarker(c));
    assert SoleMarker(c)(s) <==> |s.markers| == 1 && s.markers[0] == c;
  }

  /** `getCategoryWiseCount`: one entry per marker that is some record's only
      marker, then one `"Multiple"` entry for the records with more than one
      marker when there are any. */
  function CategoryWiseCount(rs: seq<Student>): seq<Category>
  {
    var n := |Filter(rs, HasMultipleMarkers)|;
    GroupSoleMarkers(rs) + (if n > 0 then [Category(MultipleLabel, n)] else [])
  }

  /** The counts the aggregation reports: no entry has count 0; under each
      label, the number of records whose only marker it is (plus, under
      `"Multiple"`, the number of records with several markers); and the
      counts add up to the number of records that carry a marker. */
  lemma CategoryWiseCounts(rs: seq<Student>)
    ensures PositiveCounts(CategoryWiseCount(rs))
    ensures forall c :: (CountOf(CategoryWiseCount(rs), c)
      == |Filter(rs, SoleMarker(c))| + (if c == MultipleLabel then |Filter(rs, HasMultipleMarkers)| else 0))
    ensures Total(CategoryWiseCount(rs)) == |Filter(rs, HasMarkers)|
  {
    var g := GroupSoleMarkers(rs);
    var n := |Filter(rs, HasMultipleMarkers)|;
    var tail := if n > 0 then [Category(MultipleLabel, n)] else [];
    assert CategoryWiseCount(rs) == g + tail;
    GroupSoleMarkersSpec(rs);
    MultipleEntry(n);
    ConcatPositive(g, tail);
    ConcatSums(g, tail);
    ClassSizes(rs);
  }

  lemma ConcatPositive(a: seq<Category>, b: seq<Category>)
    requires PositiveCounts(a) && PositiveCounts(b)
    ensures PositiveCounts(a + b)
  {
    forall i | 0 <= i < |a + b| ensures (a + b)[i].count > 0 {
      if i >= |a| {
        assert (a + b)[i] == b[i - |a|];
      }
    }
  }

  /** The `multipleMarkers` facet's entry, present only when `n > 0`. */
  lemma MultipleEntry(n: nat)
    ensures var tail := if n > 0 then [Category(MultipleLabel, n)] else [];
      && PositiveCounts(tail) && Total(tail) == n
      && forall c :: CountOf(tail, c) == if c == MultipleLabel then n else 0
  {
    if n > 0 {
      var tail := [Category(MultipleLabel, n)];
      assert tail[1..] == [];
    }
  }

  /** A label appears in the aggregation's output exactly when it is some
      record's only marker, or it is `"Multiple"` and some record has
      several markers. */
  lemma CategoryWiseLabels(rs: seq<Student>)
    ensures forall c :: (c in Labels(CategoryWiseCount(rs))
      <==> |Filter(rs, SoleMarker(c))| > 0 || (c == MultipleLabel && |Filter(rs, HasMultipleMarkers)| > 0))
  {
    var r := CategoryWiseCount(rs);
    CategoryWiseCounts(rs);
    forall c ensures c in Labels(r) <==> CountOf(r, c) > 0 {
      CountOfLabels(r, c);
    }
  }

  /** Each label appears at most once, except `"Multiple"`, which appears
      twice when it is also some record's only marker. */
  lemma CategoryWiseDistinct(rs: seq<Student>)
    ensures forall i, j :: (0 <= i < j < |CategoryWiseCount(rs)| &&
      CategoryWiseCount(rs)[i].category == CategoryWiseCount(rs)[j].category
      ==> CategoryWiseCount(rs)[i].category == MultipleLabel)
  {
    var g := GroupSoleMarkers(rs);
    var n := |Filter(rs, HasMultipleMarkers)|;
    var tail := if n > 0 then [Category(MultipleLabel, n)] else [];
    var r := CategoryWiseCount(rs);
    assert r == g + tail;
    GroupSoleMarkersSpec(rs);
    forall i, j | 0 <= i < j < |r| && r[i].category == r[j].category
      ensures r[i].category == MultipleLabel
    {
      if j < |g| {
        assert r[i] == g[i] && r[j] == g[j];
        DistinctLabelsAt(g, i, j);
      } else {
        assert r[j] == tail[j - |g|];
      }
    }
  }

  lemma {:induction false} DistinctLabelsAt(gs: seq<Category>, i: nat, j: nat)
    requires DistinctLabels(gs) && i < j < |gs|
    ensures gs[i].category != gs[j].category
  {
    if i == 0 {
      LabelsContains(gs[1..], j - 1);
    } else {
      DistinctLabelsAt(gs[1..], i - 1, j - 1);
    }
  }

  lemma {:induction false} LabelsContains(gs: seq<Category>, k: nat)
    requires k < |gs|
    ensures gs[k].category in Labels(gs)
  {
    if k > 0 {
      LabelsContains(gs[1..], k - 1);
    }
  }

  // ---------------------------------------------------------------------
  // Transitions: what each mutating operation does to the records
  // ---------------------------------------------------------------------

  /** The largest `slNo`: the record `findOne({}, {sort: {slNo: -1}})` returns. */
  function MaxSlNo(rs: seq<Student>): (r: nat)
    requires rs != []
    ensures exists i :: 0 <= i < |rs| && rs[i].slNo == r
    ensures forall i :: 0 <= i < |rs| ==> rs[i].slNo <= r
  {
    if |rs| == 1 then rs[0].slNo
    else
      var m := MaxSlNo(rs[1..]);
      if rs[0].slNo >= m then rs[0].slNo else m
  }

  /** The serial number `addStudent` assigns: one more than the largest, or 1
      when the collection is empty. */
  function NextSlNo(rs: seq<Student>): (r: nat)
    ensures r >= 1
    ensures forall i :: 0 <= i < |rs| ==> rs[i].slNo < r
    ensures rs == [] ==> r == 1
    ensures rs != [] ==> exists i :: 0 <= i < |rs| && rs[i].slNo == r - 1
  {
    if rs == [] then 1 else MaxSlNo(rs) + 1
  }

  /** `addStudent({emailId, studentName, marker})`. */
  function WithStudent(rs: seq<Student>, emailId: string, studentName: string, marker: string): seq<Student>
  {
    rs + [Student(NextSlNo(rs), emailId, studentName, [marker])]
  }

  lemma {:induction false} IndexOfEmailAppend(rs: seq<Student>, s: Student, email: string)
    ensures IndexOfEmail(rs, email).Some? ==> IndexOfEmail(rs + [s], email) == IndexOfEmail(rs, email)
    ensures IndexOfEmail(rs, email).None? && s.emailId == email ==> IndexOfEmail(rs + [s], email) == Some(|rs|)
  {
    if rs != [] {
      IndexOfEmailAppend(rs[1..], s, email);
      assert (rs + [s])[1..] == rs[1..] + [s];
    }
  }

  /** `addStudent` appends one record and leaves the others as they were; the
      new record's only marker is the given one, and its `slNo` is 1 on an
      empty collection and one more than the largest otherwise. The table
      invariant is kept, and an email that was not found is found afterwards,
      at the new record. */
  lemma AddStudentSpec(rs: seq<Student>, emailId: string, studentName: string, marker: string)
    ensures |WithStudent(rs, emailId, studentName, marker)| == |rs| + 1
    ensures WithStudent(rs, emailId, studentName, marker)[..|rs|] == rs
    ensures WithStudent(rs, emailId, studentName, marker)[|rs|]
      == Student(if rs == [] then 1 else MaxSlNo(rs) + 1, emailId, studentName, [marker])
    ensures TableInvariant(rs) ==> TableInvariant(WithStudent(rs, emailId, studentName, marker))
    ensures FindByEmail(rs, emailId).None? ==>
      FindByEmail(WithStudent(rs, emailId, studentName, marker), emailId)
        == Some(WithStudent(rs, emailId, studentName, marker)[|rs|])
    ensures UniqueEmails(rs) && FindByEmail(rs, emailId).None? ==>
      UniqueEmails(WithStudent(rs, emailId, studentName, marker))
  {
    var s := Student(NextSlNo(rs), emailId, studentName, [marker]);
    var r := WithStudent(rs, emailId, studentName, marker);
    assert r[..|rs|] == rs && r[|rs|] == s;
    IndexOfEmailAppend(rs, s, emailId);
    if TableInvariant(rs) {
      AppendKeepsInvariant(rs, s);
    }
    if UniqueEmails(rs) && FindByEmail(rs, emailId).None? {
      AppendKeepsEmails(rs, s);
    }
  }

  lemma AppendKeepsEmails(rs: seq<Student>, s: Student)
    requires UniqueEmails(rs) && forall x :: x in rs ==> x.emailId != s.emailId
    ensures UniqueEmails(rs + [s])
  {
    var r := rs + [s];
    forall i, j | 0 <= i < j < |r| ensures r[i].emailId != r[j].emailId {
      if j == |rs| {
        assert r[i] in rs;
      } else {
        assert r[i] == rs[i] && r[j] == rs[j];
      }
    }
  }

  lemma AppendKeepsInvariant(rs: seq<Student>, s: Student)
    requires TableInvariant(rs)
    requires s.slNo == NextSlNo(rs) && |s.markers| == 1
    ensures TableInvariant(rs + [s])
  {
    var r := rs + [s];
    forall i, j | 0 <= i < j < |r| ensures r[i].slNo < r[j].slNo {
      if j == |rs| {
        assert r[i] == rs[i];
      } else {
        assert r[i] == rs[i] && r[j] == rs[j];
      }
    }
    forall i | 0 <= i < |r| ensures r[i].slNo >= 1 && NoDuplicates(r[i].markers) {
      if i < |rs| {
        assert r[i] == rs[i];
      }
    }
  }

  /** `$addToSet`: append `m` unless it is already there. */
  function AddToSet(xs: seq<string>, m: string): (r: seq<string>)
    ensures m in r
    ensures forall x :: x in r <==> x in xs || x == m
    ensures |r| == |xs| + (if m in xs then 0 else 1) && r[..|xs|] == xs
    ensures NoDuplicates(xs) ==> NoDuplicates(r)
  {
    if m in xs then xs else xs + [m]
  }

  /** `$pull`: delete every occurrence of `m`, keeping the rest in order. */
  function Pull(xs: seq<string>, m: string): (r: seq<string>)
    ensures m !in r
    ensures forall x :: x in r <==> x in xs && x != m
    ensures m !in xs ==> r == xs
    ensures |r| <= |xs|
  {
    if xs == [] then []
    else (if xs[0] == m then [] else [xs[0]]) + Pull(xs[1..], m)
  }

  /** `$pull` works entry by entry: pulling from a concatenation pulls from
      each part, so the kept entries stay in order with their repetitions. */
  lemma {:induction false} PullAppend(a: seq<string>, b: seq<string>, m: string)
    ensures Pull(a + b, m) == Pull(a, m) + Pull(b, m)
  {
    if a != [] {
      PullAppend(a[1..], b, m);
      MarkersConsAppend(a, b);
    } else {
      assert a + b == b;
    }
  }

  lemma MarkersConsAppend(a: seq<string>, b: seq<string>)
    requires a != []
    ensures (a + b)[0] == a[0] && (a + b)[1..] == a[1..] + b
  {
  }

  /** On a duplicate-free list, `$pull` removes exactly the one position
      holding `m`, and the list stays duplicate-free. */
  lemma {:induction false} PullOne(xs: seq<string>, m: string, i: nat)
    requires NoDuplicates(xs) && i < |xs| && xs[i] == m
    ensures Pull(xs, m) == xs[..i] + xs[i + 1..]
  {
    if i == 0 {
      assert m !in xs[1..];
    } else {
      PullOne(xs[1..], m, i - 1);
      assert xs[0] != m;
      assert xs[..i] == [xs[0]] + xs[1..][..i - 1];
      assert xs[i + 1..] == xs[1..][i..];
    }
  }

  lemma {:induction false} PullKeepsNoDuplicates(xs: seq<string>, m: string)
    requires NoDuplicates(xs)
    ensures NoDuplicates(Pull(xs, m))
  {
    if xs != [] {
      PullKeepsNoDuplicates(xs[1..], m);
      var rest := Pull(xs[1..], m);
      assert xs[0] !in xs[1..];
      assert xs[0] !in rest;
      if xs[0] != m {
        var r := Pull(xs, m);
        assert r == [xs[0]] + rest;
        forall i, j | 0 <= i < j < |r| ensures r[i] != r[j] {
          if i == 0 {
            assert r[j] == rest[j - 1];
          } else {
            assert r[i] == rest[i - 1] && r[j] == rest[j - 1];
          }
        }
      }
    }
  }

  /** `updateOne({emailId}, {$addToSet: {markers}})`. */
  function WithMarker(rs: seq<Student>, email: string, marker: string): seq<Student>
  {
    match IndexOfEmail(rs, email)
    case None => rs
    case Some(i) => rs[i := rs[i].(markers := AddToSet(rs[i].markers, marker))]
  }

  /** `updateOne({emailId}, {$pull: {markers}})`. */
  function WithoutMarker(rs: seq<Student>, email: string, marker: string): seq<Student>
  {
    match IndexOfEmail(rs, email)
    case None => rs
    case Some(i) => rs[i := rs[i].(markers := Pull(rs[i].markers, marker))]
  }

  /** `deleteMany({markers: {$size: 0}})`: what remains. */
  function WithoutNonMarkers(rs: seq<Student>): seq<Student>
  {
    Filter(rs, HasMarkers)
  }

  /** Changing the markers of one record keeps every email where it was. */
  lemma {:induction false} IndexOfEmailUpdate(rs: seq<Student>, i: nat, ms: seq<string>, email: string)
    requires i < |rs|
    ensures IndexOfEmail(rs[i := rs[i].(markers := ms)], email) == IndexOfEmail(rs, email)
  {
    if rs != [] && i > 0 {
      IndexOfEmailUpdate(rs[1..], i - 1, ms, email);
      assert rs[i := rs[i].(markers := ms)][1..] == rs[1..][i - 1 := rs[i].(markers := ms)];
    }
  }

  /** `addMarker(email, m)`: the first record with that email ends up carrying
      `m` (appended when it was missing), every other record is untouched,
      an unknown email changes nothing, applying it twice is applying it once,
      and the table invariant is kept. */
  lemma AddMarkerSpec(rs: seq<Student>, email: string, m: string)
    ensures |WithMarker(rs, email, m)| == |rs|
    ensures IndexOfEmail(rs, email).None? ==> WithMarker(rs, email, m) == rs
    ensures IndexOfEmail(rs, email).Some? ==>
      var i := IndexOfEmail(rs, email).value;
      && WithMarker(rs, email, m)[i] == rs[i].(markers := AddToSet(rs[i].markers, m))
      && m in WithMarker(rs, email, m)[i].markers
      && (forall j :: 0 <= j < |rs| && j != i ==> WithMarker(rs, email, m)[j] == rs[j])
    ensures IndexOfEmail(WithMarker(rs, email, m), email) == IndexOfEmail(rs, email)
    ensures WithMarker(WithMarker(rs, email, m), email, m) == WithMarker(rs, email, m)
    ensures TableInvariant(rs) ==> TableInvariant(WithMarker(rs, email, m))
    ensures UniqueEmails(rs) ==> UniqueEmails(WithMarker(rs, email, m))
  {
    match IndexOfEmail(rs, email)
    case None =>
    case Some(i) =>
      var ms := AddToSet(rs[i].markers, m);
      var r := WithMarker(rs, email, m);
      assert r == rs[i := rs[i].(markers := ms)];
      IndexOfEmailUpdate(rs, i, ms, email);
      assert r[i].markers == ms;
      IndexOfEmailUpdate(r, i, AddToSet(ms, m), email);
      assert r[i := r[i].(markers := AddToSet(ms, m))] == r;
      WithMarkerKeepsInvariant(rs, email, m);
  }

  lemma WithMarkerKeepsInvariant(rs: seq<Student>, email: string, m: string)
    ensures TableInvariant(rs) ==> TableInvariant(WithMarker(rs, email, m))
    ensures UniqueEmails(rs) ==> UniqueEmails(WithMarker(rs, email, m))
  {
    match IndexOfEmail(rs, email)
    case None =>
    case Some(i) =>
      var ms := AddToSet(rs[i].markers, m);
      if TableInvariant(rs) {
        SetMarkersKeepsInvariant(rs, i, ms);
      }
      SetMarkersKeepsEmails(rs, i, ms);
  }

  /** `removeMarker(email, m)`: the first record with that email no longer
      carries `m` and keeps its other markers in order, every other record is
      untouched, an unknown email or an absent marker changes nothing, and the
      table invariant is kept. */
  lemma RemoveMarkerSpec(rs: seq<Student>, email: string, m: string)
    ensures |WithoutMarker(rs, email, m)| == |rs|
    ensures IndexOfEmail(rs, email).None? ==> WithoutMarker(rs, email, m) == rs
    ensures IndexOfEmail(rs, email).Some? ==>
      var i := IndexOfEmail(rs, email).value;
      && WithoutMarker(rs, email, m)[i] == rs[i].(markers := Pull(rs[i].markers, m))
      && m !in WithoutMarker(rs, email, m)[i].markers
      && (m !in rs[i].markers ==> WithoutMarker(rs, email, m) == rs)
      && (forall j :: 0 <= j < |rs| && j != i ==> WithoutMarker(rs, email, m)[j] == rs[j])
    ensures IndexOfEmail(WithoutMarker(rs, email, m), email) == IndexOfEmail(rs, email)
    ensures TableInvariant(rs) ==> TableInvariant(WithoutMarker(rs, email, m))
    ensures UniqueEmails(rs) ==> UniqueEmails(WithoutMarker(rs, email, m))
  {
    match IndexOfEmail(rs, email)
    case None =>
    case Some(i) =>
      var ms := Pull(rs[i].markers, m);
      assert WithoutMarker(rs, email, m) == rs[i := rs[i].(markers := ms)];
      IndexOfEmailUpdate(rs, i, ms, email);
      if m !in rs[i].markers {
        assert rs[i].(markers := ms) == rs[i];
      }
      WithoutMarkerKeepsInvariant(rs, email, m);
  }

  lemma WithoutMarkerKeepsInvariant(rs: seq<Student>, email: string, m: string)
    ensures TableInvariant(rs) ==> TableInvariant(WithoutMarker(rs, email, m))
    ensures UniqueEmails(rs) ==> UniqueEmails(WithoutMarker(rs, email, m))
  {
    match IndexOfEmail(rs, email)
    case None =>
    case Some(i) =>
      var ms := Pull(rs[i].markers, m);
      if TableInvariant(rs) {
        PullKeepsNoDuplicates(rs[i].markers, m);
        SetMarkersKeepsInvariant(rs, i, ms);
      }
      SetMarkersKeepsEmails(rs, i, ms);
  }

  /** Replacing one record's markers by a duplicate-free list keeps the table invariant. */
  lemma SetMarkersKeepsInvariant(rs: seq<Student>, i: nat, ms: seq<string>)
    requires TableInvariant(rs) && i < |rs| && NoDuplicates(ms)
    ensures TableInvariant(rs[i := rs[i].(markers := ms)])
  {
    var r := rs[i := rs[i].(markers := ms)];
    assert forall k :: 0 <= k < |r| ==> r[k].slNo == rs[k].slNo;
    forall k | 0 <= k < |r| ensures NoDuplicates(r[k].markers) {
      if k != i {
        assert r[k] == rs[k];
      }
    }
  }

  /** Replacing one record's markers keeps every email in place. */
  lemma SetMarkersKeepsEmails(rs: seq<Student>, i: nat, ms: seq<string>)
    requires i < |rs|
    ensures UniqueEmails(rs) ==> UniqueEmails(rs[i := rs[i].(markers := ms)])
  {
    var r := rs[i := rs[i].(markers := ms)];
    assert forall k :: 0 <= k < |r| ==> r[k].emailId == rs[k].emailId;
  }

  /** Removing a record's only marker: the record was in that marker's
      single-marker list, and with its markers emptied it is now in the
      non-marker list. */
  lemma RemoveOnlyMarker(rs: seq<Student>, email: string, m: string)
    requires FindByEmail(rs, email).Some? && FindByEmail(rs, email).value.markers == [m]
    ensures FindByEmail(rs, email).value in StudentsByMarker(rs, m)
    ensures FindByEmail(rs, email).value.(markers := []) in NonMarkers(WithoutMarker(rs, email, m))
  {
    var i := IndexOfEmail(rs, email).value;
    RemoveMarkerSpec(rs, email, m);
    assert WithoutMarker(rs, email, m)[i] == rs[i].(markers := []);
  }

  /** On a collection kept by the model's operations (distinct serial
      numbers), the record no longer appears in its former marker's list. */
  lemma RemoveOnlyMarkerLeavesList(rs: seq<Student>, email: string, m: string)
    requires TableInvariant(rs)
    requires FindByEmail(rs, email).Some? && FindByEmail(rs, email).value.markers == [m]
    ensures FindByEmail(rs, email).value !in StudentsByMarker(WithoutMarker(rs, email, m), m)
    ensures FindByEmail(rs, email).value !in WithoutMarker(rs, email, m)
    ensures |NonMarkers(WithoutMarker(rs, email, m))| == |NonMarkers(rs)| + 1
  {
    var i := IndexOfEmail(rs, email).value;
    var s := rs[i];
    var after := WithoutMarker(rs, email, m);
    RemoveMarkerSpec(rs, email, m);
    assert after == rs[i := s.(markers := [])];
    CountUpdate(rs, i, s.(markers := []), IsNonMarker);
    FilterCount(rs, IsNonMarker);
    FilterCount(after, IsNonMarker);
    forall j | 0 <= j < |after| ensures after[j] != s {
      if j == i {
        assert after[j].markers == [];
      } else {
        assert after[j] == rs[j];
        assert rs[j].slNo != s.slNo;
      }
    }
  }

  /** `deleteAllNonMarkers`: afterwards no record has an empty marker list,
      every record with a marker survives unchanged and in order, the number
      removed is the number of non-marker records, and the table invariant is
      kept. */
  lemma DeleteNonMarkersSpec(rs: seq<Student>)
    ensures forall s :: s in WithoutNonMarkers(rs) ==> |s.markers| >= 1
    ensures forall s :: s in rs && |s.markers| >= 1 ==> s in WithoutNonMarkers(rs)
    ensures forall s :: s in WithoutNonMarkers(rs) ==> s in rs
    ensures |rs| - |WithoutNonMarkers(rs)| == |NonMarkers(rs)|
    ensures NonMarkers(WithoutNonMarkers(rs)) == []
    ensures (forall s :: s in rs ==> |s.markers| >= 1) ==> WithoutNonMarkers(rs) == rs
    ensures TableInvariant(rs) ==> TableInvariant(WithoutNonMarkers(rs))
  {
    DeletedCount(rs);
    NothingLeftToDelete(rs);
    if forall s :: s in rs ==> |s.markers| >= 1 {
      FilterAll(rs, HasMarkers);
    }
    if TableInvariant(rs) {
      DeleteKeepsInvariant(rs);
    }
  }

  lemma DeletedCount(rs: seq<Student>)
    ensures |rs| - |WithoutNonMarkers(rs)| == |NonMarkers(rs)|
  {
    ClassSizes(rs);
    assert |NonMarkers(rs)| == |multiset(NonMarkers(rs))| == |Filter(rs, IsNonMarker)|;
  }

  lemma NothingLeftToDelete(rs: seq<Student>)
    ensures NonMarkers(WithoutNonMarkers(rs)) == []
  {
    var r := WithoutNonMarkers(rs);
    FilterNone(r, IsNonMarker);
    assert multiset(NonMarkers(r)) == multiset{};
  }

  lemma DeleteKeepsInvariant(rs: seq<Student>)
    requires TableInvariant(rs)
    ensures TableInvariant(WithoutNonMarkers(rs))
  {
    FilterKeepsAscending(rs, HasMarkers);
    var r := WithoutNonMarkers(rs);
    forall i | 0 <= i < |r| ensures r[i].slNo >= 1 && NoDuplicates(r[i].markers) {
      assert r[i] in rs;
    }
  }

  // ---------------------------------------------------------------------
  // The collection, updated in place
  // ---------------------------------------------------------------------

  /** The students collection behind `StudentModel`. */
  class StudentTable {
    var records: seq<Student>

    ghost predicate Valid()
      reads this
    {
      TableInvariant(records)
    }

    /** An empty collection. */
    constructor ()
      ensures Valid() && records == []
    {
      records := [];
    }

    /** `addStudent`: inserts a record whose only marker is `marker`, with the next serial number. */
    method AddStudent(emailId: string, studentName: string, marker: string)
      requires Valid()
      modifies this
      ensures Valid()
      ensures records == WithStudent(old(records), emailId, studentName, marker)
    {
      AddStudentSpec(records, emailId, studentName, marker);
      var next := NextSlNo(records);
      records := records + [Student(next, emailId, studentName, [marker])];
    }

    /** `addMarker`: adds `marker` to the first record with that email, if it lacks it. */
    method AddMarker(email: string, marker: string)
      requires Valid()
      modifies this
      ensures Valid()
      ensures records == WithMarker(old(records), email, marker)
    {
      AddMarkerSpec(records, email, marker);
      var found := IndexOfEmail(records, email);
      if found.Some? {
        var i := found.value;
        records := records[i := records[i].(markers := AddToSet(records[i].markers, marker))];
      }
    }

    /** `removeMarker`: deletes `marker` from the first record with that email. */
    method RemoveMarker(email: string, marker: string)
      requires Valid()
      modifies this
      ensures Valid()
      ensures records == WithoutMarker(old(records), email, marker)
    {
      RemoveMarkerSpec(records, email, marker);
      var found := IndexOfEmail(records, email);
      if found.Some? {
        var i := found.value;
        records := records[i := records[i].(markers := Pull(records[i].markers, marker))];
      }
    }

    /** `deleteAllNonMarkers`: deletes every record without markers and reports how many. */
    method DeleteAllNonMarkers() returns (deletedCount: nat)
      requires Valid()
      modifies this
      ensures Valid()
      ensures records == WithoutNonMarkers(old(records))
      ensures deletedCount == |NonMarkers(old(records))|
    {
      DeleteNonMarkersSpec(records);
      var kept := Filter(records, HasMarkers);
      deletedCount := |records| - |kept|;
      records := kept;
    }
  }
}
