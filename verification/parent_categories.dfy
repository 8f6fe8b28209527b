/** The get_parent_categories webservice: the top-level course categories
    the user may view, each with the booking activities below it, headed by
    a summary row when no category is asked for. */
module ParentCategories {
  import opened Outcomes
  import opened MoodleTables
  import opened CourseCategories

  /** A row of the webservice result. The summary row has id 0, context 1,
      an empty path and an empty json, and carries localised name and
      description strings, which are not modelled. CountOnly is the row PHP
      creates by assigning a course count to index 0 of an empty result:
      every other field takes its declared default. */
  datatype Row =
    | Summary(coursecount: int)
    | CategoryRow(record: CategoryRecord, coursecount: int, booking: Option<seq<BookingInfo>>)
    | CountOnly(coursecount: int)

  /** The records on whose category context the user holds the view
      capability; canView holds the ids of those categories. */
  function Visible(records: seq<CategoryRecord>, canView: set<int>): (r: seq<CategoryRecord>)
    ensures |r| <= |records|
    ensures forall k :: 0 <= k < |r| ==> r[k] in records && r[k].id in canView
    ensures forall x :: x in records && x.id in canView ==> x in r
    ensures DistinctRecordIds(records) ==> DistinctRecordIds(r)
  {
    if |records| == 0 then []
    else
      var rest := Visible(records[1..], canView);
      assert forall x :: x in records <==> x == records[0] || x in records[1..];
      if records[0].id in canView then
        VisibleStepDistinct(records, rest);
        [records[0]] + rest
      else rest
  }

  /** Records kept from the tail do not share the head's id, when no two
      records do. */
  lemma VisibleStepDistinct(records: seq<CategoryRecord>, rest: seq<CategoryRecord>)
    requires |records| > 0
    requires forall k :: 0 <= k < |rest| ==> rest[k] in records[1..]
    requires DistinctRecordIds(records[1..]) ==> DistinctRecordIds(rest)
    ensures DistinctRecordIds(records) ==> DistinctRecordIds([records[0]] + rest)
  {
    if DistinctRecordIds(records) {
      var tail := records[1..];
      assert DistinctRecordIds(tail);
      forall k | 0 <= k < |rest|
        ensures rest[k].id != records[0].id
      {
        assert rest[k] in tail;
        var m :| 0 <= m < |tail| && tail[m] == rest[k];
        assert records[m + 1] == rest[k];
      }
      PrependKeepsDistinct(records[0], rest);
    }
  }


  /** The filter keeps input order: filtering a concatenation concatenates
      the filtered parts. */
  lemma {:induction false} VisibleDistributes(a: seq<CategoryRecord>, b: seq<CategoryRecord>, canView: set<int>)
    ensures Visible(a + b, canView) == Visible(a, canView) + Visible(b, canView)
  {
    if |a| > 0 {
      assert (a + b)[0] == a[0];
      assert (a + b)[1..] == a[1..] + b;
      VisibleDistributes(a[1..], b, canView);
    } else {
      assert a + b == b;
    }
  }

  /** A record the user may not view is skipped entirely: wherever it
      stands, the visible records, and so their total, are those of the
      list without it. */
  lemma HiddenRecordIsSkipped(a: seq<CategoryRecord>, rec: CategoryRecord, b: seq<CategoryRecord>, canView: set<int>)
    requires rec.id !in canView
    ensures Visible(a + [rec] + b, canView) == Visible(a + b, canView)
    ensures TotalCourses(Visible(a + [rec] + b, canView)) == TotalCourses(Visible(a + b, canView))
  {
    var one := [rec];
    assert Visible(one, canView) == [] by {
      assert one[1..] == [];
    }
    VisibleDistributes(a, one, canView);
    VisibleDistributes(a + one, b, canView);
    VisibleDistributes(a, b, canView);
    assert Visible(a + one, canView) == Visible(a, canView);
  }

  /** The summed course count of the records. */
  function TotalCourses(records: seq<CategoryRecord>): int {
    if |records| == 0 then 0 else records[0].coursecount + TotalCourses(records[1..])
  }

  /** The total of a concatenation is the sum of the totals. */
  lemma {:induction false} TotalCoursesAppend(a: seq<CategoryRecord>, b: seq<CategoryRecord>)
    ensures TotalCourses(a + b) == TotalCourses(a) + TotalCourses(b)
    decreases |a|
  {
    if |a| > 0 {
      assert (a + b)[1..] == a[1..] + b;
      TotalCoursesAppend(a[1..], b);
    } else {
      assert a + b == b;
    }
  }

  /** The row for a record: the record with its own course count, and its
      booking information as json exactly when some booking activity lies
      below its context. */
  predicate RowFor(db: BookingDb, row: Row, rec: CategoryRecord) {
    && row.CategoryRow?
    && row.record == rec
    && rec.contextid != 0
    && (row.booking.Some? <==> HasBookingActivity(db, rec.contextid))
    && (row.booking.Some? ==> row.booking.value == BookingInformation(db, rec.contextid).value)
  }

  /** The rows of the records, one each and in order, with their own counts. */
  predicate RowsOf(db: BookingDb, rows: seq<Row>, visible: seq<CategoryRecord>) {
    && |rows| == |visible|
    && forall k :: 0 <= k < |visible| ==>
         RowFor(db, rows[k], visible[k]) && rows[k].coursecount == visible[k].coursecount
  }

  /** The row of the first record before the rows of the others. */
  lemma PrependRow(db: BookingDb, row: Row, records: seq<CategoryRecord>, rest: seq<Row>)
    requires |records| > 0
    requires RowFor(db, row, records[0]) && row.coursecount == records[0].coursecount
    requires RowsOf(db, rest, records[1..])
    ensures RowsOf(db, [row] + rest, records)
  {
    var r := [row] + rest;
    assert forall k :: 1 <= k < |records| ==> records[k] == records[1..][k - 1] && r[k] == rest[k - 1];
  }

  /** The loop over the visible records; the booking query of a record with
      context id 0 fails and so does the whole call. */
  function CategoryRows(db: BookingDb, records: seq<CategoryRecord>): (r: Result<seq<Row>, QueryError>)
    ensures r.Failure? <==> exists k :: 0 <= k < |records| && records[k].contextid == 0
    ensures r.Success? ==> RowsOf(db, r.value, records)
  {
    if |records| == 0 then Success([])
    else
      var rec := records[0];
      var info :- BookingInformation(db, rec.contextid);
      var rest :- CategoryRows(db, records[1..]);
      var row := CategoryRow(rec, rec.coursecount, if |info| > 0 then Some(info) else None);
      PrependRow(db, row, records, rest);
      Success([row] + rest)
  }

  /** The categories the webservice lists: the top-level categories (and
      only the asked-for one, when an id is given) that the user may view. */
  function VisibleCategories(categories: seq<Category>, contexts: seq<Context>, canView: set<int>, coursecategoryid: int): seq<CategoryRecord> {
    Visible(ReturnCourseCategories(categories, contexts, coursecategoryid, true), canView)
  }

  /** The result built from the visible records: a summary row heading the
      category rows when no category is asked for, and the total course
      count written over the count of the first row. */
  function Assemble(db: BookingDb, visible: seq<CategoryRecord>, coursecategoryid: int): (r: Result<seq<Row>, QueryError>)
    ensures r.Failure? <==> exists k :: 0 <= k < |visible| && visible[k].contextid == 0
    ensures r.Success? ==> |r.value| > 0 && r.value[0].coursecount == TotalCourses(visible)
    ensures r.Success? && coursecategoryid == 0 ==>
      && r.value[0] == Summary(TotalCourses(visible))
      && |r.value| == |visible| + 1
      && forall k :: 0 <= k < |visible| ==>
           RowFor(db, r.value[k + 1], visible[k]) && r.value[k + 1].coursecount == visible[k].coursecount
    ensures r.Success? && coursecategoryid != 0 ==>
      if |visible| == 0 then r.value == [CountOnly(0)]
      else
        && |r.value| == |visible|
        && forall k :: 0 <= k < |visible| ==>
             RowFor(db, r.value[k], visible[k]) && (k > 0 ==> r.value[k].coursecount == visible[k].coursecount)
  {
    var total := TotalCourses(visible);
    var rows :- CategoryRows(db, visible);
    if coursecategoryid == 0 then
      SummaryKeepsRows(db, rows, visible, total);
      Success([Summary(total)] + rows)
    else if |rows| == 0 then Success([CountOnly(total)])
    else
      OverwriteKeepsRows(db, rows, visible, total);
      Success([rows[0].(coursecount := total)] + rows[1..])
  }

  /** A summary row put in front shifts the category rows by one. */
  lemma SummaryKeepsRows(db: BookingDb, rows: seq<Row>, visible: seq<CategoryRecord>, total: int)
    requires RowsOf(db, rows, visible)
    ensures var r := [Summary(total)] + rows;
      && |r| == |visible| + 1
      && forall k :: 0 <= k < |visible| ==>
           RowFor(db, r[k + 1], visible[k]) && r[k + 1].coursecount == visible[k].coursecount
  {
    var r := [Summary(total)] + rows;
    assert forall k :: 0 <= k < |visible| ==> r[k + 1] == rows[k];
  }

  /** Writing the total over the first row's count keeps every row the row of
      its record, and every later row its own count. */
  lemma OverwriteKeepsRows(db: BookingDb, rows: seq<Row>, visible: seq<CategoryRecord>, total: int)
    requires RowsOf(db, rows, visible) && |rows| > 0
    ensures var r := [rows[0].(coursecount := total)] + rows[1..];
      && |r| == |visible|
      && forall k :: 0 <= k < |visible| ==>
           RowFor(db, r[k], visible[k]) && (k > 0 ==> r[k].coursecount == visible[k].coursecount)
  {
    var r := [rows[0].(coursecount := total)] + rows[1..];
    assert forall k :: 1 <= k < |visible| ==> r[k] == rows[k];
  }

  /** get_parent_categories::execute. */
  function Execute(categories: seq<Category>, contexts: seq<Context>, db: BookingDb, canView: set<int>, coursecategoryid: int): (r: Result<seq<Row>, QueryError>)
    ensures var visible := VisibleCategories(categories, contexts, canView, coursecategoryid);
      && (r.Failure? <==> exists k :: 0 <= k < |visible| && visible[k].contextid == 0)
      && (r.Success? ==> |r.value| > 0 && r.value[0].coursecount == TotalCourses(visible))
      && (r.Success? && coursecategoryid == 0 ==>
            && r.value[0] == Summary(TotalCourses(visible))
            && |r.value| == |visible| + 1
            && forall k :: 0 <= k < |visible| ==>
                 RowFor(db, r.value[k + 1], visible[k]) && r.value[k + 1].coursecount == visible[k].coursecount)
      && (r.Success? && coursecategoryid != 0 ==>
            if |visible| == 0 then r.value == [CountOnly(0)]
            else
              && |r.value| == |visible|
              && forall k :: 0 <= k < |visible| ==>
                   RowFor(db, r.value[k], visible[k]) && (k > 0 ==> r.value[k].coursecount == visible[k].coursecount))
  {
    Assemble(db, VisibleCategories(categories, contexts, canView, coursecategoryid), coursecategoryid)
  }

  /** The index of the visible record a category row of the result shows. */
  function RecordIndex(coursecategoryid: int, k: int): int {
    if coursecategoryid == 0 then k - 1 else k
  }

  /** Every category row of the result shows a visible record, in order. */
  lemma RowsShowVisible(db: BookingDb, visible: seq<CategoryRecord>, coursecategoryid: int)
    requires Assemble(db, visible, coursecategoryid).Success?
    ensures var rows := Assemble(db, visible, coursecategoryid).value;
      && (forall k :: 0 <= k < |rows| && rows[k].CategoryRow? ==>
            0 <= RecordIndex(coursecategoryid, k) < |visible| && rows[k].record == visible[RecordIndex(coursecategoryid, k)])
      && (forall j :: 0 <= j < |visible| ==>
            var k := if coursecategoryid == 0 then j + 1 else j;
            0 <= k < |rows| && rows[k].CategoryRow? && rows[k].record == visible[j])
  {
    var rows := Assemble(db, visible, coursecategoryid).value;
    if coursecategoryid == 0 {
      assert rows[0] == Summary(TotalCourses(visible));
    } else if |visible| == 0 {
      assert rows == [CountOnly(0)];
    }
  }

  /** Every visible record is a viewable top-level category, the asked-for
      one when an id is given, and no category is listed twice. */
  lemma VisibleAreViewableTopCategories(categories: seq<Category>, contexts: seq<Context>, canView: set<int>, coursecategoryid: int)
    ensures var visible := VisibleCategories(categories, contexts, canView, coursecategoryid);
      forall j :: 0 <= j < |visible| ==>
        && visible[j].id in canView
        && (coursecategoryid != 0 ==> visible[j].id == coursecategoryid)
        && exists c :: c in categories && c.id == visible[j].id && c.parent == 0
    ensures DistinctCategoryIds(categories) ==> DistinctRecordIds(VisibleCategories(categories, contexts, canView, coursecategoryid))
  {
    var recs := ReturnCourseCategories(categories, contexts, coursecategoryid, true);
    var visible := Visible(recs, canView);
    assert DistinctCategoryIds(categories) ==> DistinctRecordIds(recs);
    assert visible == VisibleCategories(categories, contexts, canView, coursecategoryid);
    forall j | 0 <= j < |visible|
      ensures visible[j].id in canView
      ensures coursecategoryid != 0 ==> visible[j].id == coursecategoryid
      ensures exists c :: c in categories && c.id == visible[j].id && c.parent == 0
    {
      var v := visible[j];
      assert v in recs;
      var i :| 0 <= i < |recs| && recs[i] == v;
      var c := SourceOf(recs, categories, contexts, coursecategoryid, true, i);
      assert c.id == v.id && c.parent == 0;
    }
  }

  /** Every viewable top-level category with a category context is visible,
      when it is the asked-for one or no id is given. */
  lemma ViewableTopCategoriesAreVisible(categories: seq<Category>, contexts: seq<Context>, canView: set<int>, coursecategoryid: int)
    ensures var visible := VisibleCategories(categories, contexts, canView, coursecategoryid);
      forall c :: (c in categories && c.parent == 0 && c.id in canView &&
        (coursecategoryid == 0 || c.id == coursecategoryid) && CategoryContext(contexts, c.id).Some?) ==>
        exists j :: 0 <= j < |visible| && visible[j].id == c.id
  {
    var recs := ReturnCourseCategories(categories, contexts, coursecategoryid, true);
    var visible := Visible(recs, canView);
    assert visible == VisibleCategories(categories, contexts, canView, coursecategoryid);
    forall c | c in categories && c.parent == 0 && c.id in canView &&
        (coursecategoryid == 0 || c.id == coursecategoryid) && CategoryContext(contexts, c.id).Some?
      ensures exists j :: 0 <= j < |visible| && visible[j].id == c.id
    {
      var rec := ToRecord(c, CategoryContext(contexts, c.id).value);
      assert rec in recs;
      assert rec in visible;
      var j :| 0 <= j < |visible| && visible[j] == rec;
    }
  }
}
