/** The two queries of classes/coursecategories.php: the course categories
    with their category context, and the per-booking-module counts of options
    and answers below a category context.

    Each table is a sequence of rows (or a map keyed by its primary key); a
    query result keeps the order of the table it walks. SQL NULL is None. */
module CourseCategories {
  import opened Outcomes
  import opened MoodleTables
  import PhpStrings

  const CategoryContextLevel := 40
  const ModuleContextLevel := 70
  const BookingModuleName := "booking"

  /* booking_answers.waitinglist states. */
  const Booked := 0
  const OnWaitingList := 1
  const Reserved := 2

  /** A row of course_categories. */
  datatype Category = Category(id: int, name: string, description: string, path: string, coursecount: int, parent: int)

  /** A row of the category query. */
  datatype CategoryRecord = CategoryRecord(id: int, name: string, description: string, path: string, coursecount: int, contextid: int)

  // ---------------------------------------------------------------------
  // Course categories

  /** The id of the category's context: the context at level 40 whose
      instance is the category (the first such, should there be several). */
  function CategoryContext(contexts: seq<Context>, categoryid: int): (r: Option<int>)
    ensures r.None? <==> forall i :: 0 <= i < |contexts| ==>
      !(contexts[i].instanceid == categoryid && contexts[i].contextlevel == CategoryContextLevel)
    ensures r.Some? ==> exists i :: (0 <= i < |contexts| && contexts[i].id == r.value &&
      contexts[i].instanceid == categoryid && contexts[i].contextlevel == CategoryContextLevel)
  {
    if |contexts| == 0 then None
    else if contexts[0].instanceid == categoryid && contexts[0].contextlevel == CategoryContextLevel then Some(contexts[0].id)
    else
      var rest := CategoryContext(contexts[1..], categoryid);
      assert forall i :: 1 <= i < |contexts| ==> contexts[i] == contexts[1..][i - 1];
      rest
  }

  /** The WHERE clause: a non-zero categoryid selects that category,
      onlyparents selects top-level categories, and both together select
      their conjunction. With neither, every category is selected. */
  predicate Selected(c: Category, categoryid: int, onlyparents: bool) {
    (categoryid == 0 || c.id == categoryid) && (!onlyparents || c.parent == 0)
  }

  function ToRecord(c: Category, contextid: int): CategoryRecord {
    CategoryRecord(c.id, c.name, c.description, c.path, c.coursecount, contextid)
  }

  /** The category a record was read from: selected, with a category context,
      whose id the record carries. */
  predicate RecordOf(r: CategoryRecord, c: Category, contexts: seq<Context>, categoryid: int, onlyparents: bool) {
    && Selected(c, categoryid, onlyparents)
    && CategoryContext(contexts, c.id).Some?
    && r == ToRecord(c, CategoryContext(contexts, c.id).value)
  }

  /** The records of the selected categories that have a category context. */
  function SelectedRecords(categories: seq<Category>, contexts: seq<Context>, categoryid: int, onlyparents: bool): set<CategoryRecord> {
    set c | c in categories && Selected(c, categoryid, onlyparents) && CategoryContext(contexts, c.id).Some? ::
      ToRecord(c, CategoryContext(contexts, c.id).value)
  }

  /** Every record was read from a selected category. */
  predicate FromSelected(recs: seq<CategoryRecord>, categories: seq<Category>, contexts: seq<Context>, categoryid: int, onlyparents: bool) {
    forall k :: 0 <= k < |recs| ==> recs[k] in SelectedRecords(categories, contexts, categoryid, onlyparents)
  }

  /** The category the k-th record was read from. */
  lemma SourceOf(recs: seq<CategoryRecord>, categories: seq<Category>, contexts: seq<Context>, categoryid: int, onlyparents: bool, k: int)
      returns (c: Category)
    requires FromSelected(recs, categories, contexts, categoryid, onlyparents) && 0 <= k < |recs|
    ensures c in categories && RecordOf(recs[k], c, contexts, categoryid, onlyparents)
  {
    var rec := recs[k];
    assert rec in SelectedRecords(categories, contexts, categoryid, onlyparents);
    c :| c in categories && Selected(c, categoryid, onlyparents) && CategoryContext(contexts, c.id).Some? &&
      rec == ToRecord(c, CategoryContext(contexts, c.id).value);
  }

  /** No two records share a category id. */
  predicate DistinctRecordIds(records: seq<CategoryRecord>) {
    forall i, j :: 0 <= i < j < |records| ==> records[i].id != records[j].id
  }

  /** No two categories share an id: the primary key of course_categories. */
  predicate DistinctCategoryIds(categories: seq<Category>) {
    forall i, j :: 0 <= i < j < |categories| ==> categories[i].id != categories[j].id
  }

  /** The course categories the query returns, with their context ids.
      get_records_sql keys the result by the category id, so each category
      appears at most once. */
  function ReturnCourseCategories(categories: seq<Category>, contexts: seq<Context>, categoryid: int, onlyparents: bool): (r: seq<CategoryRecord>)
    ensures |r| <= |categories|
    ensures FromSelected(r, categories, contexts, categoryid, onlyparents)
    ensures forall c :: c in categories && Selected(c, categoryid, onlyparents) && CategoryContext(contexts, c.id).Some? ==>
      ToRecord(c, CategoryContext(contexts, c.id).value) in r
    ensures forall k :: 0 <= k < |r| ==> categoryid != 0 ==> r[k].id == categoryid
    ensures DistinctCategoryIds(categories) ==> DistinctRecordIds(r)
  {
    if |categories| == 0 then []
    else
      var rest := ReturnCourseCategories(categories[1..], contexts, categoryid, onlyparents);
      CategoryStepSound(categories, contexts, categoryid, onlyparents, rest);
      CategoryStepComplete(categories, contexts, categoryid, onlyparents, rest);
      CategoryStepDistinct(categories, contexts, categoryid, onlyparents, rest);
      WithCategory(categories[0], contexts, categoryid, onlyparents, rest)
  }

  /** The result for a list of categories from the result for its tail:
      the head category's record first, when the query keeps it. */
  function WithCategory(c: Category, contexts: seq<Context>, categoryid: int, onlyparents: bool, rest: seq<CategoryRecord>): (r: seq<CategoryRecord>)
    ensures |r| <= |rest| + 1
    ensures categoryid != 0 && (forall k :: 0 <= k < |rest| ==> rest[k].id == categoryid) ==>
      forall k :: 0 <= k < |r| ==> r[k].id == categoryid
  {
    match CategoryContext(contexts, c.id)
    case Some(ctx) => if Selected(c, categoryid, onlyparents) then [ToRecord(c, ctx)] + rest else rest
    case None => rest
  }

  lemma CategoryStepSound(categories: seq<Category>, contexts: seq<Context>, categoryid: int, onlyparents: bool, rest: seq<CategoryRecord>)
    requires |categories| > 0
    requires FromSelected(rest, categories[1..], contexts, categoryid, onlyparents)
    ensures var r := WithCategory(categories[0], contexts, categoryid, onlyparents, rest);
      FromSelected(r, categories, contexts, categoryid, onlyparents)
  {
    var c := categories[0];
    var r := WithCategory(c, contexts, categoryid, onlyparents, rest);
    var all := SelectedRecords(categories, contexts, categoryid, onlyparents);
    SelectedRecordsOfTail(categories, contexts, categoryid, onlyparents);
    if CategoryContext(contexts, c.id).Some? && Selected(c, categoryid, onlyparents) {
      var head := ToRecord(c, CategoryContext(contexts, c.id).value);
      assert r == [head] + rest;
      assert head in all by {
        assert c in categories;
      }
      assert forall k :: 1 <= k < |r| ==> r[k] == rest[k - 1];
    }
  }

  /** The records selected from a tail are among those of the whole list. */
  lemma SelectedRecordsOfTail(categories: seq<Category>, contexts: seq<Context>, categoryid: int, onlyparents: bool)
    requires |categories| > 0
    ensures SelectedRecords(categories[1..], contexts, categoryid, onlyparents) <= SelectedRecords(categories, contexts, categoryid, onlyparents)
  {
    forall rec | rec in SelectedRecords(categories[1..], contexts, categoryid, onlyparents)
      ensures rec in SelectedRecords(categories, contexts, categoryid, onlyparents)
    {
      var d :| d in categories[1..] && Selected(d, categoryid, onlyparents) && CategoryContext(contexts, d.id).Some? &&
        rec == ToRecord(d, CategoryContext(contexts, d.id).value);
      assert d in categories;
    }
  }

  lemma CategoryStepComplete(categories: seq<Category>, contexts: seq<Context>, categoryid: int, onlyparents: bool, rest: seq<CategoryRecord>)
    requires |categories| > 0
    requires forall c :: c in categories[1..] && Selected(c, categoryid, onlyparents) && CategoryContext(contexts, c.id).Some? ==>
      ToRecord(c, CategoryContext(contexts, c.id).value) in rest
    ensures var r := WithCategory(categories[0], contexts, categoryid, onlyparents, rest);
      forall c :: c in categories && Selected(c, categoryid, onlyparents) && CategoryContext(contexts, c.id).Some? ==>
        ToRecord(c, CategoryContext(contexts, c.id).value) in r
  {
    forall c | c in categories && Selected(c, categoryid, onlyparents) && CategoryContext(contexts, c.id).Some?
      ensures ToRecord(c, CategoryContext(contexts, c.id).value) in WithCategory(categories[0], contexts, categoryid, onlyparents, rest)
    {
      if c != categories[0] {
        assert c in categories[1..];
      }
    }
  }

  lemma CategoryStepDistinct(categories: seq<Category>, contexts: seq<Context>, categoryid: int, onlyparents: bool, rest: seq<CategoryRecord>)
    requires |categories| > 0
    requires FromSelected(rest, categories[1..], contexts, categoryid, onlyparents)
    requires DistinctCategoryIds(categories[1..]) ==> DistinctRecordIds(rest)
    ensures var r := WithCategory(categories[0], contexts, categoryid, onlyparents, rest);
      DistinctCategoryIds(categories) ==> DistinctRecordIds(r)
  {
    var c := categories[0];
    var r := WithCategory(c, contexts, categoryid, onlyparents, rest);
    if DistinctCategoryIds(categories) && r != rest {
      assert DistinctCategoryIds(categories[1..]);
      TailIdsDiffer(categories, contexts, categoryid, onlyparents, rest);
      PrependKeepsDistinct(r[0], rest);
    }
  }

  /** With distinct category ids, no record read from the tail carries the
      head category's id. */
  lemma TailIdsDiffer(categories: seq<Category>, contexts: seq<Context>, categoryid: int, onlyparents: bool, rest: seq<CategoryRecord>)
    requires |categories| > 0 && DistinctCategoryIds(categories)
    requires FromSelected(rest, categories[1..], contexts, categoryid, onlyparents)
    ensures forall k :: 0 <= k < |rest| ==> rest[k].id != categories[0].id
  {
    var tail := categories[1..];
    forall k | 0 <= k < |rest|
      ensures rest[k].id != categories[0].id
    {
      var d := SourceOf(rest, tail, contexts, categoryid, onlyparents, k);
      var m :| 0 <= m < |tail| && tail[m] == d;
      assert categories[m + 1] == d;
    }
  }

  /** A record whose id the others do not carry keeps the ids distinct. */
  lemma PrependKeepsDistinct(x: CategoryRecord, rest: seq<CategoryRecord>)
    requires DistinctRecordIds(rest)
    requires forall k :: 0 <= k < |rest| ==> rest[k].id != x.id
    ensures DistinctRecordIds([x] + rest)
  {
    var r := [x] + rest;
    forall i, j | 0 <= i < j < |r|
      ensures r[i].id != r[j].id
    {
      assert r[j] == rest[j - 1];
      if i > 0 {
        assert r[i] == rest[i - 1];
      }
    }
  }

  function RecordIds(recs: seq<CategoryRecord>): set<int> {
    set r | r in recs :: r.id
  }

  function SelectedIds(categories: seq<Category>, contexts: seq<Context>, categoryid: int, onlyparents: bool): set<int> {
    set c | c in categories && Selected(c, categoryid, onlyparents) && CategoryContext(contexts, c.id).Some? :: c.id
  }

  /** The query read as a set comprehension: the ids it returns are exactly
      the selected categories that have a category context. */
  lemma ReturnedIds(categories: seq<Category>, contexts: seq<Context>, categoryid: int, onlyparents: bool)
    ensures RecordIds(ReturnCourseCategories(categories, contexts, categoryid, onlyparents)) ==
      SelectedIds(categories, contexts, categoryid, onlyparents)
  {
    var recs := ReturnCourseCategories(categories, contexts, categoryid, onlyparents);
    forall id | id in RecordIds(recs)
      ensures id in SelectedIds(categories, contexts, categoryid, onlyparents)
    {
      ReturnedIdIsSelected(recs, categories, contexts, categoryid, onlyparents, id);
    }
    forall id | id in SelectedIds(categories, contexts, categoryid, onlyparents)
      ensures id in RecordIds(recs)
    {
      SelectedIdIsReturned(categories, contexts, categoryid, onlyparents, id);
    }
  }

  lemma ReturnedIdIsSelected(recs: seq<CategoryRecord>, categories: seq<Category>, contexts: seq<Context>, categoryid: int, onlyparents: bool, id: int)
    requires FromSelected(recs, categories, contexts, categoryid, onlyparents)
    requires id in RecordIds(recs)
    ensures id in SelectedIds(categories, contexts, categoryid, onlyparents)
  {
    var k :| 0 <= k < |recs| && recs[k].id == id;
    var c := SourceOf(recs, categories, contexts, categoryid, onlyparents, k);
    assert c.id == id;
  }

  lemma SelectedIdIsReturned(categories: seq<Category>, contexts: seq<Context>, categoryid: int, onlyparents: bool, id: int)
    requires id in SelectedIds(categories, contexts, categoryid, onlyparents)
    ensures id in RecordIds(ReturnCourseCategories(categories, contexts, categoryid, onlyparents))
  {
    var recs := ReturnCourseCategories(categories, contexts, categoryid, onlyparents);
    var c :| c in categories && Selected(c, categoryid, onlyparents) && CategoryContext(contexts, c.id).Some? && c.id == id;
    assert ToRecord(c, CategoryContext(contexts, c.id).value) in recs;
  }

  // ---------------------------------------------------------------------
  // Booking information below a category context

  /** A row of course_modules. */
  datatype CourseModule = CourseModule(id: int, moduleid: int, instance: int)

  /** A row of the booking table. */
  datatype Booking = Booking(name: string, intro: string)

  /** A row of booking_options. */
  datatype BookingOption = BookingOption(id: int, bookingid: int)

  /** The tables the booking query reads; modules maps a module id to its
      name, bookings a booking id to its instance. */
  datatype BookingDb = BookingDb(
    cms: seq<CourseModule>, modules: map<int, string>, bookings: map<int, Booking>,
    options: seq<BookingOption>, answers: seq<Answer>, contexts: seq<Context>)

  /** A row of the booking query; the three sums are NULL when no answer of
      their state exists. */
  datatype BookingInfo = BookingInfo(
    cmid: int, name: string, intro: string,
    bookingoptions: nat, booked: Option<nat>, waitinglist: Option<nat>, reserved: Option<nat>)

  /** The query with contextid 0 refers to the context alias `c` without
      joining it, and the database rejects it. */
  datatype QueryError = ContextNotJoined

  /** The number of answers to the option in the given waitinglist state. */
  function CountAnswers(answers: seq<Answer>, optionid: int, state: int): (n: nat)
    ensures n == 0 <==> forall i :: 0 <= i < |answers| ==>
      !(answers[i].optionid == optionid && answers[i].waitinglist == state)
    ensures n <= |answers|
  {
    if |answers| == 0 then 0
    else
      (if answers[0].optionid == optionid && answers[0].waitinglist == state then 1 else 0)
      + CountAnswers(answers[1..], optionid, state)
  }

  /** A grouped count subquery LEFT JOINed to an option: it has a row only
      for options with at least one answer in the state, so the joined value
      is NULL otherwise. */
  function StateCount(answers: seq<Answer>, optionid: int, state: int): (r: Option<nat>)
    ensures r.None? <==> forall i :: 0 <= i < |answers| ==>
      !(answers[i].optionid == optionid && answers[i].waitinglist == state)
    ensures r.Some? ==> 0 < r.value <= |answers|
  {
    var n := CountAnswers(answers, optionid, state);
    if n == 0 then None else Some(n)
  }

  /** SQL addition inside SUM: NULLs are skipped, and only NULLs give NULL. */
  function AddNullable(a: Option<nat>, b: Option<nat>): Option<nat> {
    match (a, b)
    case (None, _) => b
    case (Some(x), None) => a
    case (Some(x), Some(y)) => Some(x + y)
  }

  /** SUM over the options of the grouped counts of one state. */
  function SumStateCounts(answers: seq<Answer>, options: seq<BookingOption>, state: int): (r: Option<nat>)
    ensures r.Some? ==> r.value > 0
  {
    if |options| == 0 then None
    else AddNullable(StateCount(answers, options[0].id, state), SumStateCounts(answers, options[1..], state))
  }

  /** The SUM is NULL exactly when no answer of any of the options is in the
      state, and in particular when the activity has no options. */
  lemma {:induction false} SumStateCountsIsNull(answers: seq<Answer>, options: seq<BookingOption>, state: int)
    ensures SumStateCounts(answers, options, state).None? <==>
      forall k, i :: 0 <= k < |options| && 0 <= i < |answers| ==>
        !(answers[i].optionid == options[k].id && answers[i].waitinglist == state)
  {
    if |options| > 0 {
      SumStateCountsIsNull(answers, options[1..], state);
      assert forall k :: 1 <= k < |options| ==> options[k] == options[1..][k - 1];
    }
  }

  /** The options of a booking instance (the LEFT JOIN on booking_options). */
  function OptionsOf(options: seq<BookingOption>, bookingid: int): (r: seq<BookingOption>)
    ensures forall o :: o in r <==> o in options && o.bookingid == bookingid
  {
    if |options| == 0 then []
    else
      var rest := OptionsOf(options[1..], bookingid);
      assert forall o :: o in options <==> o == options[0] || o in options[1..];
      if options[0].bookingid == bookingid then [options[0]] + rest else rest
  }

  /** The course module is a booking activity with an existing instance. */
  predicate IsBookingModule(db: BookingDb, cm: CourseModule) {
    && cm.moduleid in db.modules
    && db.modules[cm.moduleid] == BookingModuleName
    && cm.instance in db.bookings
  }

  /** The LIKE pattern's fixed prefix for a category context: "/1/<id>/". */
  function ScopePrefix(contextid: int): string {
    "/1/" + PhpStrings.IntToString(contextid) + "/"
  }

  /** The course module has a module-level context whose path lies below
      the given prefix. */
  predicate InScope(db: BookingDb, cm: CourseModule, prefix: string) {
    exists i :: 0 <= i < |db.contexts| &&
      db.contexts[i].instanceid == cm.id &&
      db.contexts[i].contextlevel == ModuleContextLevel &&
      PhpStrings.StartsWith(db.contexts[i].path, prefix)
  }

  /** The aggregated row of one booking course module. */
  function Info(db: BookingDb, cm: CourseModule): (r: BookingInfo)
    requires IsBookingModule(db, cm)
    ensures r.cmid == cm.id
    ensures r.name == db.bookings[cm.instance].name && r.intro == db.bookings[cm.instance].intro
    ensures r.bookingoptions == 0 ==> r.booked.None? && r.waitinglist.None? && r.reserved.None?
  {
    var b := db.bookings[cm.instance];
    var opts := OptionsOf(db.options, cm.instance);
    BookingInfo(cm.id, b.name, b.intro, |opts|,
      SumStateCounts(db.answers, opts, Booked),
      SumStateCounts(db.answers, opts, OnWaitingList),
      SumStateCounts(db.answers, opts, Reserved))
  }

  /** The query keeps the course module: a booking activity under the prefix. */
  predicate Kept(db: BookingDb, cm: CourseModule, prefix: string) {
    IsBookingModule(db, cm) && InScope(db, cm, prefix)
  }

  /** The rows the query builds for the kept course modules among cms. */
  function KeptRows(db: BookingDb, cms: seq<CourseModule>, prefix: string): set<BookingInfo> {
    set cm | cm in cms && Kept(db, cm, prefix) :: Info(db, cm)
  }

  /** No two course modules share an id: the primary key of course_modules. */
  predicate DistinctModuleIds(cms: seq<CourseModule>) {
    forall i, j :: 0 <= i < j < |cms| ==> cms[i].id != cms[j].id
  }

  /** The rows for the course modules among cms that the query keeps, one
      per module: the query groups by cm.id. */
  function InfoRows(db: BookingDb, cms: seq<CourseModule>, prefix: string): (r: seq<BookingInfo>)
    ensures |r| <= |cms|
    ensures forall k :: 0 <= k < |r| ==> r[k] in KeptRows(db, cms, prefix)
    ensures forall cm :: cm in cms && Kept(db, cm, prefix) ==> Info(db, cm) in r
    ensures DistinctModuleIds(cms) ==> DistinctRowIds(r)
  {
    if |cms| == 0 then []
    else
      var rest := InfoRows(db, cms[1..], prefix);
      ModuleStepSound(db, cms, prefix, rest);
      ModuleStepComplete(db, cms, prefix, rest);
      ModuleStepDistinct(db, cms, prefix, rest);
      WithModule(db, cms[0], prefix, rest)
  }

  /** The rows for a list of course modules from the rows for its tail: the
      head module's row first, when the query keeps it. */
  function WithModule(db: BookingDb, cm: CourseModule, prefix: string, rest: seq<BookingInfo>): (r: seq<BookingInfo>)
    ensures |r| <= |rest| + 1
  {
    if Kept(db, cm, prefix) then [Info(db, cm)] + rest else rest
  }

  lemma ModuleStepSound(db: BookingDb, cms: seq<CourseModule>, prefix: string, rest: seq<BookingInfo>)
    requires |cms| > 0
    requires forall k :: 0 <= k < |rest| ==> rest[k] in KeptRows(db, cms[1..], prefix)
    ensures var r := WithModule(db, cms[0], prefix, rest);
      forall k :: 0 <= k < |r| ==> r[k] in KeptRows(db, cms, prefix)
  {
    var r := WithModule(db, cms[0], prefix, rest);
    var off := |r| - |rest|;
    forall k | 0 <= k < |r|
      ensures r[k] in KeptRows(db, cms, prefix)
    {
      if k < off {
        assert Kept(db, cms[0], prefix) && r[k] == Info(db, cms[0]);
      } else {
        assert r[k] == rest[k - off];
        var d :| d in cms[1..] && Kept(db, d, prefix) && rest[k - off] == Info(db, d);
        assert d in cms;
      }
    }
  }

  lemma ModuleStepComplete(db: BookingDb, cms: seq<CourseModule>, prefix: string, rest: seq<BookingInfo>)
    requires |cms| > 0
    requires forall cm :: cm in cms[1..] && Kept(db, cm, prefix) ==> Info(db, cm) in rest
    ensures var r := WithModule(db, cms[0], prefix, rest);
      forall cm :: cm in cms && Kept(db, cm, prefix) ==> Info(db, cm) in r
  {
    forall cm | cm in cms && Kept(db, cm, prefix)
      ensures Info(db, cm) in WithModule(db, cms[0], prefix, rest)
    {
      if cm != cms[0] {
        assert cm in cms[1..];
      }
    }
  }

  lemma ModuleStepDistinct(db: BookingDb, cms: seq<CourseModule>, prefix: string, rest: seq<BookingInfo>)
    requires |cms| > 0
    requires forall k :: 0 <= k < |rest| ==> rest[k] in KeptRows(db, cms[1..], prefix)
    requires DistinctModuleIds(cms[1..]) ==> DistinctRowIds(rest)
    ensures var r := WithModule(db, cms[0], prefix, rest);
      DistinctModuleIds(cms) ==> DistinctRowIds(r)
  {
    if DistinctModuleIds(cms) && Kept(db, cms[0], prefix) {
      assert DistinctModuleIds(cms[1..]);
      ModuleTailIdsDiffer(db, cms, prefix, rest);
      var head := Info(db, cms[0]);
      assert WithModule(db, cms[0], prefix, rest) == [head] + rest;
      PrependRowKeepsDistinct(head, rest);
    }
  }

  /** No two rows share a course module id. */
  predicate DistinctRowIds(rows: seq<BookingInfo>) {
    forall i, j :: 0 <= i < j < |rows| ==> rows[i].cmid != rows[j].cmid
  }

  /** With distinct course module ids, no row kept from the tail carries the
      head module's id. */
  lemma ModuleTailIdsDiffer(db: BookingDb, cms: seq<CourseModule>, prefix: string, rest: seq<BookingInfo>)
    requires |cms| > 0 && DistinctModuleIds(cms)
    requires forall k :: 0 <= k < |rest| ==> rest[k] in KeptRows(db, cms[1..], prefix)
    ensures forall k :: 0 <= k < |rest| ==> rest[k].cmid != cms[0].id
  {
    var tail := cms[1..];
    forall k | 0 <= k < |rest|
      ensures rest[k].cmid != cms[0].id
    {
      var row := rest[k];
      assert row in KeptRows(db, tail, prefix);
      var d :| d in tail && Kept(db, d, prefix) && row == Info(db, d);
      var m :| 0 <= m < |tail| && tail[m] == d;
      assert cms[m + 1] == d;
    }
  }

  /** A row whose module id the others do not carry keeps the ids distinct. */
  lemma PrependRowKeepsDistinct(x: BookingInfo, rest: seq<BookingInfo>)
    requires DistinctRowIds(rest)
    requires forall k :: 0 <= k < |rest| ==> rest[k].cmid != x.cmid
    ensures DistinctRowIds([x] + rest)
  {
    var r := [x] + rest;
    forall i, j | 0 <= i < j < |r|
      ensures r[i].cmid != r[j].cmid
    {
      assert r[j] == rest[j - 1];
      if i > 0 {
        assert r[i] == rest[i - 1];
      }
    }
  }

  /** Some booking activity lies in the subtree of the category context. */
  predicate HasBookingActivity(db: BookingDb, contextid: int) {
    exists cm :: cm in db.cms && Kept(db, cm, ScopePrefix(contextid))
  }

  /** One row per booking course module whose module context lies under
      "/1/<contextid>/"; the query fails for contextid 0. */
  function BookingInformation(db: BookingDb, contextid: int): (r: Result<seq<BookingInfo>, QueryError>)
    ensures r.Failure? <==> contextid == 0
    ensures r.Success? ==> |r.value| <= |db.cms|
    ensures r.Success? ==> forall k :: 0 <= k < |r.value| ==> r.value[k] in KeptRows(db, db.cms, ScopePrefix(contextid))
    ensures r.Success? ==> forall cm :: cm in db.cms && Kept(db, cm, ScopePrefix(contextid)) ==> Info(db, cm) in r.value
    ensures r.Success? ==> (|r.value| > 0 <==> HasBookingActivity(db, contextid))
    ensures r.Success? && DistinctModuleIds(db.cms) ==>
      DistinctRowIds(r.value)
  {
    if contextid == 0 then Failure(ContextNotJoined)
    else
      var rows := InfoRows(db, db.cms, ScopePrefix(contextid));
      assert |rows| > 0 ==> rows[0] in KeptRows(db, db.cms, ScopePrefix(contextid));
      Success(rows)
  }

  // ---------------------------------------------------------------------
  // What the sums count

  /** The ids of the given options. */
  function OptionIds(options: seq<BookingOption>): set<int> {
    set o | o in options :: o.id
  }

  predicate DistinctOptionIds(options: seq<BookingOption>) {
    forall i, j :: 0 <= i < j < |options| ==> options[i].id != options[j].id
  }

  /** The number of answers in the state to any of the given options. */
  function CountAnswersIn(answers: seq<Answer>, optionids: set<int>, state: int): nat {
    if |answers| == 0 then 0
    else
      (if answers[0].optionid in optionids && answers[0].waitinglist == state then 1 else 0)
      + CountAnswersIn(answers[1..], optionids, state)
  }

  /** NULL for zero, as a SUM of no rows reads. */
  function NullIfZero(n: nat): Option<nat> {
    if n == 0 then None else Some(n)
  }

  lemma {:induction false} CountAnswersInSplit(answers: seq<Answer>, id: int, rest: set<int>, state: int)
    requires id !in rest
    ensures CountAnswersIn(answers, {id} + rest, state) == CountAnswers(answers, id, state) + CountAnswersIn(answers, rest, state)
  {
    if |answers| > 0 {
      CountAnswersInSplit(answers[1..], id, rest, state);
    }
  }

  /** The SUM over a booking's options counts every answer in the state to
      one of those options, and is NULL exactly when there is none. */
  lemma {:induction false} SumStateCountsCountsAnswers(answers: seq<Answer>, options: seq<BookingOption>, state: int)
    requires DistinctOptionIds(options)
    ensures SumStateCounts(answers, options, state) == NullIfZero(CountAnswersIn(answers, OptionIds(options), state))
  {
    if |options| == 0 {
      assert OptionIds(options) == {};
      ZeroCountOfNoOptions(answers, state);
    } else {
      var rest := options[1..];
      SumStateCountsCountsAnswers(answers, rest, state);
      assert OptionIds(options) == {options[0].id} + OptionIds(rest) by {
        assert forall o :: o in options <==> o == options[0] || o in rest;
      }
      assert options[0].id !in OptionIds(rest) by {
        forall o | o in rest
          ensures o.id != options[0].id
        {
          var j :| 0 <= j < |rest| && rest[j] == o;
          assert options[j + 1] == o;
        }
      }
      CountAnswersInSplit(answers, options[0].id, OptionIds(rest), state);
    }
  }

  lemma {:induction false} ZeroCountOfNoOptions(answers: seq<Answer>, state: int)
    ensures CountAnswersIn(answers, {}, state) == 0
  {
    if |answers| > 0 {
      ZeroCountOfNoOptions(answers[1..], state);
    }
  }

  /** What a booking's row reports: the number of its options, and for each
      of the states booked (0), waiting list (1) and reserved (2) the number
      of answers in that state to its options, NULL when there is none. A
      booking without options has 0 options and NULL sums, not zero sums. */
  lemma InfoCounts(db: BookingDb, cm: CourseModule)
    requires IsBookingModule(db, cm)
    requires DistinctOptionIds(db.options)
    ensures var opts := OptionsOf(db.options, cm.instance);
      var ids := OptionIds(opts);
      && Info(db, cm).cmid == cm.id
      && Info(db, cm).bookingoptions == |opts| == |OptionsOfBooking(db.options, cm.instance)|
      && Info(db, cm).booked == NullIfZero(CountAnswersIn(db.answers, ids, Booked))
      && Info(db, cm).waitinglist == NullIfZero(CountAnswersIn(db.answers, ids, OnWaitingList))
      && Info(db, cm).reserved == NullIfZero(CountAnswersIn(db.answers, ids, Reserved))
      && (forall id :: id in ids <==> exists o :: o in db.options && o.bookingid == cm.instance && o.id == id)
  {
    var opts := OptionsOf(db.options, cm.instance);
    SubsequenceKeepsDistinctIds(db.options, cm.instance);
    OptionsOfCountsEachOnce(db.options, cm.instance);
    SumStateCountsCountsAnswers(db.answers, opts, Booked);
    SumStateCountsCountsAnswers(db.answers, opts, OnWaitingList);
    SumStateCountsCountsAnswers(db.answers, opts, Reserved);
  }

  /** With distinct option ids the join lists each of the booking's options
      once: its length is the number of those options. */
  lemma {:induction false} OptionsOfCountsEachOnce(options: seq<BookingOption>, bookingid: int)
    requires DistinctOptionIds(options)
    ensures |OptionsOf(options, bookingid)| == |OptionsOfBooking(options, bookingid)|
  {
    if |options| == 0 {
      assert OptionsOfBooking(options, bookingid) == {};
    } else {
      assert DistinctOptionIds(options[1..]);
      OptionsOfCountsEachOnce(options[1..], bookingid);
      OptionsOfBookingSplit(options, bookingid);
    }
  }

  /** The options of a booking, as a set. */
  function OptionsOfBooking(options: seq<BookingOption>, bookingid: int): set<BookingOption> {
    set o | o in options && o.bookingid == bookingid
  }

  /** The set of a booking's options is the head, if it is one, added to
      those of the tail, which never hold the head when ids are distinct. */
  lemma OptionsOfBookingSplit(options: seq<BookingOption>, bookingid: int)
    requires |options| > 0 && DistinctOptionIds(options)
    ensures var later := OptionsOfBooking(options[1..], bookingid);
      && options[0] !in later
      && OptionsOfBooking(options, bookingid) ==
           (if options[0].bookingid == bookingid then {options[0]} else {}) + later
  {
    var rest := options[1..];
    forall j | 0 <= j < |rest|
      ensures rest[j] != options[0]
    {
      assert rest[j] == options[j + 1];
    }
  }

  /** The join keeps the options' ids distinct. */
  lemma {:induction false} SubsequenceKeepsDistinctIds(options: seq<BookingOption>, bookingid: int)
    requires DistinctOptionIds(options)
    ensures DistinctOptionIds(OptionsOf(options, bookingid))
  {
    if |options| > 0 {
      var rest := options[1..];
      SubsequenceKeepsDistinctIds(rest, bookingid);
      assert DistinctOptionIds(rest);
      var sub := OptionsOf(rest, bookingid);
      forall k | 0 <= k < |sub|
        ensures sub[k].id != options[0].id
      {
        assert sub[k] in rest;
        var j :| 0 <= j < |rest| && rest[j] == sub[k];
        assert options[j + 1] == sub[k];
      }
    }
  }
}
