/** Which fields the booking-option form shows, per context and per
    capability (classes/settings/optionformconfig/optionformconfig_info.php).

    A configuration is stored as a row of the `booking_form_config` table
    keyed by (area, capability, contextid). Looking one up walks the
    context's materialized path (`/1/5/23`) and takes the stored row whose
    context has the highest context level; with no stored row, a default
    field list is built from the registry of option-form field classes.
    The database, the context table and the field registry are parameters. */
module OptionFormConfig {
  import opened Outcomes
  import opened MoodleTables
  import PhpStrings
  import Sorting

  /* Field status codes. */
  const NoConfiguration := 0
  const ShowField := 1
  const HideField := 2

  /** The capabilities a form configuration can be stored for, in this order. */
  const Capabilities: seq<string> := [
    "mod/booking:expertoptionform",
    "mod/booking:reducedoptionform1",
    "mod/booking:reducedoptionform2",
    "mod/booking:reducedoptionform3",
    "mod/booking:reducedoptionform4",
    "mod/booking:reducedoptionform5"
  ]

  /** The only area the plugin stores form configurations under. */
  const OptionArea := "option"

  /** The id of the system context, which contextid 0 stands for. */
  const SystemContextId := 1

  /** The status string save returns. */
  const SaveSucceeded := "success"

  /** The contexts that exist, by id. */
  type ContextTable = map<int, Context>

  /** The categories a field class is tagged with. */
  datatype FieldCategory = Standard | Necessary | OtherCategory(tag: int)

  /** A registered option-form field class. */
  datatype FieldClass = FieldClass(id: int, classname: string, categories: seq<FieldCategory>, incompatible: seq<int>)

  /** One entry of a stored or default field list. */
  datatype FieldEntry = FieldEntry(id: int, classname: string, checked: int, necessary: int, incompatible: seq<int>)

  /** A row of the booking_form_config table; json is the decoded field list. */
  datatype ConfigRow = ConfigRow(id: int, area: string, capability: string, contextid: int, json: seq<FieldEntry>)

  /** What a lookup returns: the requested context and capability, and the field list. */
  datatype Configuration = Configuration(id: int, capability: string, json: seq<FieldEntry>)

  /** context::instance_by_id throws for an id with no context. */
  datatype ConfigError = UnknownContext(contextid: int)

  // ---------------------------------------------------------------------
  // Context paths

  /** The path Moodle stores for a context whose ancestors, root first and
      the context itself last, have the given ids: "/1/5/23". */
  function ContextPath(ids: seq<int>): string {
    PhpStrings.Implode('/', [""] + IdStrings(ids))
  }

  function IdStrings(ids: seq<int>): (strs: seq<string>)
    ensures |strs| == |ids|
    ensures forall i :: 0 <= i < |ids| ==> strs[i] == PhpStrings.IntToString(ids[i])
  {
    seq(|ids|, i requires 0 <= i < |ids| => PhpStrings.IntToString(ids[i]))
  }

  /** The ids a lookup searches: the path exploded on '/' with every piece
      cast to int. The empty piece before the leading '/' casts to 0. */
  function CandidateIds(path: string): (r: seq<int>)
    ensures |r| > 0
    ensures |path| > 0 && path[0] == '/' ==> r[0] == 0
  {
    var parts := PhpStrings.Explode('/', path);
    seq(|parts|, i requires 0 <= i < |parts| => PhpStrings.IntCast(parts[i]))
  }

  /** The candidate ids of a well-formed path are 0 followed by exactly the
      ids the path was written from, root first, the context itself last. */
  lemma CandidateIdsOfContextPath(ids: seq<int>)
    ensures CandidateIds(ContextPath(ids)) == [0] + ids
  {
    var parts := [""] + IdStrings(ids);
    PhpStrings.ExplodeImplode('/', parts);
    forall i | 0 <= i < |ids|
      ensures PhpStrings.IntCast(parts[i + 1]) == ids[i]
    {
      PhpStrings.IntCastOfIntToString(ids[i]);
    }
  }

  // ---------------------------------------------------------------------
  // Most specific stored configuration

  /** The level of the context a row is stored for (0 for a row whose
      context does not exist; the lookup's join drops such rows). */
  function RowLevel(row: ConfigRow, contexts: ContextTable): int {
    if row.contextid in contexts then contexts[row.contextid].contextlevel else 0
  }

  /** A row the lookup's WHERE clause and context join let through. */
  predicate IsCandidate(row: ConfigRow, capability: string, ids: seq<int>, contexts: ContextTable) {
    && row.area == OptionArea
    && row.capability == capability
    && row.contextid in ids
    && row.contextid in contexts
  }

  /** The row a lookup returns: the candidate of highest context level; among
      candidates of equal level, the first stored one. */
  function MostSpecific(rows: seq<ConfigRow>, capability: string, ids: seq<int>, contexts: ContextTable): (r: Option<ConfigRow>)
    ensures r.None? <==> forall i :: 0 <= i < |rows| ==> !IsCandidate(rows[i], capability, ids, contexts)
    ensures r.Some? ==> IsCandidate(r.value, capability, ids, contexts)
    ensures r.Some? ==> forall i :: 0 <= i < |rows| && IsCandidate(rows[i], capability, ids, contexts) ==>
      RowLevel(rows[i], contexts) <= RowLevel(r.value, contexts)
    ensures r.Some? ==>
      exists k :: 0 <= k < |rows| && rows[k] == r.value &&
        (forall j :: 0 <= j < k && IsCandidate(rows[j], capability, ids, contexts) ==>
          RowLevel(rows[j], contexts) < RowLevel(r.value, contexts))
  {
    if |rows| == 0 then None
    else
      var rest := MostSpecific(rows[1..], capability, ids, contexts);
      assert forall i :: 1 <= i < |rows| ==> rows[i] == rows[1..][i - 1];
      if !IsCandidate(rows[0], capability, ids, contexts) then
        if rest.Some? then
          FirstOfLevelInTail(rows, capability, ids, contexts, rest.value);
          rest
        else rest
      else if rest.Some? && RowLevel(rest.value, contexts) > RowLevel(rows[0], contexts) then
        FirstOfLevelInTail(rows, capability, ids, contexts, rest.value);
        rest
      else
        Some(rows[0])
  }

  /** A row that comes before every candidate of its level in rows[1..]
      still does so in rows, when rows[0] is no candidate of that level or
      above. */
  lemma FirstOfLevelInTail(rows: seq<ConfigRow>, capability: string, ids: seq<int>, contexts: ContextTable, v: ConfigRow)
    requires |rows| > 0
    requires exists k :: (0 <= k < |rows[1..]| && rows[1..][k] == v &&
      forall j :: 0 <= j < k && IsCandidate(rows[1..][j], capability, ids, contexts) ==>
        RowLevel(rows[1..][j], contexts) < RowLevel(v, contexts))
    requires IsCandidate(rows[0], capability, ids, contexts) ==> RowLevel(rows[0], contexts) < RowLevel(v, contexts)
    ensures exists k :: (0 <= k < |rows| && rows[k] == v &&
      forall j :: 0 <= j < k && IsCandidate(rows[j], capability, ids, contexts) ==>
        RowLevel(rows[j], contexts) < RowLevel(v, contexts))
  {
    var k :| 0 <= k < |rows[1..]| && rows[1..][k] == v &&
      forall j :: 0 <= j < k && IsCandidate(rows[1..][j], capability, ids, contexts) ==>
        RowLevel(rows[1..][j], contexts) < RowLevel(v, contexts);
    assert rows[k + 1] == v;
    forall j | 0 <= j < k + 1 && IsCandidate(rows[j], capability, ids, contexts)
      ensures RowLevel(rows[j], contexts) < RowLevel(v, contexts)
    {
      if j > 0 {
        assert rows[j] == rows[1..][j - 1];
      }
    }
  }

  /** The candidate rows in stored order: the SELECT before its ORDER BY. */
  function CandidateRows(rows: seq<ConfigRow>, capability: string, ids: seq<int>, contexts: ContextTable): seq<ConfigRow> {
    if |rows| == 0 then []
    else
      var rest := CandidateRows(rows[1..], capability, ids, contexts);
      if IsCandidate(rows[0], capability, ids, contexts) then [rows[0]] + rest else rest
  }

  /** The key `ORDER BY c.contextlevel DESC` sorts ascending by. */
  function DescendingLevel(contexts: ContextTable): ConfigRow -> int {
    row => -RowLevel(row, contexts)
  }

  /** MostSpecific is the first row of the query's result: candidates
      ordered by context level, highest first (a stable order). */
  lemma {:induction false} MostSpecificIsFirstOfQuery(rows: seq<ConfigRow>, capability: string, ids: seq<int>, contexts: ContextTable)
    ensures var sorted := Sorting.InsertionSort(CandidateRows(rows, capability, ids, contexts), DescendingLevel(contexts));
      && (MostSpecific(rows, capability, ids, contexts).None? <==> |sorted| == 0)
      && (|sorted| > 0 ==> MostSpecific(rows, capability, ids, contexts) == Some(sorted[0]))
  {
    if |rows| > 0 {
      MostSpecificIsFirstOfQuery(rows[1..], capability, ids, contexts);
      var cands := CandidateRows(rows, capability, ids, contexts);
      if IsCandidate(rows[0], capability, ids, contexts) {
        assert cands[1..] == CandidateRows(rows[1..], capability, ids, contexts);
        Sorting.HeadOfInsertionSort(cands, DescendingLevel(contexts));
      }
    }
  }

  // ---------------------------------------------------------------------
  // Default field list

  /** The entry a field class contributes to the default list: checked when
      it is a standard field, necessary when it is a necessary one. */
  function DefaultEntry(f: FieldClass): FieldEntry {
    FieldEntry(
      f.id,
      f.classname,
      if Standard in f.categories then 1 else 0,
      if Necessary in f.categories then 1 else 0,
      f.incompatible)
  }

  function DefaultEntries(registry: seq<FieldClass>): (entries: seq<FieldEntry>)
    ensures |entries| == |registry|
    ensures forall i :: 0 <= i < |registry| ==> entries[i] == DefaultEntry(registry[i])
  {
    seq(|registry|, i requires 0 <= i < |registry| => DefaultEntry(registry[i]))
  }

  function EntryId(e: FieldEntry): int {
    e.id
  }

  /** The field list used when no configuration is stored: the registry's
      default entries, ascending by id. */
  function DefaultFields(registry: seq<FieldClass>): (r: seq<FieldEntry>)
    ensures Sorting.SortedBy(r, EntryId)
    ensures multiset(r) == multiset(DefaultEntries(registry))
  {
    Sorting.InsertionSort(DefaultEntries(registry), EntryId)
  }

  /** The default list holds exactly one entry per registered field class:
      every entry comes from a registered class, every registered class has
      its entry, and with distinct ids the list is strictly ascending. */
  lemma DefaultFieldsContents(registry: seq<FieldClass>)
    ensures var r := DefaultFields(registry);
      && |r| == |registry|
      && (forall i :: 0 <= i < |r| ==> FromRegistry(r[i], registry))
      && (forall f :: f in registry ==> DefaultEntry(f) in r)
      && (DistinctIds(registry) ==> forall i, j :: 0 <= i < j < |r| ==> r[i].id < r[j].id)
  {
    var entries := DefaultEntries(registry);
    var r := DefaultFields(registry);
    Sorting.SortKeepsKeysDistinct(entries, EntryId);
    DefaultEntriesSound(registry, r);
    DefaultEntriesComplete(registry, r);
    if DistinctIds(registry) {
      assert Sorting.DistinctKeys(entries, EntryId);
    }
  }

  /** The entry is the default entry of some registered field class. */
  predicate FromRegistry(e: FieldEntry, registry: seq<FieldClass>) {
    exists f :: f in registry && e == DefaultEntry(f)
  }

  lemma DefaultEntriesSound(registry: seq<FieldClass>, r: seq<FieldEntry>)
    requires multiset(r) == multiset(DefaultEntries(registry))
    ensures forall i :: 0 <= i < |r| ==> FromRegistry(r[i], registry)
  {
    var entries := DefaultEntries(registry);
    forall i | 0 <= i < |r|
      ensures FromRegistry(r[i], registry)
    {
      assert r[i] in multiset(entries);
      var k :| 0 <= k < |entries| && entries[k] == r[i];
      assert registry[k] in registry && r[i] == DefaultEntry(registry[k]);
    }
  }

  lemma DefaultEntriesComplete(registry: seq<FieldClass>, r: seq<FieldEntry>)
    requires multiset(r) == multiset(DefaultEntries(registry))
    ensures forall f :: f in registry ==> DefaultEntry(f) in r
  {
    var entries := DefaultEntries(registry);
    forall f | f in registry
      ensures DefaultEntry(f) in r
    {
      var k :| 0 <= k < |registry| && registry[k] == f;
      assert entries[k] in multiset(r);
    }
  }

  /** Field classes registered under distinct ids. */
  predicate DistinctIds(registry: seq<FieldClass>) {
    forall i, j :: 0 <= i < j < |registry| ==> registry[i].id != registry[j].id
  }

  /** The default list does not depend on the order in which the field
      classes were discovered: any permutation of a registry with distinct
      ids yields the same list. */
  lemma DefaultFieldsIgnoreRegistryOrder(registry: seq<FieldClass>, other: seq<FieldClass>)
    requires DistinctIds(registry) && DistinctIds(other)
    requires multiset(other) == multiset(registry)
    ensures DefaultFields(other) == DefaultFields(registry)
  {
    var a := DefaultFields(registry);
    var b := DefaultFields(other);
    DefaultFieldsContents(registry);
    DefaultFieldsContents(other);
    assert |registry| == |multiset(registry)| == |multiset(other)| == |other|;
    forall e
      ensures e in a <==> e in b
    {
      if e in a {
        assert FromRegistry(e, registry);
        var f :| f in registry && e == DefaultEntry(f);
        assert f in multiset(other);
      }
      if e in b {
        assert FromRegistry(e, other);
        var f :| f in other && e == DefaultEntry(f);
        assert f in multiset(registry);
      }
    }
    Sorting.StrictlySortedUnique(a, b, EntryId);
  }

  // ---------------------------------------------------------------------
  // Lookup

  /** The candidate of highest context level, when there is one. */
  ghost predicate IsMostSpecificRow(row: ConfigRow, rows: seq<ConfigRow>, capability: string, ids: seq<int>, contexts: ContextTable) {
    && row in rows
    && IsCandidate(row, capability, ids, contexts)
    && forall i :: 0 <= i < |rows| && IsCandidate(rows[i], capability, ids, contexts) ==>
         RowLevel(rows[i], contexts) <= RowLevel(row, contexts)
  }

  /** The configuration in force for a context and capability: the stored
      field list of the most specific candidate row, else the default list.
      The result always names the requested context and capability. */
  function ConfiguredFieldsForCapability(
    contexts: ContextTable, rows: seq<ConfigRow>, registry: seq<FieldClass>,
    contextid: int, capability: string): (r: Result<Configuration, ConfigError>)
    ensures r.Failure? <==> contextid !in contexts
    ensures r.Success? ==> r.value.id == contextid && r.value.capability == capability
    ensures r.Success? ==>
      var ids := CandidateIds(contexts[contextid].path);
      if exists i :: 0 <= i < |rows| && IsCandidate(rows[i], capability, ids, contexts) then
        exists row :: IsMostSpecificRow(row, rows, capability, ids, contexts) && r.value.json == row.json
      else
        r.value.json == DefaultFields(registry)
  {
    if contextid !in contexts then Failure(UnknownContext(contextid))
    else
      var ids := CandidateIds(contexts[contextid].path);
      match MostSpecific(rows, capability, ids, contexts)
      case Some(row) => Success(Configuration(contextid, capability, row.json))
      case None => Success(Configuration(contextid, capability, DefaultFields(registry)))
  }

  /** The example of a path root -> A -> B with a configuration stored only
      at A: looking up B returns A's field list. Generally, when the only
      stored rows for the capability on B's path are at one ancestor, B
      inherits the first of them. */
  lemma InheritsFromAncestor(
    contexts: ContextTable, rows: seq<ConfigRow>, registry: seq<FieldClass>,
    b: int, path: seq<int>, a: int, k: nat, capability: string)
    requires b in contexts && contexts[b].path == ContextPath(path)
    requires a in path && a in contexts
    requires k < |rows| && rows[k].area == OptionArea && rows[k].capability == capability && rows[k].contextid == a
    requires forall i :: 0 <= i < |rows| ==>
      (rows[i].area == OptionArea && rows[i].capability == capability && rows[i].contextid in [0] + path ==> i == k)
    ensures ConfiguredFieldsForCapability(contexts, rows, registry, b, capability) ==
      Success(Configuration(b, capability, rows[k].json))
  {
    CandidateIdsOfContextPath(path);
    var ids := CandidateIds(contexts[b].path);
    assert IsCandidate(rows[k], capability, ids, contexts);
    var m := MostSpecific(rows, capability, ids, contexts);
    assert m.Some?;
    var p :| 0 <= p < |rows| && rows[p] == m.value;
    assert p == k;
  }

  /** Of two candidates of equal context level, the one stored first wins. */
  lemma EqualLevelsKeepStoredOrder(a: ConfigRow, b: ConfigRow, capability: string, ids: seq<int>, contexts: ContextTable)
    requires IsCandidate(a, capability, ids, contexts) && IsCandidate(b, capability, ids, contexts)
    requires RowLevel(a, contexts) == RowLevel(b, contexts)
    ensures MostSpecific([a, b], capability, ids, contexts) == Some(a)
  {
    assert [a, b][1..] == [b] && [b][1..] == [];
    assert MostSpecific([b], capability, ids, contexts) == Some(b);
  }

  /** Nested categories share context level 40, so the order by level cannot
      tell a category from its subcategory. Take a category context (5, say)
      and its subcategory's context (7) on the path "/1/5/7", with a row
      stored for 5 first and one for 7 after it: a lookup for 7 returns the
      row of 5 rather than the deeper row of 7. */
  lemma NestedCategoryTie(contexts: ContextTable, registry: seq<FieldClass>, capability: string,
      outer: seq<FieldEntry>, inner: seq<FieldEntry>, root: int, parent: int, child: int)
    requires parent in contexts && contexts[parent].contextlevel == 40
    requires child in contexts && contexts[child].contextlevel == 40
    requires contexts[child].path == ContextPath([root, parent, child])
    ensures var rows := [ConfigRow(1, OptionArea, capability, parent, outer), ConfigRow(2, OptionArea, capability, child, inner)];
      ConfiguredFieldsForCapability(contexts, rows, registry, child, capability) == Success(Configuration(child, capability, outer))
  {
    var rows := [ConfigRow(1, OptionArea, capability, parent, outer), ConfigRow(2, OptionArea, capability, child, inner)];
    var ids := NestedCategoryCandidates(contexts, root, parent, child);
    EqualLevelsKeepStoredOrder(rows[0], rows[1], capability, ids, contexts);
  }

  /** The ids searched for a context on the path "/root/parent/child": 0,
      then the three ids, among them both category contexts. */
  /** The ids searched for a context on the path "/root/parent/child": 0,
      then the three ids. */
  lemma NestedCategoryCandidates(contexts: ContextTable, root: int, parent: int, child: int) returns (ids: seq<int>)
    requires child in contexts && contexts[child].path == ContextPath([root, parent, child])
    ensures ids == CandidateIds(contexts[child].path)
    ensures ids == [0, root, parent, child]
  {
    CandidateIdsOfContextPath([root, parent, child]);
    ids := CandidateIds(contexts[child].path);
  }

  /** Whether a field list shows the field: some entry with exactly that id
      is checked. */
  predicate IsChecked(entries: seq<FieldEntry>, fieldid: int) {
    exists i :: 0 <= i < |entries| && entries[i].id == fieldid && entries[i].checked == 1
  }

  /** The status of a field for a context and capability: SHOWFIELD when the
      configuration in force checks it, HIDEFIELD otherwise. The lookup never
      comes back empty, so NOCONFIGURATION is never returned; userid plays
      no part. */
  function StatusForField(
    contexts: ContextTable, rows: seq<ConfigRow>, registry: seq<FieldClass>,
    fieldid: int, userid: int, contextid: int, capability: string): (r: Result<int, ConfigError>)
    ensures r.Failure? <==> contextid !in contexts
    ensures r.Success? ==> r.value != NoConfiguration && (r.value == ShowField || r.value == HideField)
    ensures r.Success? ==>
      (r.value == ShowField <==>
        IsChecked(ConfiguredFieldsForCapability(contexts, rows, registry, contextid, capability).value.json, fieldid))
  {
    var stored :- ConfiguredFieldsForCapability(contexts, rows, registry, contextid, capability);
    if IsChecked(stored.json, fieldid) then Success(ShowField) else Success(HideField)
  }

  /** With no stored configuration on the path, a field is shown exactly when
      it is a registered field tagged standard. */
  lemma StatusWithoutStoredRow(
    contexts: ContextTable, rows: seq<ConfigRow>, registry: seq<FieldClass>,
    fieldid: int, userid: int, contextid: int, capability: string)
    requires contextid in contexts
    requires forall i :: 0 <= i < |rows| ==>
      !IsCandidate(rows[i], capability, CandidateIds(contexts[contextid].path), contexts)
    ensures StatusForField(contexts, rows, registry, fieldid, userid, contextid, capability) ==
      Success(if exists f :: f in registry && f.id == fieldid && Standard in f.categories then ShowField else HideField)
  {
    var entries := DefaultFields(registry);
    DefaultFieldsContents(registry);
    if exists f :: f in registry && f.id == fieldid && Standard in f.categories {
      var f :| f in registry && f.id == fieldid && Standard in f.categories;
      var i :| 0 <= i < |entries| && entries[i] == DefaultEntry(f);
      assert IsChecked(entries, fieldid);
    }
  }

  /** The context a listing is for: contextid 0 means the system context. */
  function ListingContext(contextid: int): int {
    if contextid == 0 then SystemContextId else contextid
  }

  /** The configurations of a context, one per capability in Capabilities
      order (return_configured_fields). */
  function ConfiguredFields(
    contexts: ContextTable, rows: seq<ConfigRow>, registry: seq<FieldClass>,
    contextid: int): (r: Result<seq<Configuration>, ConfigError>)
    ensures r.Failure? <==> ListingContext(contextid) !in contexts
    ensures r.Success? ==> |r.value| == |Capabilities| == 6
    ensures r.Success? ==> forall i :: 0 <= i < |r.value| ==>
      && r.value[i].capability == Capabilities[i]
      && r.value[i].id == (if contextid == 0 then SystemContextId else contextid)
      && Success(r.value[i]) == ConfiguredFieldsForCapability(contexts, rows, registry, ListingContext(contextid), Capabilities[i])
  {
    var id := ListingContext(contextid);
    if id !in contexts then Failure(UnknownContext(id))
    else
      Success(seq(|Capabilities|, i requires 0 <= i < |Capabilities| =>
        ConfiguredFieldsForCapability(contexts, rows, registry, id, Capabilities[i]).value))
  }

  // ---------------------------------------------------------------------
  // Save

  /** The row is stored under the key (option, capability, contextid). */
  predicate IsKeyRow(row: ConfigRow, contextid: int, capability: string) {
    row.area == OptionArea && row.capability == capability && row.contextid == contextid
  }

  /** The first row stored under the key, as get_record returns it. */
  function FirstKeyRow(rows: seq<ConfigRow>, contextid: int, capability: string): (k: Option<nat>)
    ensures k.None? <==> forall i :: 0 <= i < |rows| ==> !IsKeyRow(rows[i], contextid, capability)
    ensures k.Some? ==> k.value < |rows| && IsKeyRow(rows[k.value], contextid, capability)
    ensures k.Some? ==> forall j :: 0 <= j < k.value ==> !IsKeyRow(rows[j], contextid, capability)
  {
    if |rows| == 0 then None
    else if IsKeyRow(rows[0], contextid, capability) then Some(0)
    else
      match FirstKeyRow(rows[1..], contextid, capability)
      case None => None
      case Some(k) => Some(k + 1)
  }

  /** The id the table assigns to an inserted row: above every stored id. */
  function NextRowId(rows: seq<ConfigRow>): (id: int)
    ensures forall i :: 0 <= i < |rows| ==> rows[i].id < id
  {
    if |rows| == 0 then 1
    else
      var rest := NextRowId(rows[1..]);
      assert forall i :: 1 <= i < |rows| ==> rows[i] == rows[1..][i - 1];
      if rows[0].id < rest then rest else rows[0].id + 1
  }

  datatype SaveResult = SaveResult(rows: seq<ConfigRow>, status: string)

  /** Stores a field list for (option, capability, contextid): the first row
      under that key gets its json replaced and nothing else; with no such
      row, exactly one row is appended. The status is always "success". */
  function SaveConfiguredFields(rows: seq<ConfigRow>, contextid: int, capability: string, json: seq<FieldEntry>): (r: SaveResult)
    ensures r.status == SaveSucceeded
    ensures (exists i :: 0 <= i < |rows| && IsKeyRow(rows[i], contextid, capability)) ==>
      && |r.rows| == |rows|
      && exists k ::
        && 0 <= k < |rows| && IsKeyRow(rows[k], contextid, capability)
        && (forall j :: 0 <= j < k ==> !IsKeyRow(rows[j], contextid, capability))
        && r.rows[k] == rows[k].(json := json)
        && (forall i :: 0 <= i < |rows| && i != k ==> r.rows[i] == rows[i])
    ensures (forall i :: 0 <= i < |rows| ==> !IsKeyRow(rows[i], contextid, capability)) ==>
      && |r.rows| == |rows| + 1
      && r.rows[..|rows|] == rows
      && r.rows[|rows|].area == OptionArea && r.rows[|rows|].capability == capability
      && r.rows[|rows|].contextid == contextid && r.rows[|rows|].json == json
      && (forall i :: 0 <= i < |rows| ==> rows[i].id != r.rows[|rows|].id)
  {
    match FirstKeyRow(rows, contextid, capability)
    case Some(k) => SaveResult(rows[k := rows[k].(json := json)], SaveSucceeded)
    case None => SaveResult(rows + [ConfigRow(NextRowId(rows), OptionArea, capability, contextid, json)], SaveSucceeded)
  }

  /** Saving the same field list twice stores the same table as saving it once. */
  lemma SaveIsIdempotent(rows: seq<ConfigRow>, contextid: int, capability: string, json: seq<FieldEntry>)
    ensures var once := SaveConfiguredFields(rows, contextid, capability, json).rows;
      SaveConfiguredFields(once, contextid, capability, json).rows == once
  {
    var once := SaveConfiguredFields(rows, contextid, capability, json).rows;
    var k := FirstKeyRow(once, contextid, capability);
    assert k.Some? by {
      if FirstKeyRow(rows, contextid, capability).Some? {
        var m := FirstKeyRow(rows, contextid, capability).value;
        assert IsKeyRow(once[m], contextid, capability);
      } else {
        assert IsKeyRow(once[|rows|], contextid, capability);
      }
    }
    assert once[k.value].json == json by {
      if FirstKeyRow(rows, contextid, capability).Some? {
        var m := FirstKeyRow(rows, contextid, capability).value;
        assert IsKeyRow(once[m], contextid, capability);
        assert forall j :: 0 <= j < m ==> once[j] == rows[j];
      }
    }
    assert once[k.value := once[k.value].(json := json)] == once;
  }

  /** At most one row is stored under the key. */
  predicate AtMostOneKeyRow(rows: seq<ConfigRow>, contextid: int, capability: string) {
    forall i, j :: 0 <= i < |rows| && 0 <= j < |rows| ==>
      (IsKeyRow(rows[i], contextid, capability) && IsKeyRow(rows[j], contextid, capability) ==> i == j)
  }

  /** Save never duplicates a key: with at most one row under the key before,
      exactly one is there after. */
  lemma SaveKeepsKeyUnique(rows: seq<ConfigRow>, contextid: int, capability: string, json: seq<FieldEntry>)
    requires AtMostOneKeyRow(rows, contextid, capability)
    ensures var after := SaveConfiguredFields(rows, contextid, capability, json).rows;
      && AtMostOneKeyRow(after, contextid, capability)
      && exists k :: 0 <= k < |after| && IsKeyRow(after[k], contextid, capability)
  {
    var after := SaveConfiguredFields(rows, contextid, capability, json).rows;
    if FirstKeyRow(rows, contextid, capability).Some? {
      var m := FirstKeyRow(rows, contextid, capability).value;
      assert forall i :: 0 <= i < |after| ==> (IsKeyRow(after[i], contextid, capability) <==> IsKeyRow(rows[i], contextid, capability));
      assert IsKeyRow(after[m], contextid, capability);
    } else {
      assert IsKeyRow(after[|rows|], contextid, capability);
    }
  }

  /** After a save, the first row under the key holds the saved field list. */
  lemma SavedRow(rows: seq<ConfigRow>, contextid: int, capability: string, json: seq<FieldEntry>) returns (k: nat)
    ensures var after := SaveConfiguredFields(rows, contextid, capability, json).rows;
      && k < |after| && IsKeyRow(after[k], contextid, capability) && after[k].json == json
      && forall j :: 0 <= j < k ==> !IsKeyRow(after[j], contextid, capability)
  {
    var after := SaveConfiguredFields(rows, contextid, capability, json).rows;
    if FirstKeyRow(rows, contextid, capability).Some? {
      k := FirstKeyRow(rows, contextid, capability).value;
      assert forall i :: 0 <= i < |after| ==> (IsKeyRow(after[i], contextid, capability) <==> IsKeyRow(rows[i], contextid, capability));
    } else {
      k := |rows|;
      assert forall j :: 0 <= j < k ==> after[j] == rows[j];
    }
  }

  /** A saved field list is what a later lookup at the same context returns,
      when that context is on its own path and outranks every other context
      on it. */
  lemma LookupAfterSave(
    contexts: ContextTable, rows: seq<ConfigRow>, registry: seq<FieldClass>,
    contextid: int, capability: string, json: seq<FieldEntry>)
    requires contextid in contexts
    requires contextid in CandidateIds(contexts[contextid].path)
    requires forall c :: c in CandidateIds(contexts[contextid].path) && c in contexts && c != contextid ==>
      contexts[c].contextlevel < contexts[contextid].contextlevel
    ensures var after := SaveConfiguredFields(rows, contextid, capability, json).rows;
      ConfiguredFieldsForCapability(contexts, after, registry, contextid, capability) ==
        Success(Configuration(contextid, capability, json))
  {
    var after := SaveConfiguredFields(rows, contextid, capability, json).rows;
    var ids := CandidateIds(contexts[contextid].path);
    var k := SavedRow(rows, contextid, capability, json);
    FirstRowOfTopContextWins(after, capability, ids, contexts, contextid, k);
  }

  /** When one context outranks every other candidate context, the first
      row stored under it is the row a lookup returns. */
  lemma FirstRowOfTopContextWins(rows: seq<ConfigRow>, capability: string, ids: seq<int>, contexts: ContextTable, contextid: int, k: nat)
    requires contextid in contexts && contextid in ids
    requires forall c :: c in ids && c in contexts && c != contextid ==>
      contexts[c].contextlevel < contexts[contextid].contextlevel
    requires k < |rows| && IsKeyRow(rows[k], contextid, capability)
    requires forall j :: 0 <= j < k ==> !IsKeyRow(rows[j], contextid, capability)
    ensures MostSpecific(rows, capability, ids, contexts) == Some(rows[k])
  {
    assert IsCandidate(rows[k], capability, ids, contexts);
    var m := MostSpecific(rows, capability, ids, contexts);
    assert RowLevel(rows[k], contexts) <= RowLevel(m.value, contexts);
    assert m.value.contextid == contextid;
    var p :| 0 <= p < |rows| && rows[p] == m.value &&
      (forall j :: 0 <= j < p && IsCandidate(rows[j], capability, ids, contexts) ==>
        RowLevel(rows[j], contexts) < RowLevel(m.value, contexts));
    assert p == k;
  }
}
