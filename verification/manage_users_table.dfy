/** Row actions of the manager's booked-users table
    (classes/table/manageusers_table.php): reordering rows by rewriting
    their `timemodified`, confirming and deleting a booking, and the list
    of action buttons a row shows.

    The booking_answers table and the table's cached rows are maps from
    answer id to answer. The capability check is the set of course modules
    on which the user holds mod/booking:bookforothers; the booking-option
    calls it guards are returned as effects instead of being performed. */
module ManageUsersTable {
  import opened Outcomes
  import opened MoodleTables

  type AnswerTable = map<int, Answer>

  /** The array an action returns; reload is absent unless set. */
  datatype Response = Response(success: int, message: string, reload: Option<int>)

  const ReorderMessage := "This is just a demo, reordering has to be implemented for each table"
  const DoneMessage := "Booking is not yet implemented."
  const NoRightMessage := "No right to book"
  const BookForOthers := "mod/booking:bookforothers"

  // ---------------------------------------------------------------------
  // Reordering

  /** The loop reads the cached row of an id only at a reseeding position:
      the first id, and any id after a running value of 0. Every id read
      there is a row of the table's cached data. */
  predicate ReadsCached(raw: AnswerTable, ids: seq<int>)
    decreases |ids|, 0
  {
    |ids| == 0 ||
      var front := ids[..|ids| - 1];
      && ReadsCached(raw, front)
      && (LastTime(raw, front) == 0 ==> ids[|ids| - 1] in raw)
  }

  /** The running value after the loop has seen ids: 0 before the first. */
  function LastTime(raw: AnswerTable, ids: seq<int>): int
    requires ReadsCached(raw, ids)
    decreases |ids|, 2
  {
    if |ids| == 0 then 0 else ReorderTimes(raw, ids)[|ids| - 1]
  }

  /** The timestamps the reorder loop assigns to ids, in order: an empty
      running value restarts from the row's own cached timestamp, any other
      is incremented. */
  function ReorderTimes(raw: AnswerTable, ids: seq<int>): (t: seq<int>)
    requires ReadsCached(raw, ids)
    ensures |t| == |ids|
    decreases |ids|, 1
  {
    if |ids| == 0 then []
    else
      var front := ids[..|ids| - 1];
      var previous := LastTime(raw, front);
      ReorderTimes(raw, front) + [if previous == 0 then raw[ids[|ids| - 1]].timemodified else previous + 1]
  }

  /** The loop seeds from the first row's cached timestamp, and each later
      value is the previous one plus one, unless the previous one was 0, in
      which case the row's own cached timestamp is taken. Only the rows read
      at those reseeding positions need be cached. */
  lemma {:induction false} ReorderTimesStep(raw: AnswerTable, ids: seq<int>)
    requires ReadsCached(raw, ids)
    ensures var t := ReorderTimes(raw, ids);
      && (forall i :: 0 <= i < |ids| && (i == 0 || t[i - 1] == 0) ==> ids[i] in raw)
      && (|ids| > 0 ==> t[0] == raw[ids[0]].timemodified)
      && (forall i :: 0 < i < |ids| ==>
            t[i] == if t[i - 1] == 0 then raw[ids[i]].timemodified else t[i - 1] + 1)
  {
    if |ids| > 0 {
      var front := ids[..|ids| - 1];
      ReorderTimesStep(raw, front);
      var t := ReorderTimes(raw, ids);
      assert t[..|ids| - 1] == ReorderTimes(raw, front);
      assert forall i :: 0 <= i < |front| ==> front[i] == ids[i];
    }
  }

  /** A positive seed yields consecutive timestamps: seed, seed + 1, ...;
      then only the first id's row is read, so only it need be cached. */
  lemma {:induction false} ReorderTimesConsecutive(raw: AnswerTable, ids: seq<int>)
    requires |ids| > 0 && ids[0] in raw && raw[ids[0]].timemodified > 0
    ensures ReadsCached(raw, ids)
    ensures forall i :: 0 <= i < |ids| ==> ReorderTimes(raw, ids)[i] == raw[ids[0]].timemodified + i
  {
    var n := |ids|;
    if n == 1 {
      assert ids[..0] == [];
    } else {
      var front := ids[..n - 1];
      assert front[0] == ids[0];
      ReorderTimesConsecutive(raw, front);
      assert LastTime(raw, front) == raw[ids[0]].timemodified + n - 2 > 0;
      assert ReorderTimes(raw, ids)[..n - 1] == ReorderTimes(raw, front);
    }
  }

  /** booking_answers after writing times[i] into the timemodified of
      ids[i], one id after the other; an id with no row changes nothing. */
  function Rewrite(db: AnswerTable, ids: seq<int>, times: seq<int>): (r: AnswerTable)
    requires |ids| == |times|
    ensures r.Keys == db.Keys
    ensures forall id :: id in r ==> r[id].(timemodified := db[id].timemodified) == db[id]
  {
    if |ids| == 0 then db
    else
      var n := |ids| - 1;
      var before := Rewrite(db, ids[..n], times[..n]);
      if ids[n] in before then before[ids[n] := before[ids[n]].(timemodified := times[n])] else before
  }

  /** i is the last position of its id in ids. */
  predicate IsLastOccurrence(ids: seq<int>, i: int) {
    0 <= i < |ids| && forall j :: i < j < |ids| ==> ids[j] != ids[i]
  }

  /** Rewriting keeps the set of answers, changes nothing but timemodified
      and leaves answers not listed alone. */
  lemma {:induction false} RewriteFrame(db: AnswerTable, ids: seq<int>, times: seq<int>)
    requires |ids| == |times|
    ensures var after := Rewrite(db, ids, times);
      && after.Keys == db.Keys
      && (forall id :: id in db ==> after[id] == db[id].(timemodified := after[id].timemodified))
      && (forall id :: id in db && id !in ids ==> after[id] == db[id])
  {
    if |ids| > 0 {
      var n := |ids| - 1;
      RewriteFrame(db, ids[..n], times[..n]);
      assert forall id :: id !in ids ==> id !in ids[..n];
    }
  }

  /** Each listed answer ends with the time of its last occurrence in the
      list, and nothing but timemodified changes. */
  lemma {:induction false} RewriteLastWins(db: AnswerTable, ids: seq<int>, times: seq<int>)
    requires |ids| == |times|
    ensures var after := Rewrite(db, ids, times);
      && after.Keys == db.Keys
      && forall i :: IsLastOccurrence(ids, i) && ids[i] in db ==>
           after[ids[i]] == db[ids[i]].(timemodified := times[i])
  {
    if |ids| > 0 {
      var n := |ids| - 1;
      var front := ids[..n];
      var after := Rewrite(db, ids, times);
      var before := Rewrite(db, front, times[..n]);
      RewriteLastWins(db, front, times[..n]);
      RewriteLastStep(db, ids, times);
      forall i | IsLastOccurrence(ids, i) && ids[i] in db
        ensures after[ids[i]] == db[ids[i]].(timemodified := times[i])
      {
        var id := ids[i];
        assert id in before;
        if i < n {
          assert IsLastOccurrence(front, i) && front[i] == id && id != ids[n];
          assert after[id] == before[id];
        } else {
          assert before[id] == db[id].(timemodified := before[id].timemodified);
        }
      }
    }
  }

  /** The last write touches only its own answer, and only its timemodified. */
  lemma RewriteLastStep(db: AnswerTable, ids: seq<int>, times: seq<int>)
    requires |ids| == |times| > 0
    ensures var n := |ids| - 1;
      var before := Rewrite(db, ids[..n], times[..n]);
      var after := Rewrite(db, ids, times);
      && (ids[n] in before ==> after[ids[n]] == before[ids[n]].(timemodified := times[n]))
      && forall id :: id in before && id != ids[n] ==> after[id] == before[id]
  {
  }

  /** The reorder action: every id sent gets its timestamp rewritten in
      booking_answers (the last write wins for an id sent twice), nothing but
      timemodified changes, answers not sent are untouched, and the answer is
      always success = 1. */
  method ReorderRows(db: AnswerTable, raw: AnswerTable, ids: seq<int>) returns (updated: AnswerTable, response: Response)
    requires ReadsCached(raw, ids)
    ensures updated == Rewrite(db, ids, ReorderTimes(raw, ids))
    ensures updated.Keys == db.Keys
    ensures forall id :: id in db ==> updated[id] == db[id].(timemodified := updated[id].timemodified)
    ensures forall id :: id in db && id !in ids ==> updated[id] == db[id]
    ensures forall i :: IsLastOccurrence(ids, i) && ids[i] in db ==>
      updated[ids[i]] == db[ids[i]].(timemodified := ReorderTimes(raw, ids)[i])
    ensures response == Response(1, ReorderMessage, None)
  {
    var times := ReorderTimes(raw, ids);
    ReorderTimesStep(raw, ids);
    updated := db;
    var current := 0;
    var n := 0;
    while n < |ids|
      invariant 0 <= n <= |ids|
      invariant current == if n == 0 then 0 else times[n - 1]
      invariant updated == Rewrite(db, ids[..n], times[..n])
    {
      var id := ids[n];
      if current == 0 {
        current := raw[id].timemodified;
      } else {
        current := current + 1;
      }
      if id in updated {
        updated := updated[id := updated[id].(timemodified := current)];
      }
      assert ids[..n + 1][..n] == ids[..n];
      assert times[..n + 1][..n] == times[..n];
      n := n + 1;
    }
    assert ids[..n] == ids && times[..n] == times;
    RewriteFrame(db, ids, times);
    RewriteLastWins(db, ids, times);
    response := Response(1, ReorderMessage, None);
  }

  // ---------------------------------------------------------------------
  // Confirming and deleting a booking

  /** The booking-option call a permitted action makes. */
  datatype Effect =
    | SubmitResponse(cmid: int, optionid: int, userid: int)
    | DeleteResponse(cmid: int, optionid: int, userid: int)

  datatype ActionOutcome = ActionOutcome(response: Response, effect: Option<Effect>)

  /** Lookups that fail with an exception or a PHP error. */
  datatype ActionError = AnswerNotFound(answerid: int) | OptionNotFound(optionid: int)

  /** The answer an action is for, and the course module of its option. */
  datatype Target = Target(answer: Answer, cmid: int)

  /** Fetches the answer by id and the course module of its booking option. */
  function FindTarget(answers: AnswerTable, optionCms: map<int, int>, answerid: int): (r: Result<Target, ActionError>)
    ensures r.Success? <==> answerid in answers && answers[answerid].optionid in optionCms
    ensures r.Success? ==> r.value.answer == answers[answerid] && r.value.cmid == optionCms[answers[answerid].optionid]
  {
    if answerid !in answers then Failure(AnswerNotFound(answerid))
    else
      var answer := answers[answerid];
      if answer.optionid !in optionCms then Failure(OptionNotFound(answer.optionid))
      else Success(Target(answer, optionCms[answer.optionid]))
  }

  /** The refusal both actions return without the capability. */
  function Refused(): ActionOutcome {
    ActionOutcome(Response(0, NoRightMessage, None), None)
  }

  /** Confirms a booking from the waiting list: with bookforothers on the
      option's course module, the user's response is submitted and the table
      reloads; without it, success = 0 and nothing is changed. */
  function ConfirmBooking(answers: AnswerTable, optionCms: map<int, int>, canBookForOthers: set<int>, answerid: int): (r: Result<ActionOutcome, ActionError>)
    ensures r.Failure? <==> FindTarget(answers, optionCms, answerid).Failure?
    ensures r.Success? ==>
      var answer := answers[answerid];
      var cmid := optionCms[answer.optionid];
      && (r.value.response.success == 1 <==> cmid in canBookForOthers)
      && (r.value.response.success == 0 <==> cmid !in canBookForOthers)
      && (cmid in canBookForOthers ==>
            r.value.response.reload == Some(1) && r.value.effect == Some(SubmitResponse(cmid, answer.optionid, answer.userid)))
      && (cmid !in canBookForOthers ==>
            r.value.response.reload.None? && r.value.effect.None? && r.value.response.message == NoRightMessage)
  {
    var target :- FindTarget(answers, optionCms, answerid);
    if target.cmid in canBookForOthers then
      Success(ActionOutcome(
        Response(1, DoneMessage, Some(1)),
        Some(SubmitResponse(target.cmid, target.answer.optionid, target.answer.userid))))
    else
      Success(Refused())
  }

  /** Deletes a booking: with bookforothers on the option's course module,
      the user's response is deleted and the table reloads; without it,
      success = 0 and nothing is changed. */
  function DeleteBooking(answers: AnswerTable, optionCms: map<int, int>, canBookForOthers: set<int>, answerid: int): (r: Result<ActionOutcome, ActionError>)
    ensures r.Failure? <==> FindTarget(answers, optionCms, answerid).Failure?
    ensures r.Success? ==>
      var answer := answers[answerid];
      var cmid := optionCms[answer.optionid];
      && (r.value.response.success == 1 <==> cmid in canBookForOthers)
      && (r.value.response.success == 0 <==> cmid !in canBookForOthers)
      && (cmid in canBookForOthers ==>
            r.value.response.reload == Some(1) && r.value.effect == Some(DeleteResponse(cmid, answer.optionid, answer.userid)))
      && (cmid !in canBookForOthers ==>
            r.value.response.reload.None? && r.value.effect.None? && r.value.response.message == NoRightMessage)
  {
    var target :- FindTarget(answers, optionCms, answerid);
    if target.cmid in canBookForOthers then
      Success(ActionOutcome(
        Response(1, DoneMessage, Some(1)),
        Some(DeleteResponse(target.cmid, target.answer.optionid, target.answer.userid))))
    else
      Success(Refused())
  }

  // ---------------------------------------------------------------------
  // Action buttons

  /** The contents of one action button. */
  datatype ActionButton = ActionButton(
    methodname: string, cssclass: string, iclass: string, id: int,
    titlestring: string, bodystring: string, submitbuttonstring: string)

  const ConfirmMethod := "confirmbooking"
  const DeleteMethod := "deletebooking"

  function ConfirmButton(answerid: int): ActionButton {
    ActionButton(ConfirmMethod, "btn btn-nolabel", "fa fa-check", answerid,
      "confirmbooking", "confirmbookinglong", "booking:choose")
  }

  function DeleteButton(answerid: int): ActionButton {
    ActionButton(DeleteMethod, "", "fa fa-trash", answerid,
      "deletebooking", "deletebookinglong", "delete")
  }

  function CountMethod(buttons: seq<ActionButton>, methodname: string): (n: nat)
    ensures n <= |buttons|
  {
    if |buttons| == 0 then 0
    else (if buttons[0].methodname == methodname then 1 else 0) + CountMethod(buttons[1..], methodname)
  }

  /** The buttons of a row: a confirm button exactly when the option is not
      fully booked, then exactly one delete button, last; every button acts
      on the row's answer. */
  function ActionButtons(answerid: int, fullyBooked: bool): (buttons: seq<ActionButton>)
    ensures |buttons| == if fullyBooked then 1 else 2
    ensures !fullyBooked ==> buttons[0] == ConfirmButton(answerid)
    ensures buttons[|buttons| - 1] == DeleteButton(answerid)
    ensures CountMethod(buttons, DeleteMethod) == 1
    ensures CountMethod(buttons, ConfirmMethod) == if fullyBooked then 0 else 1
    ensures forall i :: 0 <= i < |buttons| ==> buttons[i].id == answerid
  {
    var confirm := if fullyBooked then [] else [ConfirmButton(answerid)];
    var buttons := confirm + [DeleteButton(answerid)];
    assert fullyBooked ==> buttons == [DeleteButton(answerid)];
    assert !fullyBooked ==> buttons[1..] == [DeleteButton(answerid)];
    buttons
  }
}
