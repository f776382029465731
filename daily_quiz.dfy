/**
  The `dailyQuiz` collection: the record of the questions an administrator chose for today,
  and the routes that read, set and reset it.
*/
module DailyQuiz {
  import opened Records
  import ClientView

  /** A document of the `dailyQuiz` collection; `date` is the local midnight it was set for. */
  datatype DailyRecord = DailyRecord(date: int, questionIds: seq<string>, isManuallySelected: bool,
                                     createdAt: int, createdBy: Option<string>)

  /** The filter `{ date: { $gte: today } }` every daily-quiz route uses. */
  predicate IsToday(r: DailyRecord, today: int) {
    r.date >= today
  }

  /** `findOne({ date: { $gte: today } })`: the first record dated today or later. */
  function FindToday(records: seq<DailyRecord>, today: int): (r: Option<DailyRecord>)
    ensures r.None? <==> forall k :: 0 <= k < |records| ==> !IsToday(records[k], today)
    ensures r.Some? ==> exists k :: 0 <= k < |records| && records[k] == r.value && IsToday(r.value, today)
                                    && forall j :: 0 <= j < k ==> !IsToday(records[j], today)
  {
    if records == [] then None
    else if IsToday(records[0], today) then Some(records[0])
    else
      var rest := FindToday(records[1..], today);
      assert rest.Some? ==> exists k :: 0 <= k < |records| && records[k] == rest.value && IsToday(rest.value, today)
                                       && forall j :: 0 <= j < k ==> !IsToday(records[j], today) by {
        if rest.Some? {
          var k :| 0 <= k < |records[1..]| && records[1..][k] == rest.value
                   && forall j :: 0 <= j < k ==> !IsToday(records[1..][j], today);
          assert records[k + 1] == rest.value;
          assert forall j :: 0 <= j < k + 1 ==> !IsToday(records[j], today) by {
            forall j | 0 <= j < k + 1 ensures !IsToday(records[j], today) {
              if j > 0 { assert records[j] == records[1..][j - 1]; }
            }
          }
        }
      }
      rest
  }

  /**
    `deleteOne({ date: { $gte: today } })`: the records without the first one dated today or
    later. At most one record goes, and only when one matches.
  */
  function DeleteToday(records: seq<DailyRecord>, today: int): (r: seq<DailyRecord>)
    ensures FindToday(records, today).None? ==> r == records
    ensures FindToday(records, today).Some? ==>
              |r| == |records| - 1 && multiset(r) == multiset(records) - multiset{FindToday(records, today).value}
  {
    if records == [] then []
    else if IsToday(records[0], today) then
      assert records == [records[0]] + records[1..];
      records[1..]
    else
      assert records == [records[0]] + records[1..];
      [records[0]] + DeleteToday(records[1..], today)
  }

  /** The invariant the set and reset routes rely on: no two records are dated today or later. */
  predicate AtMostOneToday(records: seq<DailyRecord>, today: int) {
    forall i, j :: 0 <= i < j < |records| && IsToday(records[i], today) ==> !IsToday(records[j], today)
  }

  /** With at most one record for today, deleting it leaves none. */
  lemma {:induction false} DeleteTodayLeavesNone(records: seq<DailyRecord>, today: int)
    requires AtMostOneToday(records, today)
    ensures forall k :: 0 <= k < |DeleteToday(records, today)| ==> !IsToday(DeleteToday(records, today)[k], today)
  {
    if records != [] && !IsToday(records[0], today) {
      DeleteTodayLeavesNone(records[1..], today);
    }
  }

  /** The record POST `/daily-quiz/set` inserts. */
  function ManualRecord(questionIds: seq<string>, adminId: Option<string>, today: int, now: int): DailyRecord {
    DailyRecord(today, questionIds, true, now, adminId)
  }

  /**
    After setting with the invariant holding, today's record is exactly the new one, with the
    given ids and the manual flag, and the invariant still holds.
  */
  lemma {:induction false} SetMakesNewRecordToday(records: seq<DailyRecord>, questionIds: seq<string>,
                                                  adminId: Option<string>, today: int, now: int)
    requires AtMostOneToday(records, today)
    ensures var after := DeleteToday(records, today) + [ManualRecord(questionIds, adminId, today, now)];
            && FindToday(after, today) == Some(ManualRecord(questionIds, adminId, today, now))
            && AtMostOneToday(after, today)
  {
    var rest := DeleteToday(records, today);
    var after := rest + [ManualRecord(questionIds, adminId, today, now)];
    DeleteTodayLeavesNone(records, today);
    assert forall k :: 0 <= k < |rest| ==> after[k] == rest[k];
    assert after[|rest|] == ManualRecord(questionIds, adminId, today, now);
    assert IsToday(after[|rest|], today);
    assert FindToday(after, today).Some?;
    var k :| 0 <= k < |after| && after[k] == FindToday(after, today).value && IsToday(after[k], today)
             && forall j :: 0 <= j < k ==> !IsToday(after[j], today);
    assert k == |rest|;
  }

  /**
    `deleteOne` removes only the first matching record: when two records are dated today, the
    older one still answers `findOne` after a set, and the administrator's choice is hidden.
  */
  lemma SetWithTwoTodayRecordsKeepsStaleOne(stale1: DailyRecord, stale2: DailyRecord,
                                           questionIds: seq<string>, adminId: Option<string>, today: int, now: int)
    requires IsToday(stale1, today) && IsToday(stale2, today)
    requires stale2.questionIds != questionIds
    ensures var after := DeleteToday([stale1, stale2], today) + [ManualRecord(questionIds, adminId, today, now)];
            && |after| == 2
            && FindToday(after, today) == Some(stale2)
            && FindToday(after, today).value.questionIds != questionIds
  {
    var after := DeleteToday([stale1, stale2], today) + [ManualRecord(questionIds, adminId, today, now)];
    assert DeleteToday([stale1, stale2], today) == [stale2];
    assert after == [stale2, ManualRecord(questionIds, adminId, today, now)];
  }

  /** The view GET `/daily-quiz` answers. */
  datatype TodayView =
    | NoDailyQuiz   // 404 "No daily quiz found for today"
    | Today(date: int, questions: seq<ClientView.ClientQuestion>, isManuallySelected: bool)

  /**
    GET `/daily-quiz`: 404 without a record for today; otherwise the questions whose ids are
    listed, compared as `ObjectId`s, found in the store (store order), each in its client view
    without an explanation.
  */
  method GetToday(records: seq<DailyRecord>, pool: seq<Question>, today: int) returns (v: TodayView)
    ensures FindToday(records, today).None? <==> v == NoDailyQuiz
    ensures v.Today? ==>
              var rec := FindToday(records, today).value;
              var found := FindByIds(pool, ObjectIdsOf(rec.questionIds));
              && v.date == rec.date && v.isManuallySelected == rec.isManuallySelected
              && ClientView.AreViewsOf(v.questions, found)
              && forall k :: 0 <= k < |found| ==>
                   v.questions[k].id in ObjectIdsOf(rec.questionIds) && v.questions[k].explanation == None
  {
    var dailyQuiz := FindToday(records, today);
    if dailyQuiz.None? {
      return NoDailyQuiz;
    }
    var objectIds := ObjectIdsOf(dailyQuiz.value.questionIds);
    var questions := FindByIds(pool, objectIds);
    var bare := seq(|questions|, k requires 0 <= k < |questions| => questions[k].(explanation := None));
    var clientQuestions := ClientView.PrepareQuestionsForClient(bare);
    ViewsIgnoreExplanation(clientQuestions, bare, questions);
    FoundIdsListed(pool, objectIds);
    v := Today(dailyQuiz.value.date, clientQuestions, dailyQuiz.value.isManuallySelected);
  }

  /** Every question found by id has one of the ids asked for. */
  lemma FoundIdsListed(pool: seq<Question>, ids: seq<string>)
    ensures forall k :: 0 <= k < |FindByIds(pool, ids)| ==> FindByIds(pool, ids)[k].id in ids
  {
    var found := FindByIds(pool, ids);
    forall k | 0 <= k < |found| ensures found[k].id in ids {
      assert found[k] in found;
    }
  }

  /** A view of a question without its explanation is a view of the question itself. */
  lemma ViewsIgnoreExplanation(views: seq<ClientView.ClientQuestion>, bare: seq<Question>, questions: seq<Question>)
    requires ClientView.AreViewsOf(views, bare) && |bare| == |questions|
    requires forall k :: 0 <= k < |bare| ==> bare[k] == questions[k].(explanation := None)
    ensures ClientView.AreViewsOf(views, questions)
  {
    forall k | 0 <= k < |views| ensures ClientView.IsViewOf(views[k], questions[k]) {
      assert ClientView.IsViewOf(views[k], bare[k]);
    }
  }

  /** The `dailyQuiz` collection. */
  class DailyQuizCollection {
    var records: seq<DailyRecord>

    constructor ()
      ensures records == []
    {
      records := [];
    }

    /**
      POST `/daily-quiz/set`: 400 and no change for a missing, non-array or empty id list;
      otherwise the first record dated today or later is deleted, and then a manual record
      with the given ids, as the `ObjectId`s the store holds (hexadecimal in lower case), is
      inserted. An id `ObjectId` rejects fails the insert after the delete (500), leaving no
      record for today.
    */
    method Set(questionIds: Option<seq<string>>, adminId: Option<string>, today: int, now: int) returns (r: Reply)
      modifies this
      ensures questionIds.None? || questionIds.value == [] ==>
                r == Reply(400, "Question IDs are required") && records == old(records)
      ensures questionIds.Some? && questionIds.value != [] && !(forall k :: 0 <= k < |questionIds.value| ==> IsObjectId(questionIds.value[k])) ==>
                r == Reply(500, "Internal server error") && records == DeleteToday(old(records), today)
      ensures questionIds.Some? && questionIds.value != [] && (forall k :: 0 <= k < |questionIds.value| ==> IsObjectId(questionIds.value[k])) ==>
                && r == Reply(200, "Daily quiz set successfully")
                && records == DeleteToday(old(records), today) + [ManualRecord(ObjectIdsOf(questionIds.value), adminId, today, now)]
    {
      if questionIds.None? || |questionIds.value| == 0 {
        return Reply(400, "Question IDs are required");
      }
      records := DeleteToday(records, today);
      var ids := questionIds.value;
      var i := 0;
      while i < |ids|
        invariant 0 <= i <= |ids|
        invariant forall k :: 0 <= k < i ==> IsObjectId(ids[k])
      {
        if !IsObjectId(ids[i]) {
          return Reply(500, "Internal server error");
        }
        i := i + 1;
      }
      records := records + [ManualRecord(ObjectIdsOf(ids), adminId, today, now)];
      r := Reply(200, "Daily quiz set successfully");
    }

    /**
      POST `/daily-quiz/reset`: 404 when no record is dated today or later; otherwise the first
      such record is deleted.
    */
    method Reset(today: int) returns (r: Reply)
      modifies this
      ensures FindToday(old(records), today).None? ==>
                r == Reply(404, "No daily quiz found for today") && records == old(records)
      ensures FindToday(old(records), today).Some? ==>
                r == Reply(200, "Daily quiz reset successfully") && records == DeleteToday(old(records), today)
      ensures AtMostOneToday(old(records), today) ==> FindToday(records, today).None?
    {
      var before := |records|;
      if AtMostOneToday(records, today) {
        DeleteTodayLeavesNone(records, today);
      }
      records := DeleteToday(records, today);
      if |records| == before {
        return Reply(404, "No daily quiz found for today");
      }
      r := Reply(200, "Daily quiz reset successfully");
    }
  }
}
