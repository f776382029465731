/**
  The quiz-content routes: checking a code, then choosing between the administrator's daily
  set (for restricted e-mail addresses) and a random sample of at most 15 questions.
*/
module Content {
  import opened Records
  import opened QuizCodes
  import Restriction
  import DailyQuiz
  import ClientView

  /** The largest random sample the content route asks the store for. */
  const SampleSize: nat := 15

  /**
    A `$sample` draw of at most `SampleSize` distinct documents from a store of `n`: distinct
    positions, as many as the store can give.
  */
  predicate IsSample(picks: seq<nat>, n: nat) {
    && |picks| == Min(SampleSize, n)
    && (forall k :: 0 <= k < |picks| ==> picks[k] < n)
    && (forall i, j :: 0 <= i < j < |picks| ==> picks[i] != picks[j])
  }

  /**
    POST `/quiz/verify/quizcode`: 404 for an unknown code, 403 once the current time is
    strictly past its expiry, 200 otherwise. A missing code is looked up as no code at all.
  */
  function VerifyQuizCode(codes: seq<QuizCode>, quizcode: Option<string>, now: int): (r: Reply)
    ensures r.status == 404 <==> quizcode.None? || forall k :: 0 <= k < |codes| ==> codes[k].quizCode != quizcode.value
    ensures r.status == 403 ==> exists k :: 0 <= k < |codes| && codes[k].quizCode == quizcode.value && now > codes[k].expiresAt
    ensures r.status == 200 ==> exists k :: 0 <= k < |codes| && codes[k].quizCode == quizcode.value && now <= codes[k].expiresAt
    ensures r.status in {200, 403, 404}
  {
    if quizcode.None? then Reply(404, "Invalid quiz code")
    else match Validate(codes, quizcode.value, now)
      case NotFound => Reply(404, "Invalid quiz code")
      case Expired => Reply(403, "Quiz code expired")
      case Valid => Reply(200, "Quiz code verified")
  }

  /** What GET `/quiz/:quizcode` answers. */
  datatype QuizResponse =
    | Rejected(reply: Reply)
    | Served(questions: seq<ClientView.ClientQuestion>, isAdminSet: bool)

  /** Whether the request takes the administrator's path: a restricted address and a record for today. */
  predicate TakesAdminPath(email: Option<string>, restricted: seq<string>,
                           records: seq<DailyQuiz.DailyRecord>, today: int) {
    Truthy(email) && Restriction.IsRestricted(restricted, email.value)
    && DailyQuiz.FindToday(records, today).Some?
  }

  /** `questions` is the `$sample` draw `picks` of `pool`. */
  predicate IsDrawOf(questions: seq<Question>, picks: seq<nat>, pool: seq<Question>) {
    IsSample(picks, |pool|) && |questions| == |picks|
    && forall k :: 0 <= k < |picks| ==> questions[k] == pool[picks[k]]
  }

  /** `aggregate([{ $sample: { size: 15 } }])`: some draw of at most 15 distinct stored questions. */
  method SampleQuestions(pool: seq<Question>) returns (questions: seq<Question>)
    ensures |questions| == Min(SampleSize, |pool|)
    ensures exists picks :: IsDrawOf(questions, picks, pool)
  {
    var firstPicks := seq(Min(SampleSize, |pool|), k => k);
    assert IsSample(firstPicks, |pool|);
    var picks: seq<nat> :| IsSample(picks, |pool|);
    assert IsSample(picks, |pool|);
    questions := [];
    var i := 0;
    while i < |picks|
      invariant 0 <= i <= |picks|
      invariant |questions| == i
      invariant forall k :: 0 <= k < i ==> questions[k] == pool[picks[k]]
    {
      questions := questions + [pool[picks[i]]];
      i := i + 1;
    }
    assert IsDrawOf(questions, picks, pool);
  }

  /**
    GET `/quiz/:quizcode?email=`: after the code check (404 unknown, 403 expired), the
    questions of today's record are served with `isAdminSet` when the address is restricted
    and such a record exists; otherwise a random sample of at most 15 is served. Either way
    every question goes through the client view.
  */
  method GetQuiz(codes: seq<QuizCode>, quizcode: string, email: Option<string>, restricted: seq<string>,
                 records: seq<DailyQuiz.DailyRecord>, pool: seq<Question>, today: int, now: int)
    returns (r: QuizResponse)
    ensures Validate(codes, quizcode, now) == NotFound <==> r == Rejected(Reply(404, "Invalid quiz code"))
    ensures Validate(codes, quizcode, now) == Expired <==> r == Rejected(Reply(403, "Quiz code expired"))
    ensures Validate(codes, quizcode, now) == Valid <==> r.Served?
    ensures r.Served? ==> (r.isAdminSet <==> TakesAdminPath(email, restricted, records, today))
    ensures r.Served? && r.isAdminSet ==>
              ClientView.AreViewsOf(r.questions, FindByIds(pool, ObjectIdsOf(DailyQuiz.FindToday(records, today).value.questionIds)))
    ensures r.Served? && !r.isAdminSet ==>
              |r.questions| == Min(SampleSize, |pool|)
              && exists picks, drawn :: IsDrawOf(drawn, picks, pool) && ClientView.AreViewsOf(r.questions, drawn)
  {
    var status := Validate(codes, quizcode, now);
    if status == NotFound {
      return Rejected(Reply(404, "Invalid quiz code"));
    }
    if status == Expired {
      return Rejected(Reply(403, "Quiz code expired"));
    }
    var isRestricted := false;
    if Truthy(email) {
      isRestricted := Restriction.IsRestricted(restricted, email.value);
    }
    var dailyQuiz := DailyQuiz.FindToday(records, today);
    if dailyQuiz.None? || !isRestricted {
      var questions := SampleQuestions(pool);
      var view := ClientView.PrepareQuestionsForClient(questions);
      var picks :| IsDrawOf(questions, picks, pool);
      r := Served(view, false);
    } else {
      var questions := FindByIds(pool, ObjectIdsOf(dailyQuiz.value.questionIds));
      var view := ClientView.PrepareQuestionsForClient(questions);
      r := Served(view, true);
    }
  }
}
