/**
  POST `/quiz/submit`: the 30-second duplicate window, the per-answer correctness rule, the
  score, the rounded percentage and its grade, and the attempt stored in `userScores`.
*/
module Submission {
  import opened Records

  /** One submitted answer; `selectedOptions` is `None` when the field is absent or falsy. */
  datatype Answer = Answer(questionId: string, selectedOptions: Option<seq<string>>)

  /** `answer.selectedOptions || []` */
  function Selected(a: Answer): (s: seq<string>)
    ensures a.selectedOptions.Some? ==> s == a.selectedOptions.value
    ensures a.selectedOptions.None? ==> s == []
  {
    if a.selectedOptions.Some? then a.selectedOptions.value else []
  }

  /**
    The correctness rule: one correct value and one selection compare directly; otherwise the
    lists must have the same length and each must contain every member of the other. Both
    branches amount to one rule: same length, same members.
  */
  function IsCorrectAnswer(correct: seq<string>, selected: seq<string>): (b: bool)
    ensures b <==> |correct| == |selected| && forall v :: v in correct <==> v in selected
  {
    if |correct| == 1 && |selected| == 1 then
      assert correct == [correct[0]] && selected == [selected[0]];
      assert correct[0] in correct;
      selected[0] == correct[0]
    else
      && |correct| == |selected|
      && (forall v :: v in correct ==> v in selected)
      && (forall v :: v in selected ==> v in correct)
  }

  /** The order of the selection does not matter, and nothing selected is right exactly when nothing is correct. */
  lemma SelectionOrderIrrelevant(correct: seq<string>, s1: seq<string>, s2: seq<string>)
    requires multiset(s1) == multiset(s2)
    ensures IsCorrectAnswer(correct, s1) == IsCorrectAnswer(correct, s2)
    ensures IsCorrectAnswer(correct, []) <==> correct == []
  {
    assert |s1| == |multiset(s1)| == |multiset(s2)| == |s2|;
    forall v ensures v in s1 <==> v in s2 {
      assert v in s1 <==> v in multiset(s1);
    }
    if correct != [] {
      assert correct[0] in correct;
    }
  }

  /** One option of a detailed result. */
  datatype OptionResult = OptionResult(value: string, isCorrect: bool, isSelected: bool)

  /** One entry of `detailedResults`. */
  datatype DetailedResult =
    | Missing(questionId: string)   // `correct: false`, "Question not found"
    | Checked(questionId: string, question: string, correct: bool, options: seq<OptionResult>,
              explanation: Option<string>)
  {
    predicate IsCorrect() {
      Checked? && correct
    }
  }

  /** The options of a checked question, each marked as selected or not. */
  function Marked(options: seq<AnswerOption>, selected: seq<string>): (r: seq<OptionResult>)
    ensures |r| == |options|
    ensures forall k :: 0 <= k < |r| ==>
              && r[k].value == options[k].value && r[k].isCorrect == options[k].isCorrect
              && (r[k].isSelected <==> options[k].value in selected)
  {
    if options == [] then []
    else [OptionResult(options[0].value, options[0].isCorrect, options[0].value in selected)]
         + Marked(options[1..], selected)
  }

  /** The detailed result of one answer against the questions found. */
  function Check(answer: Answer, found: seq<Question>): (r: DetailedResult)
    ensures r.questionId == answer.questionId
    ensures FindQuestion(found, answer.questionId).None? <==> r.Missing?
    ensures r.Checked? ==>
              var q := FindQuestion(found, answer.questionId).value;
              && (r.correct <==> IsCorrectAnswer(CorrectValues(q.options), Selected(answer)))
              && r.options == Marked(q.options, Selected(answer))
              && r.explanation == (if Truthy(q.explanation) then q.explanation else None)
  {
    match FindQuestion(found, answer.questionId)
    case None => Missing(answer.questionId)
    case Some(q) =>
      Checked(answer.questionId, q.text, IsCorrectAnswer(CorrectValues(q.options), Selected(answer)),
              Marked(q.options, Selected(answer)),
              if Truthy(q.explanation) then q.explanation else None)
  }

  /** The number of results marked correct. */
  function CountRight(results: seq<DetailedResult>): (n: nat)
    ensures n <= |results|
  {
    if results == [] then 0
    else (if results[0].IsCorrect() then 1 else 0) + CountRight(results[1..])
  }

  lemma {:induction false} CountRightAppend(a: seq<DetailedResult>, b: seq<DetailedResult>)
    ensures CountRight(a + b) == CountRight(a) + CountRight(b)
  {
    if a != [] {
      assert (a + b)[1..] == a[1..] + b;
      CountRightAppend(a[1..], b);
    } else {
      assert a + b == b;
    }
  }

  /**
    The `answers.map` of the route: each answer checked in order, `score` increased for each
    correct one.
  */
  method Score(answers: seq<Answer>, found: seq<Question>) returns (score: nat, detailedResults: seq<DetailedResult>)
    ensures |detailedResults| == |answers|
    ensures forall k :: 0 <= k < |answers| ==> detailedResults[k] == Check(answers[k], found)
    ensures score == CountRight(detailedResults) <= |answers|
  {
    score, detailedResults := 0, [];
    var i := 0;
    while i < |answers|
      invariant 0 <= i <= |answers|
      invariant |detailedResults| == i
      invariant forall k :: 0 <= k < i ==> detailedResults[k] == Check(answers[k], found)
      invariant score == CountRight(detailedResults)
    {
      var result := Check(answers[i], found);
      CountRightAppend(detailedResults, [result]);
      if result.IsCorrect() {
        score := score + 1;
      }
      detailedResults := detailedResults + [result];
      i := i + 1;
    }
  }

  /**
    `Math.round((score / total) * 100)` for a positive number of questions found, rounding
    halves up; `None` for no question found, where the division gives `NaN`.
  */
  function Percentage(score: nat, total: nat): (p: Option<int>)
    ensures total == 0 <==> p.None?
    ensures p.Some? ==> 2 * total * p.value <= 200 * score + total < 2 * total * (p.value + 1)
  {
    if total == 0 then None else Some((200 * score + total) / (2 * total))
  }

  /** Multiplying by a natural number keeps the order. */
  lemma {:induction false} MulMonotone(c: nat, x: int, y: int)
    requires x <= y
    ensures c * x <= c * y
  {
    if c > 0 {
      MulMonotone(c - 1, x, y);
      assert c * x == (c - 1) * x + x && c * y == (c - 1) * y + y;
    }
  }

  /** With at most as many right answers as questions, the percentage lies in [0, 100], and all right gives 100. */
  lemma PercentageBounds(score: nat, total: nat)
    requires 0 < total && score <= total
    ensures 0 <= Percentage(score, total).value <= 100
    ensures score == total ==> Percentage(score, total).value == 100
  {
    var p := Percentage(score, total).value;
    MulMonotone(200, score, total);
    if p > 100 {
      MulMonotone(2 * total, 101, p);
    }
    if p < 0 {
      MulMonotone(2 * total, p + 1, 0);
    }
    if score == total && p < 100 {
      MulMonotone(2 * total, p + 1, 100);
    }
  }

  /** More right answers never lower the percentage. */
  lemma PercentageMonotone(s1: nat, s2: nat, total: nat)
    requires 0 < total && s1 <= s2
    ensures Percentage(s1, total).value <= Percentage(s2, total).value
  {
    var p1, p2 := Percentage(s1, total).value, Percentage(s2, total).value;
    MulMonotone(200, s1, s2);
    if p1 > p2 {
      MulMonotone(2 * total, p2 + 1, p1);
    }
  }

  const Grades: seq<string> := ["Try Again", "Pass", "Fair", "Good", "Very Good", "Excellent"]

  /** The grade ladder; a percentage of `NaN` fails every comparison and gets "Try Again". */
  function Grade(percentage: Option<int>): (g: string)
    ensures g in Grades
    ensures g == "Excellent" <==> percentage.Some? && percentage.value >= 90
    ensures g == "Try Again" <==> percentage.None? || percentage.value < 50
  {
    if percentage.None? then "Try Again"
    else if percentage.value >= 90 then "Excellent"
    else if percentage.value >= 80 then "Very Good"
    else if percentage.value >= 70 then "Good"
    else if percentage.value >= 60 then "Fair"
    else if percentage.value >= 50 then "Pass"
    else "Try Again"
  }

  /** The rank of a grade on the ladder, "Try Again" lowest. */
  function GradeRank(g: string): nat {
    if g == "Excellent" then 5 else if g == "Very Good" then 4 else if g == "Good" then 3
    else if g == "Fair" then 2 else if g == "Pass" then 1 else 0
  }

  /** The grade is monotone in the percentage, and each step of the ladder starts at its threshold. */
  lemma GradeMonotone(p: int, q: int)
    requires p <= q
    ensures GradeRank(Grade(Some(p))) <= GradeRank(Grade(Some(q)))
    ensures GradeRank(Grade(Some(p))) == if p >= 50 then (if p >= 90 then 5 else (p - 40) / 10) else 0
  {
  }

  /**
    The denominator is the number of questions found, not the number of answers: an answer
    sent twice for the same question counts twice in the score and once in the total, and the
    percentage passes 100.
  */
  lemma RepeatedAnswerPassesHundred(q: Question, a: Answer)
    requires a.questionId == q.id
    requires IsCorrectAnswer(CorrectValues(q.options), Selected(a))
    ensures CountRight([Check(a, [q]), Check(a, [q])]) == 2
    ensures Percentage(2, |[q]|) == Some(200) && Grade(Percentage(2, 1)) == "Excellent"
  {
    assert FindQuestion([q], a.questionId) == Some(q);
    assert [Check(a, [q]), Check(a, [q])][1..] == [Check(a, [q])];
  }

  /** The ids of the answers as the store compares them. */
  function StoreIds(answers: seq<Answer>): (ids: seq<string>)
    ensures |ids| == |answers|
    ensures forall k :: 0 <= k < |answers| ==> ids[k] == LowerHex(answers[k].questionId)
  {
    if answers == [] then [] else [LowerHex(answers[0].questionId)] + StoreIds(answers[1..])
  }

  /**
    The store matches an id written in upper-case hexadecimal, but the lookup by string does
    not: such an answer counts in the total and scores as "Question not found".
  */
  lemma UpperCaseIdCountsButMisses(q: Question, a: Answer)
    requires q.id == LowerHex(a.questionId) && a.questionId != q.id
    ensures FindByIds([q], StoreIds([a])) == [q]
    ensures Check(a, FindByIds([q], StoreIds([a]))) == Missing(a.questionId)
  {
    assert StoreIds([a]) == [q.id];
  }

  /** A document of the `userScores` collection. */
  datatype Attempt = Attempt(userId: string, username: string, email: string, score: nat,
                             totalQuestions: nat, percentage: Option<int>, grade: string,
                             detailedResults: seq<DetailedResult>, submittedAt: int, emailSent: bool)

  /** The duplicate window: an attempt submitted strictly less than 30 seconds ago. */
  const DuplicateWindow: int := 30000

  predicate IsRecent(a: Attempt, userId: string, now: int) {
    a.userId == userId && a.submittedAt > now - DuplicateWindow
  }

  /** `findOne({ userId, submittedAt: { $gt: now - 30000 } })` */
  function FindRecent(attempts: seq<Attempt>, userId: string, now: int): (r: Option<Attempt>)
    ensures r.None? <==> forall k :: 0 <= k < |attempts| ==> !IsRecent(attempts[k], userId, now)
    ensures r.Some? ==> r.value in attempts && IsRecent(r.value, userId, now)
  {
    if attempts == [] then None
    else if IsRecent(attempts[0], userId, now) then Some(attempts[0])
    else FindRecent(attempts[1..], userId, now)
  }

  /** An attempt blocks a new one for 30 seconds: still at 29 999 ms, no longer at 30 000 ms. */
  lemma DuplicateWindowBoundary(a: Attempt)
    ensures FindRecent([a], a.userId, a.submittedAt + DuplicateWindow - 1) == Some(a)
    ensures FindRecent([a], a.userId, a.submittedAt + DuplicateWindow) == None
  {
  }

  /** `findOne({ userId }, { sort: { score: -1 } })`: the best score of the user, if any attempt exists. */
  function BestScore(attempts: seq<Attempt>, userId: string): (best: Option<nat>)
    ensures best.None? <==> forall k :: 0 <= k < |attempts| ==> attempts[k].userId != userId
    ensures best.Some? ==> exists k :: 0 <= k < |attempts| && attempts[k].userId == userId && attempts[k].score == best.value
    ensures best.Some? ==> forall k :: 0 <= k < |attempts| && attempts[k].userId == userId ==> attempts[k].score <= best.value
  {
    if attempts == [] then None
    else
      var rest := BestScore(attempts[1..], userId);
      if attempts[0].userId != userId then
        assert forall k :: 1 <= k < |attempts| ==> attempts[k] == attempts[1..][k - 1];
        rest
      else if rest.Some? && rest.value >= attempts[0].score then
        assert forall k :: 1 <= k < |attempts| ==> attempts[k] == attempts[1..][k - 1];
        rest
      else
        assert forall k :: 1 <= k < |attempts| ==> attempts[k] == attempts[1..][k - 1];
        Some(attempts[0].score)
  }

  /**
    The best score is read after the new attempt is stored, so the new score can never beat
    it: `isBestScore` is false on every submission.
  */
  lemma {:induction false} NewAttemptNeverBest(attempts: seq<Attempt>, attempt: Attempt)
    ensures BestScore(attempts + [attempt], attempt.userId).Some?
    ensures !(attempt.score > BestScore(attempts + [attempt], attempt.userId).value)
  {
    var all := attempts + [attempt];
    assert all[|attempts|] == attempt;
  }

  /** What the route answers. */
  datatype SubmitReply =
    | Failed(reply: Reply)
    | Scored(score: nat, totalQuestions: nat, percentage: Option<int>, grade: string,
             isBestScore: bool, detailedResults: seq<DetailedResult>)

  /** Every answer's question id is a valid `ObjectId` rendering (otherwise the route throws). */
  predicate AllObjectIds(answers: seq<Answer>) {
    forall k :: 0 <= k < |answers| ==> IsObjectId(answers[k].questionId)
  }

  /** The `userScores` collection. */
  class UserScores {
    var attempts: seq<Attempt>

    constructor ()
      ensures attempts == []
    {
      attempts := [];
    }

    /**
      POST `/quiz/submit` for the authenticated `userId`: 400 without an answer array; the
      stored result, reported as not best, when an attempt of the user is under 30 seconds
      old; otherwise the answers are scored against the questions found, the attempt is
      stored, and the result is answered. `mailSent` is whether the result mail went out,
      which marks the stored attempt; ids that are no `ObjectId` and an unknown user answer 500.
    */
    method Submit(userId: string, answers: Option<seq<Answer>>, pool: seq<Question>, users: seq<User>,
                  now: int, mailSent: bool) returns (r: SubmitReply)
      modifies this
      ensures answers.None? ==> r == Failed(Reply(400, "Invalid answers format")) && attempts == old(attempts)
      ensures answers.Some? && !IsObjectId(userId) ==>
                r == Failed(Reply(500, "Internal server error")) && attempts == old(attempts)
      ensures answers.Some? && IsObjectId(userId) && FindRecent(old(attempts), userId, now).Some? ==>
                var a := FindRecent(old(attempts), userId, now).value;
                && r == Scored(a.score, a.totalQuestions, a.percentage, a.grade, false, a.detailedResults)
                && attempts == old(attempts)
      ensures answers.Some? && IsObjectId(userId) && FindRecent(old(attempts), userId, now).None?
              && !(AllObjectIds(answers.value) && FindUser(users, userId).Some?) ==>
                r == Failed(Reply(500, "Internal server error")) && attempts == old(attempts)
      ensures answers.Some? && IsObjectId(userId) && FindRecent(old(attempts), userId, now).None?
              && AllObjectIds(answers.value) && FindUser(users, userId).Some? ==>
                var found := FindByIds(pool, StoreIds(answers.value));
                var user := FindUser(users, userId).value;
                && r.Scored?
                && |r.detailedResults| == |answers.value|
                && (forall k :: 0 <= k < |answers.value| ==> r.detailedResults[k] == Check(answers.value[k], found))
                && r.score == CountRight(r.detailedResults)
                && r.totalQuestions == |found|
                && r.percentage == Percentage(r.score, |found|)
                && r.grade == Grade(r.percentage)
                && attempts == old(attempts) + [Attempt(userId, user.username, user.email, r.score, |found|,
                                                        r.percentage, r.grade, r.detailedResults, now, mailSent)]
      ensures r.Scored? ==> !r.isBestScore
    {
      if answers.None? {
        return Failed(Reply(400, "Invalid answers format"));
      }
      if !IsObjectId(userId) {
        return Failed(Reply(500, "Internal server error"));
      }
      var recentSubmission := FindRecent(attempts, userId, now);
      if recentSubmission.Some? {
        var a := recentSubmission.value;
        return Scored(a.score, a.totalQuestions, a.percentage, a.grade, false, a.detailedResults);
      }
      var list := answers.value;
      if !AllObjectIds(list) {
        return Failed(Reply(500, "Internal server error"));
      }
      var questions := FindByIds(pool, StoreIds(list));
      var score, detailedResults := Score(list, questions);
      var percentage := Percentage(score, |questions|);
      var grade := Grade(percentage);
      var user := FindUser(users, userId);
      if user.None? {
        return Failed(Reply(500, "Internal server error"));
      }
      var quizAttempt := Attempt(userId, user.value.username, user.value.email, score, |questions|,
                                 percentage, grade, detailedResults, now, false);
      attempts := attempts + [quizAttempt];
      var userBestScore := BestScore(attempts, userId);
      NewAttemptNeverBest(old(attempts), quizAttempt);
      var isBestScore := userBestScore.None? || score > userBestScore.value;
      if mailSent {
        attempts := attempts[|attempts| - 1 := quizAttempt.(emailSent := true)];
      }
      assert attempts == old(attempts) + [quizAttempt.(emailSent := mailSent)];
      r := Scored(score, |questions|, percentage, grade, isBestScore, detailedResults);
    }
  }
}
