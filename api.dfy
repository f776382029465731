/**
  The older question API: the in-place Fisher–Yates shuffle, its code check, its question
  view, its answer check, and saving, updating and deleting questions.
*/
module Api {
  import opened Records
  import opened QuizCodes
  import ClientView
  import Content
  import Submission

  /** A `Math.random()` draw. */
  predicate IsDraw(r: real) {
    0.0 <= r < 1.0
  }

  /** One draw per position of an array of length `n`; the draw at `i` is the one taken when the loop counter is `i`. */
  predicate AreDraws(draws: seq<real>, n: nat) {
    |draws| == n && forall k :: 0 <= k < n ==> IsDraw(draws[k])
  }

  /** `Math.floor(Math.random() * (i + 1))`: a position in [0, i]. */
  function SwapIndex(r: real, i: nat): (j: nat)
    requires IsDraw(r)
    ensures j <= i
  {
    var n := (i + 1) as real;
    ProductBelow(r, n);
    (r * n).Floor
  }

  lemma ProductBelow(r: real, n: real)
    requires 0.0 <= r < 1.0 && n > 0.0
    ensures 0.0 <= r * n < n
  {
    assert n - r * n == (1.0 - r) * n;
  }

  /** `[s[i], s[j]] = [s[j], s[i]]` */
  function Swap<T>(s: seq<T>, i: nat, j: nat): (t: seq<T>)
    requires i < |s| && j < |s|
    ensures |t| == |s|
  {
    s[i := s[j]][j := s[i]]
  }

  /** The rounds of the shuffle from counter `i` down to 1. */
  function ShuffleFrom<T>(s: seq<T>, draws: seq<real>, i: nat): (t: seq<T>)
    requires AreDraws(draws, |s|) && i < |s|
    ensures |t| == |s|
    decreases i
  {
    if i == 0 then s else ShuffleFrom(Swap(s, i, SwapIndex(draws[i], i)), draws, i - 1)
  }

  /** The arrangement `shuffleArray` leaves for the given draws. */
  function Shuffle<T>(s: seq<T>, draws: seq<real>): (t: seq<T>)
    requires AreDraws(draws, |s|)
    ensures |t| == |s|
  {
    if s == [] then s else ShuffleFrom(s, draws, |s| - 1)
  }

  lemma SwapPermutes<T>(s: seq<T>, i: nat, j: nat)
    requires i < |s| && j < |s|
    ensures multiset(Swap(s, i, j)) == multiset(s)
  {
  }

  /** Whatever the draws, the shuffle only rearranges: the result is a permutation of its input. */
  lemma {:induction false} ShufflePermutes<T>(s: seq<T>, draws: seq<real>)
    requires AreDraws(draws, |s|)
    ensures multiset(Shuffle(s, draws)) == multiset(s)
  {
    if s != [] {
      ShuffleFromPermutes(s, draws, |s| - 1);
    }
  }

  lemma {:induction false} ShuffleFromPermutes<T>(s: seq<T>, draws: seq<real>, i: nat)
    requires AreDraws(draws, |s|) && i < |s|
    ensures multiset(ShuffleFrom(s, draws, i)) == multiset(s)
    decreases i
  {
    if i > 0 {
      var t := Swap(s, i, SwapIndex(draws[i], i));
      SwapPermutes(s, i, SwapIndex(draws[i], i));
      ShuffleFromPermutes(t, draws, i - 1);
    }
  }

  /** `shuffleArray`: from the last position down to 1, swap each with a position drawn at or below it. */
  method ShuffleArray<T>(a: array<T>, draws: seq<real>)
    requires AreDraws(draws, a.Length)
    modifies a
    ensures a[..] == Shuffle(old(a[..]), draws)
    ensures multiset(a[..]) == multiset(old(a[..]))
  {
    ShufflePermutes(a[..], draws);
    if a.Length == 0 {
      return;
    }
    var i := a.Length - 1;
    while i > 0
      invariant 0 <= i < a.Length
      invariant ShuffleFrom(a[..], draws, i) == Shuffle(old(a[..]), draws)
    {
      var j := SwapIndex(draws[i], i);
      ghost var before := a[..];
      a[i], a[j] := a[j], a[i];
      assert a[..] == Swap(before, i, j);
      i := i - 1;
    }
  }

  /** The largest number of questions the view returns. */
  const ViewSize: nat := 15

  /** One entry of the view: the client view of `q`, its option values shuffled by `draws`. */
  predicate IsShuffledViewOf(cq: ClientView.ClientQuestion, q: Question, draws: seq<real>) {
    && AreDraws(draws, |q.options|)
    && ClientView.IsViewOf(cq, q) && cq.explanation == q.explanation
    && cq.options == Shuffle(Values(q.options), draws)
  }

  /** One question of the view: its option values in an array, shuffled in place, and the count of correct options. */
  method ViewQuestion(question: Question, draws: seq<real>) returns (cq: ClientView.ClientQuestion)
    requires AreDraws(draws, |question.options|)
    ensures IsShuffledViewOf(cq, question, draws)
  {
    var options := new string[|question.options|](k requires 0 <= k < |question.options| => question.options[k].value);
    ValuesAt(question.options);
    assert options[..] == Values(question.options);
    ShuffleArray(options, draws);
    CorrectValuesCount(question.options);
    var correctOptionCount := |CorrectValues(question.options)|;
    cq := ClientView.ClientQuestion(question.id, question.text, question.tags, options[..],
                                    correctOptionCount, question.explanation);
  }

  /**
    GET `/quiz/:quizCode`: all stored questions shuffled, each with its option values
    shuffled and the number of correct options, cut to the first 15. The code in the path is
    never read.
  */
  method QuestionsView(pool: seq<Question>, questionDraws: seq<real>, optionDraws: seq<seq<real>>)
    returns (view: seq<ClientView.ClientQuestion>)
    requires AreDraws(questionDraws, |pool|) && |optionDraws| == |pool|
    requires forall k :: 0 <= k < |pool| ==> AreDraws(optionDraws[k], |Shuffle(pool, questionDraws)[k].options|)
    ensures |view| == Min(ViewSize, |pool|)
    ensures forall k :: 0 <= k < |view| ==>
              IsShuffledViewOf(view[k], Shuffle(pool, questionDraws)[k], optionDraws[k])
    ensures exists order: seq<Question> :: |order| == |pool| && multiset(order) == multiset(pool)
                                           && ClientView.AreViewsOf(view, order[..|view|])
  {
    var arr := new Question[|pool|](k requires 0 <= k < |pool| => pool[k]);
    assert arr[..] == pool;
    ShuffleArray(arr, questionDraws);
    var questions := arr[..];
    var all: seq<ClientView.ClientQuestion> := [];
    var i := 0;
    while i < |questions|
      invariant 0 <= i <= |questions|
      invariant |all| == i
      invariant forall k :: 0 <= k < i ==> IsShuffledViewOf(all[k], questions[k], optionDraws[k])
    {
      var cq := ViewQuestion(questions[i], optionDraws[i]);
      all := all + [cq];
      i := i + 1;
    }
    view := all[..Min(ViewSize, |all|)];
    ShufflePermutes(pool, questionDraws);
    assert ClientView.AreViewsOf(view, questions[..|view|]);
  }

  /**
    POST `/quiz/verify`: 400 for a missing code, an unknown code or one whose expiry has
    passed (with three different messages), 200 otherwise.
  */
  function CheckQuizCode(codes: seq<QuizCode>, quizCode: Option<string>, now: int): (r: Reply)
    ensures !Truthy(quizCode) <==> r == Reply(400, "Quiz code is required")
    ensures Truthy(quizCode) ==>
              && (Validate(codes, quizCode.value, now) == NotFound <==> r == Reply(400, "Invalid quiz code"))
              && (Validate(codes, quizCode.value, now) == Expired <==> r == Reply(400, "Expired quiz code"))
              && (Validate(codes, quizCode.value, now) == Valid <==> r == Reply(200, "Quiz code is valid"))
  {
    if !Truthy(quizCode) then Reply(400, "Quiz code is required")
    else match Validate(codes, quizCode.value, now)
      case NotFound => Reply(400, "Invalid quiz code")
      case Expired => Reply(400, "Expired quiz code")
      case Valid => Reply(200, "Quiz code is valid")
  }

  /**
    This check and the content route's check accept the same codes; they differ only in the
    status of a rejection (400 here for both causes, 404 or 403 there).
  */
  lemma CodeChecksAgree(codes: seq<QuizCode>, quizCode: string, now: int)
    requires quizCode != ""
    ensures CheckQuizCode(codes, Some(quizCode), now).status == 200
            <==> Content.VerifyQuizCode(codes, Some(quizCode), now).status == 200
    ensures CheckQuizCode(codes, Some(quizCode), now).status != 200 ==>
              CheckQuizCode(codes, Some(quizCode), now).status == 400
              && Content.VerifyQuizCode(codes, Some(quizCode), now).status in {403, 404}
  {
  }

  /** The answer key this check applies: same length, and every correct value among the selected ones. */
  predicate CoversAnswerKey(correct: seq<string>, selected: seq<string>) {
    |correct| == |selected| && forall v :: v in correct ==> v in selected
  }

  predicate NoRepeats(s: seq<string>) {
    forall i, j :: 0 <= i < j < |s| ==> s[i] != s[j]
  }

  /**
    With no correct value listed twice, this one-way check is the submission rule: the
    selection has as many entries as there are correct values, and they are the same values.
  */
  lemma {:induction false} CoversAnswerKeyWhenDistinct(correct: seq<string>, selected: seq<string>)
    requires NoRepeats(correct)
    ensures CoversAnswerKey(correct, selected) <==> Submission.IsCorrectAnswer(correct, selected)
  {
    if CoversAnswerKey(correct, selected) {
      forall v | v in selected ensures v in correct {
        if v !in correct {
          var cs := set c | c in correct;
          var ss := set x | x in selected;
          DistinctCard(correct);
          CardAtMostLength(selected);
          assert v in ss;
          SubsetCard(cs, ss - {v});
        }
      }
    }
  }

  lemma {:induction false} DistinctCard(s: seq<string>)
    requires NoRepeats(s)
    ensures |set x | x in s| == |s|
  {
    if s != [] {
      DistinctCard(s[1..]);
      assert (set x | x in s) == (set x | x in s[1..]) + {s[0]};
      assert s[0] !in s[1..];
    }
  }

  lemma {:induction false} SubsetCard<T>(a: set<T>, b: set<T>)
    requires a <= b
    ensures |a| <= |b|
    decreases |a|
  {
    if a != {} {
      var x :| x in a;
      SubsetCard(a - {x}, b - {x});
    }
  }

  lemma {:induction false} CardAtMostLength(s: seq<string>)
    ensures |set x | x in s| <= |s|
  {
    if s != [] {
      CardAtMostLength(s[1..]);
      assert (set x | x in s) == (set x | x in s[1..]) + {s[0]};
    }
  }

  /** With a correct value listed twice, a selection holding a wrong value passes this check but not the submission rule. */
  lemma RepeatedKeyAcceptsWrongSelection()
    ensures CoversAnswerKey(["a", "a"], ["a", "b"])
    ensures !Submission.IsCorrectAnswer(["a", "a"], ["a", "b"])
  {
    assert "b" in ["a", "b"];
  }

  /** One entry of `results`. */
  datatype AnswerResult = AnswerResult(questionId: string, question: string, options: seq<string>,
                                       correctOptions: seq<string>, userSelected: seq<string>, isCorrect: bool)

  /** What the route answers: 500 when `userAnswers` is missing and a question is read, otherwise the results. */
  datatype VerifyReply = ServerError | Results(results: seq<AnswerResult>)

  /** `userAnswers` as sent: each entry a selection, or `None` for a falsy entry. */
  type UserAnswers = map<string, Option<seq<string>>>

  /** The result for one answered question; a falsy entry stands for no selection. */
  function ResultFor(q: Question, userAnswers: UserAnswers): (r: AnswerResult)
    requires q.id in userAnswers
    ensures r.questionId == q.id && r.options == Values(q.options) && r.correctOptions == CorrectValues(q.options)
    ensures r.userSelected == (if userAnswers[q.id].Some? then userAnswers[q.id].value else [])
    ensures r.isCorrect <==> CoversAnswerKey(CorrectValues(q.options), r.userSelected)
  {
    var selected := if userAnswers[q.id].Some? then userAnswers[q.id].value else [];
    AnswerResult(q.id, q.text, Values(q.options), CorrectValues(q.options), selected,
                 CoversAnswerKey(CorrectValues(q.options), selected))
  }

  /** `filter(hasOwnProperty).map(...)` over the stored questions. */
  function AnsweredResults(pool: seq<Question>, userAnswers: UserAnswers): (r: seq<AnswerResult>)
    ensures |r| <= |pool|
    ensures forall res :: res in r ==> exists q :: q in pool && q.id in userAnswers && res == ResultFor(q, userAnswers)
    ensures forall q :: q in pool && q.id in userAnswers ==> ResultFor(q, userAnswers) in r
  {
    if pool == [] then []
    else
      var rest := AnsweredResults(pool[1..], userAnswers);
      assert forall q :: q in pool[1..] ==> q in pool;
      assert forall q :: q in pool ==> q == pool[0] || q in pool[1..];
      if pool[0].id in userAnswers then [ResultFor(pool[0], userAnswers)] + rest else rest
  }

  /**
    POST `/quiz/:quizCode/verify`: a result for each stored question that has an entry in
    `userAnswers`, and only for those; without `userAnswers` the first question read throws.
  */
  function VerifyAnswers(pool: seq<Question>, userAnswers: Option<UserAnswers>): (r: VerifyReply)
    ensures r == ServerError <==> userAnswers.None? && pool != []
    ensures userAnswers.None? && pool == [] ==> r == Results([])
    ensures userAnswers.Some? ==>
              && r == Results(AnsweredResults(pool, userAnswers.value))
              && forall q :: q in pool ==>
                   (q.id in userAnswers.value <==> exists res :: res in r.results && res.questionId == q.id)
  {
    if userAnswers.None? then (if pool == [] then Results([]) else ServerError)
    else Results(AnsweredResults(pool, userAnswers.value))
  }

  /** The `questions` collection as this API writes it; `_id`s are unique. */
  class QuestionBank {
    var questions: seq<Question>

    ghost predicate Valid()
      reads this
    {
      forall i, j :: 0 <= i < j < |questions| ==> questions[i].id != questions[j].id
    }

    constructor ()
      ensures Valid() && questions == []
    {
      questions := [];
    }

    /**
      POST `/question/save`: 400 "Invalid data" for a missing question text or an options
      value that is not an array; otherwise the question is appended under the fresh id the
      store assigns (`newId`) and 201 is answered.
    */
    method Save(newId: string, question: Option<string>, options: Option<seq<AnswerOption>>) returns (r: Reply)
      requires Valid()
      requires forall k :: 0 <= k < |questions| ==> questions[k].id != newId
      modifies this
      ensures Valid()
      ensures !Truthy(question) || options.None? ==> r == Reply(400, "Invalid data") && questions == old(questions)
      ensures Truthy(question) && options.Some? ==>
                && r == Reply(201, "Question saved successfully")
                && questions == old(questions) + [Question(newId, question.value, "", options.value, None)]
    {
      if !Truthy(question) || options.None? {
        return Reply(400, "Invalid data");
      }
      questions := questions + [Question(newId, question.value, "", options.value, None)];
      r := Reply(201, "Question saved successfully");
    }

    /**
      PUT `/question/:id`: 400 "Invalid data" as for saving; 500 for an id that is no
      `ObjectId`; 404 when no question has the id, compared as an `ObjectId` (hexadecimal
      letters in any case); otherwise that question's text and options are replaced,
      everything else kept, and 200 is answered.
    */
    method Update(id: string, question: Option<string>, options: Option<seq<AnswerOption>>) returns (r: Reply)
      requires Valid()
      modifies this
      ensures Valid()
      ensures !Truthy(question) || options.None? ==> r == Reply(400, "Invalid data") && questions == old(questions)
      ensures Truthy(question) && options.Some? && !IsObjectId(id) ==>
                r == Reply(500, "Internal server error") && questions == old(questions)
      ensures Truthy(question) && options.Some? && IsObjectId(id) ==>
                && (FindQuestion(old(questions), LowerHex(id)).None? <==> r == Reply(404, "Question not found"))
                && (r.status == 200 <==> FindQuestion(old(questions), LowerHex(id)).Some?)
                && questions == Replaced(old(questions), LowerHex(id), question.value, options.value)
    {
      if !Truthy(question) || options.None? {
        return Reply(400, "Invalid data");
      }
      if !IsObjectId(id) {
        return Reply(500, "Internal server error");
      }
      var objectId := LowerHex(id);
      var found := FindQuestion(questions, objectId);
      ReplacedKeepsIds(questions, objectId, question.value, options.value);
      questions := Replaced(questions, objectId, question.value, options.value);
      if found.None? {
        return Reply(404, "Question not found");
      }
      r := Reply(200, "Question updated successfully");
    }

    /**
      DELETE `/question/:id`: 500 for an id that is no `ObjectId`, 404 when no question has
      the id, compared as an `ObjectId`, otherwise that question is removed and 200 is answered.
    */
    method Delete(id: string) returns (r: Reply)
      requires Valid()
      modifies this
      ensures Valid()
      ensures !IsObjectId(id) ==> r == Reply(500, "Internal server error") && questions == old(questions)
      ensures IsObjectId(id) ==>
                && (FindQuestion(old(questions), LowerHex(id)).None? <==> r == Reply(404, "Question not found"))
                && (r.status == 200 <==> FindQuestion(old(questions), LowerHex(id)).Some?)
                && questions == Removed(old(questions), LowerHex(id))
      ensures IsObjectId(id) ==> FindQuestion(questions, LowerHex(id)).None?
    {
      if !IsObjectId(id) {
        return Reply(500, "Internal server error");
      }
      var objectId := LowerHex(id);
      var before := |questions|;
      RemovedClearsId(questions, objectId);
      questions := Removed(questions, objectId);
      if |questions| == before {
        return Reply(404, "Question not found");
      }
      r := Reply(200, "Question deleted successfully");
    }
  }

  /** `updateOne({ _id: id }, { $set: { question, options } })` */
  function Replaced(questions: seq<Question>, id: string, text: string, options: seq<AnswerOption>): (r: seq<Question>)
    ensures |r| == |questions|
    ensures forall k :: 0 <= k < |r| ==> r[k].id == questions[k].id && r[k].tags == questions[k].tags
                                         && r[k].explanation == questions[k].explanation
  {
    if questions == [] then []
    else if questions[0].id == id then [questions[0].(text := text, options := options)] + questions[1..]
    else [questions[0]] + Replaced(questions[1..], id, text, options)
  }

  /** An update touches only the question with the id: it carries the new text and options afterwards, the others are as before. */
  lemma {:induction false} ReplacedKeepsIds(questions: seq<Question>, id: string, text: string, options: seq<AnswerOption>)
    requires forall i, j :: 0 <= i < j < |questions| ==> questions[i].id != questions[j].id
    ensures forall k :: 0 <= k < |questions| ==>
              Replaced(questions, id, text, options)[k]
                == if questions[k].id == id then questions[k].(text := text, options := options) else questions[k]
  {
    if questions != [] && questions[0].id != id {
      ReplacedKeepsIds(questions[1..], id, text, options);
    }
  }

  /** The position of the first question with the id. */
  function IndexOfId(questions: seq<Question>, id: string, from: nat): (k: Option<nat>)
    requires from <= |questions|
    ensures k.None? <==> forall j :: from <= j < |questions| ==> questions[j].id != id
    ensures k.Some? ==> from <= k.value < |questions| && questions[k.value].id == id
                        && forall j :: from <= j < k.value ==> questions[j].id != id
    decreases |questions| - from
  {
    if from == |questions| then None
    else if questions[from].id == id then Some(from)
    else IndexOfId(questions, id, from + 1)
  }

  /** `deleteOne({ _id: id })`: the questions without the first one holding the id. */
  function Removed(questions: seq<Question>, id: string): (r: seq<Question>)
    ensures FindQuestion(questions, id).None? ==> r == questions
    ensures FindQuestion(questions, id).Some? ==> |r| == |questions| - 1
  {
    match IndexOfId(questions, id, 0)
    case None => questions
    case Some(k) => questions[..k] + questions[k + 1..]
  }

  /** With unique ids, a delete leaves no question with the id and keeps every other one, ids still unique. */
  lemma RemovedClearsId(questions: seq<Question>, id: string)
    requires forall i, j :: 0 <= i < j < |questions| ==> questions[i].id != questions[j].id
    ensures FindQuestion(Removed(questions, id), id).None?
    ensures forall q :: q in questions && q.id != id ==> q in Removed(questions, id)
    ensures forall i, j :: 0 <= i < j < |Removed(questions, id)| ==> Removed(questions, id)[i].id != Removed(questions, id)[j].id
  {
    var found := IndexOfId(questions, id, 0);
    if found.Some? {
      var k := found.value;
      CutKeepsOthers(questions, k);
      CutClearsId(questions, k);
      CutKeepsUnique(questions, k);
    }
  }

  /** The element at `i` once position `k` is cut out. */
  lemma CutAt<T>(s: seq<T>, k: nat, i: nat)
    requires k < |s| && i < |s| - 1
    ensures (s[..k] + s[k + 1..])[i] == s[if i < k then i else i + 1]
  {
  }

  lemma CutKeepsOthers(questions: seq<Question>, k: nat)
    requires k < |questions|
    ensures forall q :: q in questions && q.id != questions[k].id ==> q in questions[..k] + questions[k + 1..]
  {
    var r := questions[..k] + questions[k + 1..];
    forall q | q in questions && q.id != questions[k].id ensures q in r {
      var j :| 0 <= j < |questions| && questions[j] == q;
      CutAt(questions, k, if j < k then j else j - 1);
    }
  }

  lemma CutClearsId(questions: seq<Question>, k: nat)
    requires k < |questions|
    requires forall i, j :: 0 <= i < j < |questions| ==> questions[i].id != questions[j].id
    ensures forall q :: q in questions[..k] + questions[k + 1..] ==> q.id != questions[k].id
  {
    var r := questions[..k] + questions[k + 1..];
    forall q | q in r ensures q.id != questions[k].id {
      var i :| 0 <= i < |r| && r[i] == q;
      CutAt(questions, k, i);
    }
  }

  lemma CutKeepsUnique(questions: seq<Question>, k: nat)
    requires k < |questions|
    requires forall i, j :: 0 <= i < j < |questions| ==> questions[i].id != questions[j].id
    ensures var r := questions[..k] + questions[k + 1..];
            forall i, j :: 0 <= i < j < |r| ==> r[i].id != r[j].id
  {
    var r := questions[..k] + questions[k + 1..];
    forall i, j | 0 <= i < j < |r| ensures r[i].id != r[j].id {
      CutAt(questions, k, i);
      CutAt(questions, k, j);
    }
  }
}
