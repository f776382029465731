/**
  The client-safe view of a question served by the quiz-content routes: options shuffled,
  the `isCorrect` flags removed, and the number of correct options attached instead.
*/
module ClientView {
  import opened Records

  /**
    A question as sent to a participant. An option is only its value, so no answer key can
    travel with it; `totalCorrect` tells the client how many options to select.
  */
  datatype ClientQuestion = ClientQuestion(id: string, text: string, tags: string,
                                           options: seq<string>, totalCorrect: nat,
                                           explanation: Option<string>)

  /**
    `cq` is the client view of `q`: same question, the same option values in some order,
    and the number of options `q` flags correct.
  */
  predicate IsViewOf(cq: ClientQuestion, q: Question) {
    && cq.id == q.id && cq.text == q.text && cq.tags == q.tags
    && multiset(cq.options) == multiset(Values(q.options))
    && cq.totalCorrect == CountCorrect(q.options)
  }

  /** Each question of `view` is the client view of the question at the same position. */
  predicate AreViewsOf(view: seq<ClientQuestion>, questions: seq<Question>) {
    |view| == |questions| && forall k :: 0 <= k < |view| ==> IsViewOf(view[k], questions[k])
  }

  /**
    The inner `forEach` of `prepareQuestionsForClient`: count the options flagged correct
    and drop the flag from each.
  */
  method StripOptions(options: seq<AnswerOption>) returns (values: seq<string>, totalCorrect: nat)
    ensures values == Values(options)
    ensures totalCorrect == CountCorrect(options) == |CorrectValues(options)|
  {
    values, totalCorrect := [], 0;
    var i := 0;
    while i < |options|
      invariant 0 <= i <= |options|
      invariant values == Values(options[..i])
      invariant totalCorrect == CountCorrect(options[..i])
    {
      var option := options[i];
      assert options[..i + 1] == options[..i] + [option];
      CountCorrectAppend(options[..i], [option]);
      ValuesAppend(options[..i], [option]);
      if option.isCorrect {
        totalCorrect := totalCorrect + 1;
      }
      values := values + [option.value];
      i := i + 1;
    }
    assert options[..i] == options;
    CorrectValuesCount(options);
  }

  /**
    One question of `prepareQuestionsForClient`: its options in some order (the source sorts
    them with a random comparator), stripped of their flags, with the count of correct ones.
  */
  method PrepareQuestion(q: Question) returns (cq: ClientQuestion)
    ensures IsViewOf(cq, q) && cq.explanation == q.explanation
  {
    assert multiset(q.options) == multiset(q.options);
    var shuffled :| multiset(shuffled) == multiset(q.options);
    var values, totalCorrect := StripOptions(shuffled);
    ValuesPermutation(shuffled, q.options);
    CountCorrectPermutation(shuffled, q.options);
    cq := ClientQuestion(q.id, q.text, q.tags, values, totalCorrect, q.explanation);
  }

  /** `prepareQuestionsForClient`: every question, in the order given, in its client view. */
  method PrepareQuestionsForClient(questions: seq<Question>) returns (view: seq<ClientQuestion>)
    ensures AreViewsOf(view, questions)
    ensures forall k :: 0 <= k < |view| ==> view[k].explanation == questions[k].explanation
  {
    view := [];
    var i := 0;
    while i < |questions|
      invariant 0 <= i <= |questions|
      invariant |view| == i
      invariant forall k :: 0 <= k < i ==> IsViewOf(view[k], questions[k]) && view[k].explanation == questions[k].explanation
    {
      var cq := PrepareQuestion(questions[i]);
      view := view + [cq];
      i := i + 1;
    }
  }
}
