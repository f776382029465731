/**
  The legacy quiz routes, served from the separate `questions` database: a code check that
  only tests existence, the latest code, an answer checker comparing JSON renderings, and a
  question view that hides the correct options.
*/
module QuizRoutes {
  import opened Records
  import opened Decimal
  import VerifyToken

  /** A record of the legacy `quizcodes` collection. */
  datatype LegacyCode = LegacyCode(quizCode: string, createdAt: int)

  /** The legacy replies carry a `success` flag beside the message. */
  datatype FlaggedReply = FlaggedReply(status: int, success: bool, message: string)

  /** POST `/verify`: a code is accepted exactly when some record holds it; its age is never looked at. */
  function LegacyVerify(codes: seq<LegacyCode>, quizCode: string): (r: FlaggedReply)
    ensures (exists k :: 0 <= k < |codes| && codes[k].quizCode == quizCode) <==> r.success
    ensures r.success ==> r == FlaggedReply(200, true, "Valid quiz code")
    ensures !r.success ==> r == FlaggedReply(400, false, "Invalid or expired quiz code")
  {
    if exists k :: 0 <= k < |codes| && codes[k].quizCode == quizCode
    then FlaggedReply(200, true, "Valid quiz code")
    else FlaggedReply(400, false, "Invalid or expired quiz code")
  }

  /** The two cases of the route's test file: a stored code passes, an unknown code is refused. */
  lemma LegacyVerifyCases(codes: seq<LegacyCode>, createdAt: int)
    requires codes == [LegacyCode("CM3L9F", createdAt)]
    ensures LegacyVerify(codes, "CM3L9F") == FlaggedReply(200, true, "Valid quiz code")
    ensures LegacyVerify(codes, "INVALID123") == FlaggedReply(400, false, "Invalid or expired quiz code")
  {
    assert codes[0].quizCode == "CM3L9F";
  }

  /** A stored code stays valid at any time: the legacy check has no notion of expiry. */
  lemma {:induction false} LegacyCodeNeverExpires(codes: seq<LegacyCode>, added: seq<LegacyCode>, quizCode: string)
    requires LegacyVerify(codes, quizCode).success
    ensures LegacyVerify(codes + added, quizCode).success
  {
    var k :| 0 <= k < |codes| && codes[k].quizCode == quizCode;
    assert (codes + added)[k] == codes[k];
  }

  /** The record `find().sort({ createdAt: -1 }).limit(1)` returns: the first one with the greatest `createdAt`. */
  function Newest(codes: seq<LegacyCode>): (r: Option<LegacyCode>)
    ensures r.None? <==> codes == []
    ensures r.Some? ==> r.value in codes
    ensures r.Some? ==> forall k :: 0 <= k < |codes| ==> codes[k].createdAt <= r.value.createdAt
  {
    if codes == [] then None
    else
      match Newest(codes[1..])
      case None => Some(codes[0])
      case Some(c) =>
        assert forall k :: 1 <= k < |codes| ==> codes[k] == codes[1..][k - 1];
        if c.createdAt > codes[0].createdAt then Some(c) else Some(codes[0])
  }

  datatype LatestReply = Latest(quizCode: string) | NoQuizzes(reply: Reply)

  /** GET `/latest`: the code of the newest record, or 404 for an empty collection. */
  function GetLatest(codes: seq<LegacyCode>): (r: LatestReply)
    ensures r.NoQuizzes? <==> codes == []
    ensures r.NoQuizzes? ==> r.reply == Reply(404, "No quizzes found")
    ensures r.Latest? ==> exists k :: 0 <= k < |codes| && codes[k].quizCode == r.quizCode
                                       && forall j :: 0 <= j < |codes| ==> codes[j].createdAt <= codes[k].createdAt
  {
    match Newest(codes)
    case None => NoQuizzes(Reply(404, "No quizzes found"))
    case Some(c) => Latest(c.quizCode)
  }

  /** The code `/latest` hands out always passes `/verify`. */
  lemma LatestPassesVerify(codes: seq<LegacyCode>)
    requires GetLatest(codes).Latest?
    ensures LegacyVerify(codes, GetLatest(codes).quizCode).success
  {
  }

  /** The longest prefix of decimal digits. */
  function DigitPrefix(s: string): (r: string)
    ensures |r| <= |s| && r == s[..|r|]
    ensures forall k :: 0 <= k < |r| ==> IsDigit(r[k])
    ensures |r| == |s| || !IsDigit(s[|r|])
  {
    if s != [] && IsDigit(s[0]) then [s[0]] + DigitPrefix(s[1..]) else []
  }

  /**
    `parseInt(s)` without a radix: leading blanks skipped, an optional sign, then the longest
    run of decimal digits; `None` stands for `NaN`, when no digit follows.
  */
  function ParseInt(s: string): (r: Option<int>)
  {
    ParseSigned(VerifyToken.TrimLeft(s))
  }

  /** The sign and digits `parseInt` reads once the blanks are gone. */
  function ParseSigned(t: string): (r: Option<int>)
  {
    if t != [] && t[0] == '-' then
      match ParseUnsigned(t[1..])
      case None => None
      case Some(n) => Some(-(n as int))
    else if t != [] && t[0] == '+' then ParseUnsigned(t[1..])
    else ParseUnsigned(t)
  }

  /** The value of the leading digits, `None` when there is none. */
  function ParseUnsigned(u: string): (r: Option<nat>)
  {
    var digits := DigitPrefix(u);
    if digits == [] then None else Some(DecimalValue(digits))
  }

  lemma {:induction false} DigitPrefixStops(digits: string, rest: string)
    requires forall k :: 0 <= k < |digits| ==> IsDigit(digits[k])
    requires rest == [] || !IsDigit(rest[0])
    ensures DigitPrefix(digits + rest) == digits
  {
    if digits != [] {
      assert (digits + rest)[1..] == digits[1..] + rest;
      DigitPrefixStops(digits[1..], rest);
    } else {
      assert digits + rest == rest;
    }
  }

  /**
    `parseInt` reads back what `toString` renders, with or without a minus sign, and stops at
    the first character after the digits: `parseInt("12abc")` is 12.
  */
  lemma ParseIntReadsDecimal(n: nat, rest: string)
    requires rest == [] || !IsDigit(rest[0])
    ensures ParseInt(ToDecimal(n) + rest) == Some(n)
    ensures ParseInt("-" + (ToDecimal(n) + rest)) == Some(-(n as int))
  {
    var u := ToDecimal(n) + rest;
    ParseUnsignedDecimal(n, rest);
    assert u[0] == ToDecimal(n)[0];
    ParseIntUnsigned(u, n);
    ParseIntNegated(u, n);
  }

  /** The digits of a rendering, whatever follows them, denote the number rendered. */
  lemma ParseUnsignedDecimal(n: nat, rest: string)
    requires rest == [] || !IsDigit(rest[0])
    ensures ParseUnsigned(ToDecimal(n) + rest) == Some(n)
  {
    DecimalRoundTrip(n);
    ParseUnsignedStops(ToDecimal(n), rest);
  }

  /** Digits with nothing before them are read as they are. */
  lemma ParseIntUnsigned(u: string, v: nat)
    requires u != [] && IsDigit(u[0]) && ParseUnsigned(u) == Some(v)
    ensures ParseInt(u) == Some(v)
  {
    ParseIntTrimmed(u);
    ParseSignedPlain(u);
  }

  /** A leading minus negates what follows it. */
  lemma ParseIntNegated(u: string, v: nat)
    requires ParseUnsigned(u) == Some(v)
    ensures ParseInt("-" + u) == Some(-(v as int))
  {
    ParseIntTrimmed("-" + u);
    ParseSignedMinus(u);
  }

  /** A string that starts with no blank is parsed as it is. */
  lemma ParseIntTrimmed(s: string)
    requires s != [] && !VerifyToken.IsJsWhitespace(s[0])
    ensures ParseInt(s) == ParseSigned(s)
  {
  }

  lemma ParseUnsignedStops(d: string, rest: string)
    requires d != [] && forall k :: 0 <= k < |d| ==> IsDigit(d[k])
    requires rest == [] || !IsDigit(rest[0])
    ensures ParseUnsigned(d + rest) == Some(DecimalValue(d))
  {
    DigitPrefixStops(d, rest);
  }

  lemma ParseSignedPlain(u: string)
    requires u != [] && IsDigit(u[0])
    ensures ParseSigned(u) == ParseUnsigned(u)
  {
  }

  lemma ParseSignedMinus(u: string)
    ensures ParseSigned("-" + u) == match ParseUnsigned(u) case None => None case Some(n) => Some(-(n as int))
  {
    var minus := "-" + u;
    assert minus[0] == '-';
    assert minus[1..] == u;
  }

  /** A string with no digit after its sign parses to `NaN`. */
  lemma ParseIntNaN(s: string)
    requires s == [] || !IsDigit(s[0])
    requires s == [] || (s[0] != '-' && s[0] != '+' && !VerifyToken.IsJsWhitespace(s[0]))
    ensures ParseInt(s) == None
  {
  }

  /** The JSON values a client may put in a selection, and those `JSON.stringify` compares. */
  datatype Json = JNum(n: int) | JStr(s: string) | JNull | JBool(b: bool)

  /** How a parsed correct option is rendered: a number, or `null` for `NaN`. */
  function ToJson(v: Option<int>): (j: Json)
    ensures j.JNull? <==> v.None?
    ensures v.Some? ==> j == JNum(v.value)
  {
    if v.None? then JNull else JNum(v.value)
  }

  /** A record of the legacy `quizquestions` collection. */
  datatype LegacyQuestion = LegacyQuestion(id: string, question: string, options: seq<string>,
                                           correctOptions: seq<string>, createdAt: int)

  /** The correct options as the checker compares them: each one passed through `parseInt`. */
  function ParsedCorrect(q: LegacyQuestion): (r: seq<Json>)
    ensures |r| == |q.correctOptions|
    ensures forall k :: 0 <= k < |r| ==> r[k] == ToJson(ParseInt(q.correctOptions[k]))
  {
    seq(|q.correctOptions|, k requires 0 <= k < |q.correctOptions| => ToJson(ParseInt(q.correctOptions[k])))
  }

  /** The submitted answers by question id; an absent or falsy entry is missing from the map. */
  type Submitted = map<string, seq<Json>>

  /** `userAnswers[question._id] || []` */
  function SelectionFor(answers: Submitted, id: string): (r: seq<Json>)
    ensures id in answers ==> r == answers[id]
    ensures id !in answers ==> r == []
  {
    if id in answers then answers[id] else []
  }

  datatype LegacyResult = LegacyResult(questionId: string, question: string, options: seq<string>,
                                       correctOptions: seq<Json>, userSelected: seq<Json>, isCorrect: bool)

  /** One entry of the results: `isCorrect` when both arrays render to the same JSON text. */
  function CheckQuestion(q: LegacyQuestion, answers: Submitted): (r: LegacyResult)
    ensures r.questionId == q.id && r.question == q.question && r.options == q.options
    ensures r.correctOptions == ParsedCorrect(q) && r.userSelected == SelectionFor(answers, q.id)
    ensures r.isCorrect <==> |r.userSelected| == |q.correctOptions|
                             && forall k :: 0 <= k < |r.userSelected| ==> r.userSelected[k] == ToJson(ParseInt(q.correctOptions[k]))
  {
    var correct := ParsedCorrect(q);
    var selected := SelectionFor(answers, q.id);
    LegacyResult(q.id, q.question, q.options, correct, selected, correct == selected)
  }

  datatype AnswersReply = AnswersFailed(reply: Reply) | Checked(results: seq<LegacyResult>)

  /**
    POST `/:quizCode/verify`: one result per stored question, in stored order, whatever was
    answered. Without `userAnswers` the first lookup throws, so any stored question makes it a
    500; the code in the path is never read.
  */
  function VerifyAnswers(questions: seq<LegacyQuestion>, userAnswers: Option<Submitted>): (r: AnswersReply)
    ensures r.AnswersFailed? <==> userAnswers.None? && questions != []
    ensures r.AnswersFailed? ==> r.reply == Reply(500, "Server Error")
    ensures r.Checked? ==> |r.results| == |questions|
    ensures r.Checked? ==> forall k :: 0 <= k < |questions| ==>
              r.results[k] == CheckQuestion(questions[k], userAnswers.value)
  {
    if questions == [] then Checked([])
    else if userAnswers.None? then AnswersFailed(Reply(500, "Server Error"))
    else Checked(seq(|questions|, k requires 0 <= k < |questions| => CheckQuestion(questions[k], userAnswers.value)))
  }

  /**
    The comparison is order-sensitive: with correct options `"1", "2"`, the selection `[2, 1]`
    is marked wrong and `[1, 2]` right.
  */
  lemma OrderMatters(q: LegacyQuestion, answers: Submitted)
    requires q.correctOptions == ["1", "2"]
    requires answers == map[q.id := [JNum(2), JNum(1)]]
    ensures !CheckQuestion(q, answers).isCorrect
    ensures CheckQuestion(q, answers[q.id := [JNum(1), JNum(2)]]).isCorrect
  {
    ParsedOneTwo(q);
  }

  lemma ParsedOneTwo(q: LegacyQuestion)
    requires q.correctOptions == ["1", "2"]
    ensures ParsedCorrect(q) == [JNum(1), JNum(2)]
  {
    ParseSmallDigit("1");
    ParseSmallDigit("2");
    ParsedPair(q, "1", "2", 1, 2);
  }

  lemma ParsedPair(q: LegacyQuestion, a: string, b: string, x: int, y: int)
    requires q.correctOptions == [a, b]
    requires ParseInt(a) == Some(x) && ParseInt(b) == Some(y)
    ensures ParsedCorrect(q) == [JNum(x), JNum(y)]
  {
    var correct := ParsedCorrect(q);
    assert correct[0] == JNum(x) && correct[1] == JNum(y);
  }

  lemma ParseSmallDigit(s: string)
    requires s == "1" || s == "2"
    ensures ParseInt(s) == Some(if s == "1" then 1 else 2)
  {
    var v: nat := if s == "1" then 1 else 2;
    assert ToDecimal(v) + [] == s;
    ParseIntReadsDecimal(v, []);
  }

  /** A selection holding a string is never correct, even the string of a correct option. */
  lemma StringSelectionIsWrong(q: LegacyQuestion, answers: Submitted, k: nat)
    requires q.id in answers && k < |answers[q.id]| && answers[q.id][k].JStr?
    ensures !CheckQuestion(q, answers).isCorrect
  {
  }

  /** A missing answer counts as the empty selection: right exactly when the question has no correct option. */
  lemma MissingAnswer(q: LegacyQuestion, answers: Submitted)
    requires q.id !in answers
    ensures CheckQuestion(q, answers).isCorrect <==> q.correctOptions == []
  {
  }

  /** A question as the view shows it: `correctOptions` and `createdAt` dropped, their number added. */
  datatype LegacyView = LegacyView(id: string, question: string, options: seq<string>, totalCorrectOptions: nat)

  function ViewOf(q: LegacyQuestion): (v: LegacyView)
    ensures v.id == q.id && v.question == q.question && v.options == q.options
    ensures v.totalCorrectOptions == |ParsedCorrect(q)|
  {
    LegacyView(q.id, q.question, q.options, |q.correctOptions|)
  }

  datatype ViewReply = NoQuestions(reply: Reply) | Views(views: seq<LegacyView>)

  /** GET `/:quizCode`: every stored question in view form, or 404 when there is none. */
  function GetQuestions(questions: seq<LegacyQuestion>): (r: ViewReply)
    ensures r.NoQuestions? <==> questions == []
    ensures r.NoQuestions? ==> r.reply == Reply(404, "No questions found")
    ensures r.Views? ==> |r.views| == |questions|
                         && forall k :: 0 <= k < |questions| ==> r.views[k] == ViewOf(questions[k])
  {
    if questions == [] then NoQuestions(Reply(404, "No questions found"))
    else Views(seq(|questions|, k requires 0 <= k < |questions| => ViewOf(questions[k])))
  }

  /**
    The view and the checker agree on the count: a selection marked correct has exactly the
    `totalCorrectOptions` entries the view announced for its question.
  */
  lemma ViewAnnouncesAnswerLength(questions: seq<LegacyQuestion>, answers: Submitted, k: nat)
    requires k < |questions|
    requires VerifyAnswers(questions, Some(answers)).results[k].isCorrect
    ensures GetQuestions(questions).views[k].totalCorrectOptions
            == |VerifyAnswers(questions, Some(answers)).results[k].userSelected|
  {
  }
}
