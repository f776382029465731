/**
  The `quizcodes` collection of the `quiz` database: the hourly global code written by the
  server's rotation task, the 24-hour personal codes of `/quiz/generate-code`, and the lookup
  every code-checking route shares.
*/
module QuizCodes {
  import opened Records

  /** Lifetime of the rotating global code: one hour, in milliseconds. */
  const RotationWindow: int := 60 * 60 * 1000

  /** Lifetime of a personal code: 24 hours, in milliseconds. */
  const PersonalWindow: int := 24 * 60 * 60 * 1000

  /** The length `substr(2, 6)` and `substring(2, 8)` keep. */
  const CodeLength: nat := 6

  /** A character a generated code may hold: a digit or an upper-case ASCII letter. */
  predicate IsCodeChar(c: char) {
    '0' <= c <= '9' || 'A' <= c <= 'Z'
  }

  /** The character `Number.prototype.toString(36)` writes for the base-36 digit `d`. */
  function Base36Char(d: nat): (c: char)
    requires d < 36
    ensures '0' <= c <= '9' || 'a' <= c <= 'z'
  {
    if d < 10 then ('0' as int + d) as char else ('a' as int + (d - 10)) as char
  }

  predicate IsBase36(digits: seq<nat>) {
    forall k :: 0 <= k < |digits| ==> digits[k] < 36
  }

  function Base36Chars(digits: seq<nat>): (s: string)
    requires IsBase36(digits)
    ensures |s| == |digits|
    ensures forall k :: 0 <= k < |s| ==> s[k] == Base36Char(digits[k])
  {
    if digits == [] then "" else [Base36Char(digits[0])] + Base36Chars(digits[1..])
  }

  /**
    `Math.random().toString(36)` for a draw whose base-36 fraction digits are `digits`:
    "0" for the draw 0, otherwise "0." followed by those digits.
  */
  function RandomToString36(digits: seq<nat>): (s: string)
    requires IsBase36(digits)
  {
    if digits == [] then "0" else "0." + Base36Chars(digits)
  }

  /** `s.substr(start, length)`: at most `length` characters from `start`, none if `start` is past the end. */
  function Substr(s: string, start: nat, length: nat): (r: string)
    ensures |r| <= length
    ensures start <= |s| ==> r == s[start..if start + length <= |s| then start + length else |s|]
    ensures start > |s| ==> r == ""
  {
    if start >= |s| then ""
    else if start + length <= |s| then s[start..start + length]
    else s[start..]
  }

  /** `toUpperCase` on the characters a base-36 rendering holds. */
  function UpperChar(c: char): char {
    if 'a' <= c <= 'z' then (c as int - 'a' as int + 'A' as int) as char else c
  }

  function ToUpperCase(s: string): (r: string)
    ensures |r| == |s|
    ensures forall k :: 0 <= k < |s| ==> r[k] == UpperChar(s[k])
  {
    if s == [] then "" else [UpperChar(s[0])] + ToUpperCase(s[1..])
  }

  /**
    `generateQuizCode`: `Math.random().toString(36).substr(2, 6).toUpperCase()`.
    The code is the first six fraction digits, upper-cased; a draw with fewer digits
    gives a shorter code (the empty code for the draw 0).
  */
  function GenerateQuizCode(digits: seq<nat>): (code: string)
    requires IsBase36(digits)
    ensures |code| == if |digits| < CodeLength then |digits| else CodeLength
    ensures forall k :: 0 <= k < |code| ==> IsCodeChar(code[k])
    ensures forall k :: 0 <= k < |code| ==> code[k] == UpperChar(Base36Char(digits[k]))
  {
    var rendered := RandomToString36(digits);
    var kept := Substr(rendered, 2, CodeLength);
    assert digits != [] ==> kept == Base36Chars(digits)[..|kept|];
    ToUpperCase(kept)
  }

  /** The outcome of looking a code up. */
  datatype CodeStatus = NotFound | Expired | Valid

  /** `findOne({ quizCode: code })`: the first stored document with that code. */
  function FindCode(codes: seq<QuizCode>, code: string): (r: Option<QuizCode>)
    ensures r.Some? ==> r.value in codes && r.value.quizCode == code
    ensures r.None? <==> forall k :: 0 <= k < |codes| ==> codes[k].quizCode != code
  {
    if codes == [] then None
    else if codes[0].quizCode == code then Some(codes[0])
    else FindCode(codes[1..], code)
  }

  /**
    The check the code-verifying routes share: not found, expired when the current time is
    strictly past `expiresAt`, valid otherwise.
  */
  function Validate(codes: seq<QuizCode>, code: string, now: int): (s: CodeStatus)
    ensures s == NotFound <==> forall k :: 0 <= k < |codes| ==> codes[k].quizCode != code
    ensures s != NotFound ==> exists k :: 0 <= k < |codes| && codes[k].quizCode == code
                                          && (s == Valid <==> now <= codes[k].expiresAt)
  {
    match FindCode(codes, code)
    case None => NotFound
    case Some(doc) => if now > doc.expiresAt then Expired else Valid
  }

  /** A code is still valid at the very millisecond it expires and expired one millisecond later. */
  lemma ValidUntilExpiry(codes: seq<QuizCode>, k: nat)
    requires k < |codes|
    requires forall j :: 0 <= j < k ==> codes[j].quizCode != codes[k].quizCode
    ensures Validate(codes, codes[k].quizCode, codes[k].expiresAt) == Valid
    ensures Validate(codes, codes[k].quizCode, codes[k].expiresAt + 1) == Expired
  {
    FindFirst(codes, k);
  }

  /** `FindCode` returns the first document holding the code. */
  lemma {:induction false} FindFirst(codes: seq<QuizCode>, k: nat)
    requires k < |codes|
    requires forall j :: 0 <= j < k ==> codes[j].quizCode != codes[k].quizCode
    ensures FindCode(codes, codes[k].quizCode) == Some(codes[k])
  {
    if k > 0 {
      FindFirst(codes[1..], k - 1);
    }
  }

  /** The store right after a rotation at `now`: one global code, created now, expiring in an hour. */
  function Rotated(newCode: string, now: int): (codes: seq<QuizCode>)
    ensures |codes| == 1 && codes[0].scope == Global
  {
    [QuizCode(newCode, now + RotationWindow, now, Global)]
  }

  /**
    After a rotation, the new code is the only one that is found: valid for one hour
    (inclusive), expired afterwards; every code stored before, global or personal and
    whatever its remaining lifetime, is not found.
  */
  lemma {:induction false} RotationReplacesEveryCode(newCode: string, now: int, code: string, t: int)
    ensures code != newCode ==> Validate(Rotated(newCode, now), code, t) == NotFound
    ensures code == newCode && t <= now + RotationWindow ==> Validate(Rotated(newCode, now), code, t) == Valid
    ensures code == newCode && t > now + RotationWindow ==> Validate(Rotated(newCode, now), code, t) == Expired
  {
    var codes := Rotated(newCode, now);
    assert FindCode(codes, newCode) == Some(codes[0]);
    if code != newCode {
      assert FindCode(codes[1..], code) == None;
    }
  }

  /** The reply of `/quiz/generate-code`, with the stored document when one was written. */
  datatype IssueReply = IssueReply(reply: Reply, issued: Option<QuizCode>)

  /** The `quizcodes` collection of the `quiz` database. */
  class QuizCodeCollection {
    var codes: seq<QuizCode>

    constructor ()
      ensures codes == []
    {
      codes := [];
    }

    /**
      `generateAndStoreQuizCode`: draw a code, delete every document (`deleteMany({})`),
      then insert the new code, expiring one hour from `now`.
    */
    method Rotate(digits: seq<nat>, now: int) returns (newCode: string)
      requires IsBase36(digits)
      modifies this
      ensures newCode == GenerateQuizCode(digits)
      ensures codes == Rotated(newCode, now)
    {
      newCode := GenerateQuizCode(digits);
      var expirationTime := now + RotationWindow;
      codes := [];
      codes := codes + [QuizCode(newCode, expirationTime, now, Global)];
    }

    /**
      `/quiz/generate-code`: 500 when the authenticated user id is no `ObjectId` (its
      constructor throws), 404 when the user does not exist; otherwise a
      personal code expiring 24 hours from `now` is appended, unused, and then mailed to
      the user (`mailSent` is whether that mail went out; a failure answers 500 after the insert).
    */
    method IssuePersonal(users: seq<User>, userId: string, digits: seq<nat>, now: int, mailSent: bool)
      returns (r: IssueReply)
      requires IsBase36(digits)
      modifies this
      ensures !IsObjectId(userId) ==> r == IssueReply(Reply(500, "Internal server error"), None) && codes == old(codes)
      ensures IsObjectId(userId) && FindUser(users, userId).None? ==>
                r == IssueReply(Reply(404, "User not found"), None) && codes == old(codes)
      ensures IsObjectId(userId) && FindUser(users, userId).Some? ==>
        var user := FindUser(users, userId).value;
        var doc := QuizCode(GenerateQuizCode(digits), now + PersonalWindow, now,
                            Personal(userId, user.username, false));
        && codes == old(codes) + [doc]
        && r == (if mailSent then IssueReply(Reply(200, "Quiz code generated and sent to your email"), Some(doc))
                 else IssueReply(Reply(500, "Internal server error"), None))
    {
      if !IsObjectId(userId) {
        return IssueReply(Reply(500, "Internal server error"), None);
      }
      var user := FindUser(users, userId);
      if user.None? {
        return IssueReply(Reply(404, "User not found"), None);
      }
      var quizCode := GenerateQuizCode(digits);
      var expiresAt := now + PersonalWindow;
      var doc := QuizCode(quizCode, expiresAt, now, Personal(userId, user.value.username, false));
      codes := codes + [doc];
      if !mailSent {
        return IssueReply(Reply(500, "Internal server error"), None);
      }
      r := IssueReply(Reply(200, "Quiz code generated and sent to your email"), Some(doc));
    }
  }

  /** A freshly issued personal code is valid for exactly 24 hours when no older document shares its code. */
  lemma PersonalCodeLifetime(codes: seq<QuizCode>, doc: QuizCode, t: int)
    requires doc.expiresAt == doc.createdAt + PersonalWindow
    requires forall j :: 0 <= j < |codes| ==> codes[j].quizCode != doc.quizCode
    ensures Validate(codes + [doc], doc.quizCode, t) == Valid <==> t <= doc.createdAt + PersonalWindow
  {
    ValidUntilExpiry(codes + [doc], |codes|);
    FindFirst(codes + [doc], |codes|);
  }
}
