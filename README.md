# Quiz backend rules in Dafny

This project models the rules at the core of the quiz backend, an Express/MongoDB service. It covers:

- the access codes that open a quiz: the hourly global code, personal 24-hour codes, and three generations of the check that validates them;
- the daily question set an administrator fixes, and the registry of restricted e-mail addresses that decides who is served that set;
- the client-safe view of a question: options shuffled, `isCorrect` flags removed, the number of correct options attached;
- scoring a submission: per-question correctness, the rounded percentage, the grade ladder, the 30-second duplicate window and the best-score flag;
- the two older answer checkers;
- the question bank's save, update and delete validation;
- the verification-code and password-reset-token lifecycles of the super-administrator account routes;
- the claim and role decision of the administrator token middleware;
- the standalone enumeration of contiguous sub-arrays.

Each MongoDB collection the routes change is a class with one sequence field per collection, in store order:

- `QuizCodeCollection`, `DailyQuizCollection`, `RestrictedEmails` and `UserScores`;
- `QuestionBank`, the question collection written by the API routes;
- `AccountStore`, which holds the administrators, the verification codes and the reset tokens.

The route handlers that change these collections are methods, with `modifies` clauses. The read-only routes and the middleware are functions over the stored sequences.

The world outside the process is passed in as parameters:

- the current time is `now`, in milliseconds;
- local midnight is `today`;
- `Math.random` draws are reals in [0, 1);
- `crypto.randomInt` and `crypto.randomBytes` results are parameters that meet those functions' ranges;
- `$sample` is a nondeterministic choice of distinct positions;
- bcrypt is `hash: string -> string`;
- `jwt.verify` is `verify: string -> VerifyOutcome`;
- whether an outgoing mail was delivered is `mailSent`.

Modules:

- `Records`: shared documents (codes, users, questions and their options) and the lookups the store performs.
- `QuizCodes`: code generation, lookup, validity, rotation and personal codes.
- `Restriction`: the restricted-email registry.
- `ClientView`: the client view of a question.
- `DailyQuiz`: the daily record.
- `Content`: the code check and the admin-set versus random choice of the content route.
- `Submission`: scoring.
- `Api`: the shuffle, the code and answer checks, and the question bank.
- `QuizRoutes`: the legacy code and answer routes, including JavaScript's `parseInt`.
- `SuperAdmin`: profile, verification code and reset token.
- `VerifyToken`: the middleware.
- `SubArray`: the sub-array enumeration.
- `Decimal`: decimal renderings, used by the six-digit codes and by `parseInt`.

## Model

| member | source | states |
|---|---|---|
| QuizCodes.GenerateQuizCode | backend/server.js:21-23 | the code has at most 6 characters, each a digit or an upper-case letter, namely the upper-cased base-36 digits after "0." |
| QuizCodes.Substr | backend/server.js:22 | `substr(start, length)` keeps at most `length` characters from `start` and none once `start` is past the end |
| QuizCodes.FindCode | backend/routes/routes.js:156 | the lookup finds a stored document with the code, and finds none exactly when no document has it |
| QuizCodes.Validate | backend/routes/routes.js:156-164 | NotFound exactly when no document has the code; any other outcome means one does |
| QuizCodes.ValidUntilExpiry | backend/routes/routes.js:161-164 | a code is still valid at its expiry millisecond and expired one millisecond later (strict `now > expiresAt`) |
| QuizCodes.FindFirst | backend/routes/routes.js:156 | the lookup returns the first document holding the code |
| QuizCodes.Rotated | backend/server.js:30-35 | after a rotation the store holds exactly one global code |
| QuizCodes.RotationReplacesEveryCode | backend/server.js:28-35 | after rotation every other code is unknown, whatever its remaining lifetime; the new code is valid until now + 1 h and expired after |
| QuizCodes.QuizCodeCollection.Rotate | backend/server.js:26-38 | deletes every code, then stores the generated code created now and expiring 3 600 000 ms later |
| QuizCodes.QuizCodeCollection.IssuePersonal | backend/routes/routes.js:1418-1456 | 500 and no change for a user id that is no ObjectId; 404 "User not found" for an unknown user and no change; otherwise appends a code for the user, created now, expiring 24 h later, `isUsed` false |
| QuizCodes.PersonalCodeLifetime | backend/routes/routes.js:1428-1442 | a freshly issued personal code validates exactly while `t <= createdAt + 24 h` |
| Content.VerifyQuizCode | backend/routes/routes.js:153-169 | 404 exactly when no document has the code, 403 only when one has it and `now > expiresAt`, 200 only when `now <= expiresAt` |
| Content.SampleQuestions | backend/routes/routes.js:205-208 | the sample has `min(15, n)` questions, distinct positions drawn from the store |
| Content.GetQuiz | backend/routes/routes.js:172-223 | 404 or 403 exactly as the code lookup decides; once served, `isAdminSet` holds iff an e-mail is given, it is restricted and a record for today exists; the admin set is the client view of the listed questions found, otherwise the view of a sample of `min(15, n)` |
| Restriction.RemoveFirst | backend/routes/restriction.js:57 | `deleteOne` removes one occurrence of a present address (the multiset loses exactly it) and leaves an absent one untouched |
| Restriction.RemoveFirstFromUnique | backend/routes/restriction.js:57-63 | without duplicates, deleting an address removes it entirely, keeps every other and keeps the registry duplicate-free |
| Restriction.RestrictedEmails.Add | backend/routes/restriction.js:11-34 | 400 "Email is required" for a missing or empty address, 400 "Email already restricted" for a present one, both without change; otherwise 201 and exactly that address appended; no duplicates ever |
| Restriction.RestrictedEmails.List | backend/routes/restriction.js:37-46 | returns exactly the stored addresses |
| Restriction.RestrictedEmails.Delete | backend/routes/restriction.js:49-68 | 404 "Email not found" and no change for an absent address; otherwise the address is removed and 200 answered |
| Restriction.IsRestricted | backend/routes/routes.js:193-196 | true iff some stored address equals the e-mail |
| ClientView.StripOptions | backend/routes/routes.js:233-242 | the option values in order, and `totalCorrect` equal to the number of options flagged correct |
| ClientView.PrepareQuestion | backend/routes/routes.js:228-242 | same id, text and tags, the same multiset of option values with no flag, `totalCorrect` = options flagged correct |
| ClientView.PrepareQuestionsForClient | backend/routes/routes.js:226-248 | every question, in the order given, turned into its client view |
| DailyQuiz.FindToday | backend/routes/routes.js:363-365 | finds a record dated today or later, and none exactly when no record is |
| DailyQuiz.DeleteToday | backend/routes/routes.js:431-433 | `deleteOne` removes exactly one record when one is dated today or later, else nothing |
| DailyQuiz.DeleteTodayLeavesNone | backend/routes/routes.js:462-468 | with at most one record for today, the delete leaves none |
| DailyQuiz.SetMakesNewRecordToday | backend/routes/routes.js:430-445 | after set, the record found for today carries exactly the given ids and `isManuallySelected` |
| DailyQuiz.SetWithTwoTodayRecordsKeepsStaleOne | backend/routes/routes.js:418-452 | with two records already dated today, set removes only one, and the lookup still returns the stale one |
| DailyQuiz.GetToday | backend/routes/routes.js:356-415 | 404 iff no record for today; otherwise its date and flag, and the client views of the listed questions found, with no explanation |
| DailyQuiz.FoundIdsListed | backend/routes/routes.js:372-377 | every question fetched by `$in` has one of the listed ids |
| DailyQuiz.DailyQuizCollection.Set | backend/routes/routes.js:418-452 | 400 "Question IDs are required" and no change for missing or empty ids; otherwise one record for today deleted, then 500 if some id is no ObjectId, else the manual record appended with every id as an ObjectId (hex letters lower-cased) |
| DailyQuiz.DailyQuizCollection.Reset | backend/routes/routes.js:455-475 | 404 and no change without a record for today; otherwise that record deleted; with at most one, none is left |
| Submission.Selected | backend/routes/routes.js:680 | a missing selection defaults to the empty list |
| Submission.IsCorrectAnswer | backend/routes/routes.js:683-699 | correct iff as many selected as correct values and the two lists hold the same values |
| Submission.SelectionOrderIrrelevant | backend/routes/routes.js:690-698 | reordering the selection never changes the verdict; an empty selection is right iff no value is correct |
| Submission.Marked | backend/routes/routes.js:707-711 | each option keeps value and flag, `isSelected` iff its value was selected |
| Submission.Check | backend/routes/routes.js:668-713 | "Question not found" iff the id is not among the questions found; otherwise the verdict of the correctness rule, the marked options and the explanation |
| Submission.CountRight | backend/routes/routes.js:667-701 | the score never exceeds the number of results |
| Submission.CountRightAppend | backend/routes/routes.js:701 | the score adds up over concatenated results |
| Submission.Score | backend/routes/routes.js:667-714 | one result per answer, each the check of that answer, and `score` the number marked correct |
| Submission.Percentage | backend/routes/routes.js:717 | undefined with no question found; otherwise the integer nearest to 100·score/total, halves rounded up |
| Submission.PercentageBounds | backend/routes/routes.js:717 | with score ≤ total the percentage lies in [0, 100] and all right gives 100 |
| Submission.PercentageMonotone | backend/routes/routes.js:717 | more right answers never lower the percentage |
| Submission.Grade | backend/routes/routes.js:718-723 | one of the six grades; "Excellent" iff ≥ 90; "Try Again" iff below 50 or undefined |
| Submission.GradeMonotone | backend/routes/routes.js:718-723 | the grade rises with the percentage, stepping at 50, 60, 70, 80 and 90 |
| Submission.RepeatedAnswerPassesHundred | backend/routes/routes.js:657-717 | answering one question twice scores 2 out of 1 found question: 200 %, "Excellent" |
| Records.LowerHex | backend/routes/routes.js:657-664 | an id as the store renders it: hex letters lower-cased, every other character and the length kept |
| Records.ObjectIdsOf | backend/routes/routes.js:441 | `map(id => new ObjectId(id))`: one stored id per id, in order, each lower-cased |
| Submission.StoreIds | backend/routes/routes.js:657-658 | the answer ids as the store compares them, one per answer |
| Submission.UpperCaseIdCountsButMisses | backend/routes/routes.js:657-717 | an upper-case id finds its question (it counts in the denominator) yet the map lookup misses it ("Question not found") |
| Submission.FindRecent | backend/routes/routes.js:639-642 | finds an attempt of the user submitted after `now - 30000`, and none exactly when there is none |
| Submission.DuplicateWindowBoundary | backend/routes/routes.js:641 | an attempt still blocks at 29 999 ms and no longer at 30 000 ms |
| Submission.BestScore | backend/routes/routes.js:746-749 | the highest score among the user's attempts, none iff the user has no attempt |
| Submission.NewAttemptNeverBest | backend/routes/routes.js:743-751 | measured after the insert, the new score never exceeds the best, so `isBestScore` is false |
| Submission.UserScores.Submit | backend/routes/routes.js:629-805 | 400 without an answer array; 500 and no change for a user id that is no ObjectId; a recent attempt is answered as stored, not best, with no insert; 500 and no change when an answer id is no ObjectId or the user is unknown; otherwise one checked result per answer, score, total found, percentage and grade, and exactly one attempt appended; `isBestScore` is always false |
| Api.SwapIndex | backend/routes/api.js:9 | `floor(r·(i+1))` lies in [0, i] |
| Api.SwapPermutes | backend/routes/api.js:10 | a swap keeps the multiset |
| Api.ShufflePermutes | backend/routes/api.js:7-13 | the shuffle returns a permutation of its input |
| Api.ShuffleFromPermutes | backend/routes/api.js:8-11 | each suffix of the loop keeps the multiset |
| Api.ShuffleArray | backend/routes/api.js:7-13 | the array afterwards is the Fisher–Yates shuffle of its old contents under the draws, a permutation of them |
| Api.ViewQuestion | backend/routes/api.js:85-91 | the client view of the question, its values shuffled by the draws and `correctOptionCount` the number of correct options |
| Api.QuestionsView | backend/routes/api.js:74-102 | `min(15, n)` questions, each the shuffled view of the question at that place of the shuffled store, which is a permutation of the store |
| Api.CheckQuizCode | backend/routes/api.js:43-71 | 400 "Quiz code is required" iff no code; otherwise "Invalid quiz code", "Expired quiz code" and 200 "Quiz code is valid" exactly as the lookup decides |
| Api.CodeChecksAgree | backend/routes/api.js:43-71 | this check and the content route's accept the same codes and differ only in rejection status |
| Api.CoversAnswerKeyWhenDistinct | backend/routes/api.js:144-146 | without a repeated correct value the one-way check agrees with the submission rule |
| Api.DistinctCard | backend/routes/api.js:144-146 | a list without repeats has as many distinct values as entries |
| Api.CardAtMostLength | backend/routes/api.js:144-146 | a list has at most as many distinct values as entries |
| Api.RepeatedKeyAcceptsWrongSelection | backend/routes/api.js:144-146 | with a correct value listed twice, a selection holding a wrong value passes |
| Api.ResultFor | backend/routes/api.js:133-155 | id, option values and correct values of the question, the selection or `[]`, `isCorrect` iff equal length and every correct value selected |
| Api.AnsweredResults | backend/routes/api.js:131-156 | a result for every stored question that has an entry in `userAnswers`, and for no other |
| Api.VerifyAnswers | backend/routes/api.js:121-163 | 500 iff `userAnswers` is missing and a question is stored; otherwise exactly the answered questions have results |
| Api.QuestionBank.Save | backend/routes/api.js:16-40 | 400 "Invalid data" and no change for a missing text or non-array options; otherwise 201 and the question appended under a fresh id |
| Api.QuestionBank.Update | backend/routes/api.js:208-240 | 400 as for save; 500 for an id that is no ObjectId; the id compared as an ObjectId (either case of hex letters): 404 iff no question has it; otherwise that question gets the new text and options |
| Api.QuestionBank.Delete | backend/routes/api.js:187-205 | 500 for an id that is no ObjectId; the id compared as an ObjectId (either case of hex letters): 404 iff no question has it; otherwise it is removed and no question with that id remains |
| Api.Replaced | backend/routes/api.js:226-229 | ids, tags and explanations stay in place, the length is kept |
| Api.ReplacedKeepsIds | backend/routes/api.js:226-229 | only the question with the id changes, to the new text and options |
| Api.IndexOfId | backend/routes/api.js:194 | the position of the first question with the id, none iff no question has it |
| Api.Removed | backend/routes/api.js:194-198 | an absent id leaves the store as it is; a present one removes one question |
| Api.RemovedClearsId | backend/routes/api.js:194 | with unique ids, the id is gone, every other question kept, ids still unique |
| QuizRoutes.LegacyVerify | backend/routes/quizRoutes.js:7-25 | success with 200 "Valid quiz code" iff some record has the code, otherwise 400 "Invalid or expired quiz code"; no expiry is read |
| QuizRoutes.LegacyVerifyCases | backend/tests/quizRoutes.test.js:18-45 | "CM3L9F" is accepted and "INVALID123" refused on a store holding the former |
| QuizRoutes.LegacyCodeNeverExpires | backend/routes/quizRoutes.js:14-20 | an accepted code stays accepted whatever is added later |
| QuizRoutes.Newest | backend/routes/quizRoutes.js:34 | a stored record whose `createdAt` is the greatest, none iff the store is empty |
| QuizRoutes.GetLatest | backend/routes/quizRoutes.js:28-45 | 404 "No quizzes found" iff the store is empty; otherwise a stored code |
| QuizRoutes.LatestPassesVerify | backend/routes/quizRoutes.js:7-45 | the latest code is always accepted by the legacy check |
| QuizRoutes.DigitPrefix | backend/routes/quizRoutes.js:61 | the longest run of leading digits |
| QuizRoutes.ParseIntReadsDecimal | backend/routes/quizRoutes.js:61 | `parseInt` reads a decimal number back, signed or not, whatever non-digit text follows |
| QuizRoutes.ParseIntNaN | backend/routes/quizRoutes.js:61 | text starting with no sign, digit or blank parses to `NaN` |
| QuizRoutes.ToJson | backend/routes/quizRoutes.js:70 | `NaN` serialises as `null`, a number as itself |
| QuizRoutes.ParsedCorrect | backend/routes/quizRoutes.js:61 | each correct option parsed in place |
| QuizRoutes.SelectionFor | backend/routes/quizRoutes.js:62 | the user's entry, or `[]` when absent |
| QuizRoutes.CheckQuestion | backend/routes/quizRoutes.js:60-71 | `isCorrect` iff the selection equals the parsed correct options entry by entry, in order |
| QuizRoutes.VerifyAnswers | backend/routes/quizRoutes.js:48-79 | 500 iff `userAnswers` is missing and a question is stored; otherwise one result per stored question |
| QuizRoutes.OrderMatters | backend/routes/quizRoutes.js:70 | [2, 1] is wrong and [1, 2] right for correct options ["1", "2"] |
| QuizRoutes.StringSelectionIsWrong | backend/routes/quizRoutes.js:61-70 | a selection holding a string never matches the parsed numbers |
| QuizRoutes.MissingAnswer | backend/routes/quizRoutes.js:62 | an unanswered question is right iff it has no correct option |
| QuizRoutes.ViewOf | backend/routes/quizRoutes.js:91-98 | id, text and options kept, `totalCorrectOptions` the number of correct options |
| QuizRoutes.GetQuestions | backend/routes/quizRoutes.js:81-108 | 404 "No questions found" iff no question is stored; otherwise one view per question |
| QuizRoutes.ViewAnnouncesAnswerLength | backend/routes/quizRoutes.js:60-98 | a right answer has exactly as many entries as the view announces |
| SuperAdmin.Patched | backend/routes/superAdminRoutes.js:67-69 | `updateOne` keeps the number of administrators |
| SuperAdmin.PatchedTouchesOnlyTarget | backend/routes/superAdminRoutes.js:67-69 | with unique ids, only the administrator with the id changes, and in it exactly the fields the patch sets |
| SuperAdmin.ProfilePatch | backend/routes/superAdminRoutes.js:59-65 | a field is set iff supplied as a truthy value; the password is stored hashed |
| SuperAdmin.FindCode | backend/routes/superAdminRoutes.js:132-137 | the first record of this user, type and code with `expiresAt > now`, none iff there is none |
| SuperAdmin.FindReset | backend/routes/superAdminRoutes.js:283-286 | the first record with the token and `expiresAt > now`, none iff there is none |
| SuperAdmin.FindByEmail | backend/routes/superAdminRoutes.js:249 | an administrator with the address (a missing address matches one without an address), none iff no one has it |
| SuperAdmin.AccountStore.UpdateProfile | backend/routes/superAdminRoutes.js:54-75 | the administrator is patched with the truthy fields only, nothing else changes |
| SuperAdmin.AccountStore.RequestVerification | backend/routes/superAdminRoutes.js:78-124 | 400 "New email is required" and nothing stored for an e-mail change without address; otherwise the code stored for 15 minutes, `newEmail` kept only for type "email", mailed to the new address for an e-mail change and the current one otherwise |
| SuperAdmin.AccountStore.VerifyUpdate | backend/routes/superAdminRoutes.js:127-169 | 400 and no change without a matching unexpired code; otherwise the code is deleted and only the field named by the type is updated |
| SuperAdmin.AccountStore.ForgotPassword | backend/routes/superAdminRoutes.js:244-275 | 404 "No account found with this email" and no change for an unknown address (a missing one matches an administrator without an address); otherwise a token expiring 30 minutes later is stored |
| SuperAdmin.AccountStore.ResetPassword | backend/routes/superAdminRoutes.js:278-309 | 400 and no change without an unexpired token; otherwise the password is replaced by the hash and the token deleted |
| SuperAdmin.CodeIsSixDigits | backend/routes/superAdminRoutes.js:90 | a draw in [100000, 999999) renders as six digits that read back as the draw |
| SuperAdmin.IssuedCodeWindow | backend/routes/superAdminRoutes.js:90-141 | a freshly issued code is found strictly before now + 15 min and not from then on |
| SuperAdmin.CodeUsedOnce | backend/routes/superAdminRoutes.js:132-159 | once consumed, the code is not found again, at any later time |
| SuperAdmin.ResetTokenWindow | backend/routes/superAdminRoutes.js:256-291 | a freshly stored token is found strictly before now + 30 min and not from then on |
| SuperAdmin.ResetTokenUsedOnce | backend/routes/superAdminRoutes.js:283-302 | once consumed, the token is not found again, at any later time |
| VerifyToken.TrimLeft | backend/middleware/verifyToken.js:13-15 | a suffix of the input, starting with no ECMAScript white space or line terminator, after only such characters |
| VerifyToken.VerifyAdminToken | backend/middleware/verifyToken.js:3-58 | 401 iff no header; admitted only with the object payload `verify` decodes, and then iff the claims are accepted; `adminId` is `id` when a role or `id` is present |
| VerifyToken.RejectionStatus | backend/middleware/verifyToken.js:25-56 | 401 for an expired or malformed token, 400 for any other failure, 403 for a non-object payload, a missing role without ids, or a role other than the two admin roles |
| VerifyToken.BearerStripped | backend/middleware/verifyToken.js:13-15 | "Bearer " and the blanks after it are stripped; a bare token is passed as it is |
| VerifyToken.RoleOverridesLegacyId | backend/middleware/verifyToken.js:25-48 | an id without role is admitted, while the same id with role "user" is refused 403 |
| SubArray.SubArrays | SubArray.java:8-21 | the nested loops produce exactly the enumeration of all `arr[i..j)`, `i < j`, by start then end |
| SubArray.ListOneTwoThree | SubArray.java:8-21 | for {1, 2, 3} the list is [[1], [1, 2], [1, 2, 3], [2], [2, 3], [3]] |
| SubArray.SubArrayCount | SubArray.java:11-12 | exactly n(n+1)/2 sub-arrays |
| SubArray.SubArrayAt | SubArray.java:11-16 | the slice `arr[a..b)` is listed, at its position in start-then-end order |
| SubArray.SubArrayOrder | SubArray.java:11-17 | positions are ordered by start, then by end |
| SubArray.EverySubArrayIsASlice | SubArray.java:11-16 | every listed entry is a non-empty slice `arr[a..b)` |
| SubArray.RowStartClosedForm | SubArray.java:11-12 | the rows before start `i` hold `i(2n-i+1)/2` entries |

## Left out

- Mail delivery, the mail templates and the `sendEmail` call shape are not modelled. A route that mails receives whether the mail went out as `mailSent`.
- Cloudinary and multer image uploads are not modelled. This includes the super-administrator `/profile/image` route.
- bcrypt, `crypto`, `jwt.verify` and `Math.random` are parameters, so their internals are not modelled. Neither is the distribution of their results, including the non-uniform random-comparator sort and `$sample`.
- `cron.schedule`, the server start-up call and the database connection are not modelled. Only the rotation body is.
- Concurrency is not modelled. Each route runs alone, so the read-then-insert races of dedup, restriction add and daily-quiz set are outside the model.
- The regex tag and search routes, user registration, login, profile, history, signup and change-password routes, and the user forgot/reset routes are not modelled. They are thin wrappers over hashing, tokens and `$regex`, and are not part of this model.
- `verifyUserToken` is not modelled. `Submission.UserScores.Submit` and `QuizCodes.QuizCodeCollection.IssuePersonal` take the authenticated user id as a parameter.
- `authenticateSuperAdmin` and GET `/profile` are not modelled. The super-administrator routes take the authenticated record as a parameter.
- GET `/question/:id` and GET `/questions` of the API router are not modelled. They are plain reads.
- The frontend, the one-off admin scripts and the test-mail scripts are outside the model.
- The server test file checks messages no modelled route produces, so it is not modelled.
- Local midnight and daylight-saving time are not modelled. `today` is given as a number.
- `Math.round` of a float is not modelled exactly. `Submission.Percentage` is integer round-half-up. With no question found the percentage is `NaN`, modelled as `None`.
- `Submission.UserScores.Submit` accepts only the 24-digit hexadecimal form of an `ObjectId`. Any other id answers 500, as the throwing `new ObjectId` leads to. The 12-byte string form is not modelled. An unknown user also answers 500, without an insert.
- `QuizCodes.QuizCodeCollection.IssuePersonal` likewise accepts only the 24-digit hexadecimal form of the user id and answers 500 for any other. The 12-byte string form is not modelled.
- `Api.QuestionBank.Update` answers 200 with a fixed message. The route answers with the updated fields and an `updatedAt` time, which the model does not store. Neither does `Api.QuestionBank.Save` store `createdAt`.
- `Api.VerifyAnswers` models only two kinds of `userAnswers` entry: an array, or a falsy entry read as `[]`. Other truthy values are not modelled.
- `QuizRoutes.ParseIntReadsDecimal` covers decimal text after the whitespace `TrimLeft` knows. It does not cover the `0x` prefix or the precision loss of very long digit runs.
- `QuizRoutes.GetLatest`: records that tie on `createdAt` give the first in store order. MongoDB leaves that order unspecified.
- `SuperAdmin.AccountStore.VerifyUpdate` and `SuperAdmin.AccountStore.ResetPassword`: the only bcrypt failure modelled is a missing password, which answers 500 before any write.
- `SuperAdmin.AccountStore.UpdateProfile` models an empty `$set` (no truthy field) as changing nothing. The driver's own reaction to an empty update is not modelled.

Where the code and its comments disagree, the model follows the code:

- Rotation deletes every code, personal ones included.
- `isBestScore` is computed after the insert and is therefore always false.
- The legacy check ignores expiry.
- An e-mail change stores the `newEmail` of the verifying request, not the address stored with the code.
