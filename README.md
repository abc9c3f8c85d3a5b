# Exam Priority Portal: the backend core in Dafny

This project models the backend of the Exam Priority Portal, an exam-preparation service. It
models the four controllers (quizzes, exams/subjects/topics, student progress,
authentication) and the schemas of `Quiz`, `Topic`, `Progress` and `Exam`, and proves
properties of the model.

- **The store.** Each collection is a table, a `seq` of `Row(id, doc)` in natural order. The
  `Database.Db` class holds one table field per collection and an id allocator. Each handler
  is a method on a `Db` that modifies only the tables it writes. A handler is one atomic step.
- **Handler results.** A handler returns the HTTP status it would answer with and, where the
  source shows it, the result document.
- **Reads.** Read-only handlers and the login decisions are functions over table values. These
  are `getQuizByTopic`, `getExamById`, the listings, `getStudentProgress`, `loginStudent`,
  `loginAdmin` and `getProfile`.
- **The store invariant.** `Database.Inv` is preserved by every handler. It says:
  - ids are unique, and every id is below the allocator;
  - exam names are unique, user emails are unique, and there is at most one progress row per
    (student, topic) pair;
  - every parent-held id array (`Exam.subjects`, `Subject.topics`, `Topic.quizzes`) lists
    exactly the child rows whose foreign key names that parent. The creates and deletes keep
    this true through their `$push`/`$pull` dual-writes.
- **Grading.** `submitQuuzAnswer` is a loop, `Grading.GradeAnswers`. It is proved against the
  specification functions `Graded`, `Results` and `Score`. Lemmas relate the score to the
  matching positions and to the per-question flags, and cover short and long answer lists.

Conventions that follow the document-store library the source uses:

- A `required` string rejects both a missing value and "", so the model writes a missing
  string as "".
- Validators run when a document is saved, not on `findByIdAndUpdate`.
- Keys that are undefined in an update are dropped, so an absent update field is `None` and
  leaves the stored value as it was.
- The unique index on `Exam.name` rejects a duplicate on insert and on update.
- A failed validation or index check is caught by the handler and answered with 500.
- Ids are natural numbers from the allocator. The allocator is kept above every row id and
  every parent reference (`Subject.exam`, `Topic.subject`, `Quiz.topic`), so a new id never
  equals a row id or a parent reference already stored. This stands in for ObjectId
  generation.

Calls into code the model cannot see become parameters:

- the password check is `matches(candidate, stored)`;
- the clock reading of a quiz attempt is `now`;
- a token is the payload `generateToken` signs, that is, the user's id, email and role.

## Model

| member | source | states |
|---|---|---|
| ExamController.NameTaken | backend/src/models/Exam.js:8 | true exactly when another exam (other than the one being updated) already has the name, the unique index's condition |
| Models.NewTopic | backend/src/models/Topic.js:4-28 | a new topic keeps name, subject and study material, has no quizzes, and its priority is the given one or the default `Medium` |
| Models.ParsePriority | backend/src/models/Topic.js:14-17 | a priority string is accepted exactly when it is one of High, Medium, Low, and maps back to the same name |
| Grading.Results | backend/src/controllers/quizController.js:87-98 | one result per question, in question order |
| Grading.Percent | backend/src/controllers/quizController.js:103 | the percentage lies in 0..100, is 0 exactly when the score is 0 and 100 exactly when every question is right |
| Grading.GradeAnswers | backend/src/controllers/quizController.js:84-105 | the loop computes the specified grade: total = number of questions, one result per question equal to that question's outcome, score ≤ total |
| Grading.ScoreIsFlagCount | backend/src/controllers/quizController.js:87-98 | the score equals the number of results flagged correct |
| Grading.ScoreCountsMatches | backend/src/controllers/quizController.js:87-89 | the score is the number of positions i < number of questions where answers[i] equals the correct answer; it is at most the number of questions and of answers |
| Grading.FullMarks | backend/src/controllers/quizController.js:87-89 | full marks exactly when every question has an answer and every answer is correct |
| Grading.ExtraAnswersIgnored | backend/src/controllers/quizController.js:87-88 | answers beyond the last question do not change the grade |
| Grading.MissingAnswersIncorrect | backend/src/controllers/quizController.js:87-93 | with fewer answers than questions, the unanswered questions are incorrect with no user answer, and the score counts only the answered ones |
| QuizController.QuizByTopic | backend/src/controllers/quizController.js:3-9 | 404 exactly when no quiz names the topic; otherwise 200 with the first quiz that does |
| QuizController.AddQuizTo | backend/src/controllers/quizController.js:28 | `$push`: the named topic's `quizzes` gains the id at its end; every other topic and every id is unchanged |
| QuizController.DropQuizFrom | backend/src/controllers/quizController.js:66 | `$pull`: the id is removed from the named topic's `quizzes`; every other topic is unchanged |
| QuizController.DropQuizUndoesAdd | backend/src/controllers/quizController.js:28 | pulling a quiz id that no topic held after pushing it restores the topics exactly |
| QuizController.InsertQuizKeepsInv | backend/src/controllers/quizController.js:19-28 | inserting a quiz and pushing its id onto its topic keeps the store invariant, including the `Topic.quizzes` dual-write |
| QuizController.CreateQuiz | backend/src/controllers/quizController.js:15-30 | 500 with no change (not even to the id allocator) exactly when the topic is missing or a question fails the schema's checks of backend/src/models/Quiz.js:12-29 (`ValidQuestions`: text, every option and explanation present); otherwise 201, the quiz appended under a new id and that id pushed onto its topic, if the topic exists |
| QuizController.ReplaceQuestions | backend/src/controllers/quizController.js:40-44 | the quiz with the id gets the new question list and keeps its topic; no other quiz changes |
| QuizController.ReplaceQuestionsKeepsInv | backend/src/controllers/quizController.js:40-44 | replacing a quiz's questions in place keeps the store invariant |
| QuizController.UpdateQuiz | backend/src/controllers/quizController.js:36-50 | 404 with no change exactly when no quiz has the id; otherwise 200 and the whole question list replaced, without validation |
| QuizController.RemoveQuizKeepsInv | backend/src/controllers/quizController.js:58-66 | removing a quiz and pulling its id from its topic keeps the store invariant |
| QuizController.DeleteQuiz | backend/src/controllers/quizController.js:56-68 | 404 with no change exactly when no quiz has the id; otherwise the quiz is removed and its id pulled from its own topic's `quizzes` |
| QuizController.SubmitQuizAnswer | backend/src/controllers/quizController.js:74-105 | 404 and no grade exactly when no quiz has the id; otherwise 200 with the grade of its questions |
| QuizController.CreateThenDeleteQuiz | backend/src/controllers/quizController.js:15-72 | creating a quiz and then deleting it restores the quiz and topic tables, because the new id was held by no topic |
| ExamController.ExamById | backend/src/controllers/examController.js:15-23 | 404 exactly when no exam has the id; otherwise 200 with that exam |
| ExamController.InsertExamKeepsInv | backend/src/controllers/examController.js:34-38 | inserting an exam with a free name and no subjects keeps the store invariant |
| ExamController.CreateExam | backend/src/controllers/examController.js:30-44 | 500 with no change (not even to the id allocator) exactly when the name is missing or taken, the `required` and `unique` of backend/src/models/Exam.js:5-9 (`Present`, `NameTaken`); otherwise 201 and the exam appended under a new id with the given name and description and no subjects (`NewExam`, backend/src/models/Exam.js:4-18) |
| ExamController.EditExamKeepsInv | backend/src/controllers/examController.js:50-54 | renaming an exam to a name no other exam has keeps the store invariant |
| ExamController.EditExam | backend/src/controllers/examController.js:50-54 | `findByIdAndUpdate` on the exams: the table keeps its length and order, the exam with the id gets the edited document, every other row is unchanged |
| ExamController.UpdateExam | backend/src/controllers/examController.js:46-64 | 404 exactly when no exam has the id; 500 exactly when the new name belongs to another exam; otherwise only that exam's given fields change (`EditedExam`: a field left undefined keeps its value, `subjects` is never touched) |
| ExamController.RemoveExamKeepsInv | backend/src/controllers/examController.js:68 | removing an exam row alone keeps the store invariant; its subjects remain, naming no existing exam |
| ExamController.DeleteExam | backend/src/controllers/examController.js:66-78 | 404 with no change exactly when no exam has the id; otherwise only that exam row is removed, and its subjects and topics stay |
| ExamController.SubjectsByExam | backend/src/controllers/examController.js:81-85 | lists exactly the subjects whose `exam` field names the exam |
| ExamController.SubjectsListedByArray | backend/src/controllers/examController.js:83 | in a consistent store, an exam's `subjects` array holds exactly the ids the listing by foreign key returns |
| ExamController.AddSubjectTo | backend/src/controllers/examController.js:102 | `$push` onto the named exam's `subjects` at its end; every other exam is unchanged |
| ExamController.DropSubjectFrom | backend/src/controllers/examController.js:139 | `$pull` from the named exam's `subjects`; every other exam is unchanged |
| ExamController.DropSubjectUndoesAdd | backend/src/controllers/examController.js:102 | pulling a subject id that no exam held after pushing it restores the exams exactly |
| ExamController.InsertSubjectKeepsInv | backend/src/controllers/examController.js:94-102 | inserting a subject and pushing its id onto its exam keeps the store invariant |
| ExamController.CreateSubject | backend/src/controllers/examController.js:90-108 | 500 with no change (not even to the id allocator) exactly when the name or the exam is missing; otherwise 201, the subject appended and its id pushed onto its exam's `subjects` |
| ExamController.RenameSubject | backend/src/controllers/examController.js:114-118 | only the subject's name changes, and only when a name is given; `topics` and `exam` stay |
| ExamController.RenameSubjectKeepsInv | backend/src/controllers/examController.js:114-118 | renaming a subject keeps the store invariant |
| ExamController.UpdateSubject | backend/src/controllers/examController.js:110-128 | 404 with no change exactly when no subject has the id; otherwise 200 and only the name changes |
| ExamController.RemoveSubjectKeepsInv | backend/src/controllers/examController.js:132-139 | removing a subject and pulling its id from its exam keeps the store invariant |
| ExamController.DeleteSubject | backend/src/controllers/examController.js:130-145 | 404 with no change exactly when no subject has the id; otherwise the subject is removed, its id pulled from its exam, and its topics left in place |
| ExamController.CreateThenDeleteSubject | backend/src/controllers/examController.js:90-145 | creating a subject and then deleting it restores the subjects and the exams' `subjects` arrays |
| ExamController.TopicsBySubject | backend/src/controllers/examController.js:148-152 | lists exactly the topics whose `subject` field names the subject |
| ExamController.HighMediumTopics | backend/src/controllers/examController.js:157-162 | lists exactly the subject's topics whose priority is High or Medium |
| ExamController.HighMediumFiltersListing | backend/src/controllers/examController.js:150-162 | the High/Medium listing is the subject's listing filtered by priority, in the same order, so a subset of it |
| ExamController.TopicsListedByArray | backend/src/controllers/examController.js:150 | in a consistent store, a subject's `topics` array holds exactly the ids the listing by foreign key returns |
| ExamController.AddTopicTo | backend/src/controllers/examController.js:183 | `$push` onto the named subject's `topics` at its end; every other subject is unchanged |
| ExamController.DropTopicFrom | backend/src/controllers/examController.js:220 | `$pull` from the named subject's `topics`; every other subject is unchanged |
| ExamController.DropTopicUndoesAdd | backend/src/controllers/examController.js:183 | pulling a topic id that no subject held after pushing it restores the subjects exactly |
| ExamController.InsertTopicKeepsInv | backend/src/controllers/examController.js:173-183 | inserting a topic and pushing its id onto its subject keeps the store invariant |
| ExamController.CreateTopic | backend/src/controllers/examController.js:169-189 | 500 with no change (not even to the id allocator) exactly when the name or subject is missing or the priority is not in the enum, the checks of backend/src/models/Topic.js:5-17 (`ValidTopic`); otherwise 201, the topic appended (priority defaulted) and its id pushed onto its subject |
| ExamController.EditTopicKeepsInv | backend/src/controllers/examController.js:195-199 | editing a topic keeps the store invariant |
| ExamController.EditTopic | backend/src/controllers/examController.js:195-199 | `findByIdAndUpdate` on the topics: the table keeps its length and order, the topic with the id gets the given fields (`EditedTopic`: a field left undefined keeps its value, `subject` and `quizzes` untouched), every other row is unchanged |
| ExamController.UpdateTopic | backend/src/controllers/examController.js:191-209 | 404 with no change exactly when no topic has the id; otherwise 200 and the given fields are stored as given, unvalidated |
| ExamController.EditTopicEscapesEnum | backend/src/controllers/examController.js:195-199 | a store whose priorities are all in the enum can be given one that is not, through the update |
| ExamController.CheckedEditKeepsEnum | backend/src/models/Topic.js:16 | an update whose priority is in the enum keeps every stored priority in the enum |
| ExamController.UpdateTopicChecked | backend/src/controllers/examController.js:191-209 | the update with update validators on: 500 with no change exactly when the priority is outside the enum, whatever the id (validation runs before the lookup); then 404 for an unknown id; otherwise the same edit; it keeps every priority in the enum |
| ExamController.CreatedTopicInEnum | backend/src/controllers/examController.js:173-181 | a topic that passes validation on create keeps every stored priority in the enum |
| ExamController.RemoveTopicKeepsInv | backend/src/controllers/examController.js:213-220 | removing a topic and pulling its id from its subject keeps the store invariant |
| ExamController.DeleteTopic | backend/src/controllers/examController.js:211-226 | 404 with no change exactly when no topic has the id; otherwise the topic is removed, its id pulled from its subject, and its quizzes left in place |
| ExamController.CreateThenDeleteTopic | backend/src/controllers/examController.js:169-226 | creating a topic and then deleting it restores the topics and the subjects' `topics` arrays |
| ProgressController.StudentRows | backend/src/controllers/progressController.js:7 | exactly the progress rows of the student |
| ProgressController.CompletedRows | backend/src/controllers/progressController.js:14 | exactly the completed rows, never more than there are rows |
| ProgressController.StudentProgress | backend/src/controllers/progressController.js:4-22 | the summary for the student in the path, or the caller: completed = number of completed rows ≤ total = number of rows; the percentage is 0 with no rows, else the exact ratio in 0..100 |
| ProgressController.AllCompletedIffCountsMeet | backend/src/controllers/progressController.js:14-15 | completed equals total exactly when every one of the student's rows is completed |
| ProgressController.FindPair | backend/src/controllers/progressController.js:33-36 | the first row for (student, topic), or none exactly when no row has that pair |
| ProgressController.MarkedComplete | backend/src/controllers/progressController.js:33-48 | an existing row for the pair is completed in place, keeping its id and attempts, and nothing else changes; otherwise one completed row with no attempts is appended |
| ProgressController.MarkedCompleteEffect | backend/src/controllers/progressController.js:38-46 | afterwards the pair has a row, it is completed, and its attempts are those it had; a created row is `NewProgress` with `isCompleted` set, so it holds no attempts (backend/src/models/Progress.js:15-26) |
| ProgressController.MarkedCompleteIdempotent | backend/src/controllers/progressController.js:38-46 | marking the same pair twice gives the same table as marking it once |
| ProgressController.MarkedCompleteKeepsInv | backend/src/controllers/progressController.js:33-48 | find-or-create keeps one row per (student, topic) and the other invariants, though the schema has no unique index |
| ProgressController.MarkTopicComplete | backend/src/controllers/progressController.js:28-50 | 200 with the pair's row, which is in the table and completed; the table is the marked one; a created row gets a new id |
| ProgressController.WithAttempt | backend/src/controllers/progressController.js:62-79 | the attempt is appended to the pair's row in place, keeping its id and `isCompleted`; otherwise one uncompleted row holding only the attempt is appended |
| ProgressController.WithAttemptEffect | backend/src/controllers/progressController.js:67-79 | the pair's attempts become the old ones followed by exactly the new one, and its completion flag is unchanged (false for a new row) |
| ProgressController.WithAttemptKeepsInv | backend/src/controllers/progressController.js:62-81 | recording an attempt keeps one row per (student, topic) and the other invariants |
| ProgressController.RecordQuizAttempt | backend/src/controllers/progressController.js:56-83 | 200 with the caller's row for the topic, whose attempts are the previous ones plus the new attempt stamped with the clock reading |
| ProgressController.AllStudents | backend/src/controllers/progressController.js:89-92 | exactly the users with role student, without their passwords |
| ProgressController.SetBlocked | backend/src/controllers/progressController.js:102-106 | the user with the id gets `isBlocked` set; no other user changes |
| ProgressController.SetBlockedLastWins | backend/src/controllers/progressController.js:102-126 | block and unblock are idempotent, and the last one applied decides the flag |
| ProgressController.SetBlockedKeepsInv | backend/src/controllers/progressController.js:102-106 | setting any user's blocked flag keeps the store invariant, including unique emails |
| ProgressController.SetStudentBlocked | backend/src/controllers/progressController.js:98-132 | 404 with no change exactly when no user has the id; otherwise 200, the flag set, and the user returned without password |
| ProgressController.BlockStudent | backend/src/controllers/progressController.js:98-116 | 404 with no change and no user exactly for an unknown id; otherwise 200, that user's flag set to true, and the updated user returned without its password (`WithoutPassword`) |
| ProgressController.UnblockStudent | backend/src/controllers/progressController.js:118-136 | 404 with no change and no user exactly for an unknown id; otherwise 200, that user's flag set to false, and the updated user returned without its password (`WithoutPassword`) |
| ProgressController.DropStudentRows | backend/src/controllers/progressController.js:143 | exactly the progress rows of other students remain |
| ProgressController.DropStudentRowsEffect | backend/src/controllers/progressController.js:142-143 | after the cascade the student has no rows, and every other student's rows are unchanged and in the same order |
| ProgressController.DeleteStudentKeepsInv | backend/src/controllers/progressController.js:142-143 | removing the user and all its progress rows keeps the store invariant |
| ProgressController.DeleteStudent | backend/src/controllers/progressController.js:138-145 | always 200: the user with the id is removed (if any) and so are all its progress rows |
| ProgressController.SetTargetExam | backend/src/controllers/progressController.js:156-160 | the caller's `targetExam` becomes the given id, with no check that the exam exists; no other user changes, and an absent id changes nothing |
| ProgressController.SetTargetExamKeepsInv | backend/src/controllers/progressController.js:156-160 | setting a user's target exam keeps the store invariant |
| ProgressController.UpdateTargetExam | backend/src/controllers/progressController.js:151-162 | always 200 with the caller's updated user, whose target exam is the given one |
| AuthController.FindByEmail | backend/src/controllers/authController.js:17 | the first user with the email, or none exactly when no user has it |
| AuthController.RegisterKeepsInv | backend/src/controllers/authController.js:17-31 | adding a user whose email is unused keeps emails unique and the other invariants |
| AuthController.RegisterStudent | backend/src/controllers/authController.js:12-44 | 400 with the store unchanged exactly when a user has the email; otherwise 201, the student appended under a new id, and a token for it |
| AuthController.LoginStudent | backend/src/controllers/authController.js:50-80 | 401 for no user or a non-student; then 403 for a blocked student, whatever the password; then 401 for a wrong password; else 200 with that user's token (`GenerateToken`, authController.js:4-10) and the reply fields of authController.js:68-80 (`SessionOf`: id, name, email, role) and target exam |
| AuthController.LoginAdmin | backend/src/controllers/authController.js:86-111 | 401 for no user, a non-admin or a wrong password; else 200 with a token; no blocked check |
| AuthController.LoginStudentOutcome | backend/src/controllers/authController.js:54-68 | with unique emails, the outcome for a user's email is decided by that user: 200 iff a non-blocked student with a matching password, 403 iff a blocked student, 401 otherwise |
| AuthController.GetProfile | backend/src/controllers/authController.js:117-124 | always 200 with the caller's stored user, password field included, or none when no user has the id |
| AuthController.BlockedStudentForbidden | backend/src/controllers/authController.js:59-61 | after `blockStudent`, that student's login gets 403 whatever the password |
| AuthController.UnblockedStudentLogsIn | backend/src/controllers/authController.js:59-68 | after `unblockStudent`, that student logs in with a matching password and gets a token naming them |
| AuthController.AdminLoginIgnoresBlocked | backend/src/controllers/authController.js:90-100 | setting any user's blocked flag leaves every admin login outcome unchanged |
| AuthController.RegisteredStudentLogsIn | backend/src/controllers/authController.js:23-68 | a student just registered logs in with the same password and gets a token for the new row |
| AuthController.DeletedUserUnauthorized | backend/src/controllers/authController.js:54-57 | after `deleteStudent`, the email gets 401 from both logins |
| Links.PullUndoesPush | backend/src/controllers/examController.js:102 | `$pull` of an id after a `$push` of it onto an array that did not hold it restores the array |
| Links.Pull | backend/src/controllers/examController.js:139 | `$pull` (also quizController.js:66 and examController.js:220): exactly the ids other than the pulled one remain, never more than before, and an array not holding the id is unchanged |
| Links.AddChild | backend/src/controllers/examController.js:173-183 | inserting a child under a new id and pushing it onto its parent keeps every parent array listing exactly its children |
| Links.RemoveChild | backend/src/controllers/examController.js:213-220 | removing a child and pulling its id from its parent keeps every parent array listing exactly its children |
| Table.FindFirst | backend/src/controllers/quizController.js:5 | `findOne`: the position of a row satisfying the filter with no earlier row satisfying it, or none exactly when no row does |
| Table.Lookup | backend/src/controllers/quizController.js:79 | `findById`: the stored document of a row with the id, or none exactly when no row has the id |
| Table.Where | backend/src/controllers/examController.js:83 | `find`: exactly the rows satisfying the filter, never more rows than the table |
| Table.Remove | backend/src/controllers/examController.js:68 | `findByIdAndDelete`: exactly the rows whose id differs remain |
| Table.Update | backend/src/controllers/examController.js:50 | `findByIdAndUpdate`: same length and ids, the row with the id gets the updated document, every other row unchanged |
| Database.Db.NewId | backend/src/controllers/examController.js:34-38 | a new document's id is at or above the allocator, so no stored row has it, and above the reference the document will hold; the allocator moves past it and the store invariant still holds |

## Left out

- Grading.GradeAnswers: `percentage` is the exact ratio. The `toFixed(2)` string is not modelled, and for a quiz with no questions (where the source produces "NaN") the percentage is absent.
- ProgressController.StudentProgress: `progressPercentage` is the exact ratio, not the `toFixed(2)` string.
- AuthController.RegisterStudent: the password is stored as given. Hashing lives in the `User` schema, which is not part of this model, so the stored value is what `matches` compares against.
- AuthController.LoginStudent and AuthController.LoginAdmin: `comparePassword` is the predicate `matches` passed in.
- AuthController.GenerateToken: the token is only its payload. JWT signing and the seven-day expiry are not modelled.
- AuthController.RegisteredStudentLogsIn: assumes `matches(p, p)`, standing for "the check accepts a password against its own stored hash".
- Database.Db.NewId: ObjectIds are modelled as natural numbers from a counter. The counter is kept above every row id and every parent reference (`Subject.exam`, `Topic.subject`, `Quiz.topic`) only.
- The references `Progress.student`, `Progress.topic` and `User.targetExam` are not bounded by the counter. `markTopicComplete`, `recordQuizAttempt` and `updateTargetExam` store whatever id they are given, without checking that it exists, so a later create may be given an id such a row already names and pick up that row. Real ObjectIds are never reused this way; the model does not rule it out.
- The `Subject` and `User` schemas are not part of this model:
  - a `Subject` is assumed to require `name` and `exam`;
  - no validation of a `User` is modelled, so registration with empty fields succeeds.
- `getAllExams` (examController.js:6-13) is not modelled. It returns the exams table as it is, joined with `populate`.
- The `populate` joins are not modelled. Listings and lookups return the stored rows with ids in place of documents.
- Timestamps are not modelled. The attempt time is the parameter `now`.
- Each handler is one atomic step. The non-atomic two-write sequences and concurrent requests are not modelled.
- Malformed input is not modelled:
  - ids are well-formed naturals, so the cast errors a malformed id causes are not modelled;
  - request numbers and answer lists are taken as integers, and a missing or non-numeric value is not modelled.
- In an update, an absent field leaves the value unchanged. An explicit `null` is not modelled.
- Driver and connection failures, answered with 500 by every handler, are not modelled.
- `getProfile` returns the stored user including its password field, as the source does; the model keeps this.

## Findings

| source | as written | input that shows it | evidently intended | confidence | as-written member | corrected member |
|---|---|---|---|---|---|---|
| backend/src/controllers/examController.js:195-199 | `updateTopic` writes `priority` with `findByIdAndUpdate` without `runValidators`, so the enum of backend/src/models/Topic.js:16 is not checked on update | updating an existing topic with `priority: "Urgent"` stores "Urgent", and the topic then drops out of the High/Medium listing and of every valid priority | the enum holds for every stored topic, as on create; the corrected handler turns update validators on, so a priority outside the enum gets 500 before the id is looked up | medium, not executed | ExamController.EditTopicEscapesEnum | ExamController.UpdateTopicChecked |
