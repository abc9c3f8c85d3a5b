/** The progress and student-management handlers (`progressController.js`): a student's
    summary, the find-or-create updates of a (student, topic) progress row, and the admin
    actions on students. */
module ProgressController {
  import opened Wrappers
  import opened Table
  import opened Models
  import opened Database
  import opened Grading

  // ---- Reading progress ----------------------------------------------------------

  /** `Progress.find({ student })`: the student's rows, in order. */
  function StudentRows(progress: Table<Progress>, student: Id): (r: Table<Progress>)
    ensures forall row :: row in r <==> row in progress && row.doc.student == student
  {
    Where(progress, (row: Row<Progress>) => row.doc.student == student)
  }

  /** The completed rows among `rows`. */
  function CompletedRows(rows: Table<Progress>): (r: Table<Progress>)
    ensures forall row :: row in r <==> row in rows && row.doc.isCompleted
    ensures |r| <= |rows|
  {
    Where(rows, (row: Row<Progress>) => row.doc.isCompleted)
  }

  /** The response of `getStudentProgress`; the percentage is the exact ratio. */
  datatype Summary = Summary(completedTopics: nat, totalTopics: nat, progressPercentage: real, progress: Table<Progress>)

  /** `getStudentProgress`: the summary of the student named in the path, or of the caller
      when the path names none. A student without rows gets 0 rather than a division. */
  function StudentProgress(progress: Table<Progress>, studentParam: Option<Id>, caller: Id): (r: Summary)
    ensures r.progress == StudentRows(progress, studentParam.UnwrapOr(caller))
    ensures r.totalTopics == |r.progress| && r.completedTopics == |CompletedRows(r.progress)|
    ensures r.completedTopics <= r.totalTopics
    ensures 0.0 <= r.progressPercentage <= 100.0
    ensures r.totalTopics == 0 ==> r.progressPercentage == 0.0
    ensures r.totalTopics > 0 ==> r.progressPercentage == Percent(r.completedTopics, r.totalTopics)
  {
    var rows := StudentRows(progress, studentParam.UnwrapOr(caller));
    var completed := |CompletedRows(rows)|;
    Summary(completed, |rows|, if |rows| == 0 then 0.0 else Percent(completed, |rows|), rows)
  }

  /** The student has completed every one of their topics exactly when the completed count
      reaches the total. */
  lemma AllCompletedIffCountsMeet(progress: Table<Progress>, studentParam: Option<Id>, caller: Id)
    ensures var r := StudentProgress(progress, studentParam, caller);
      r.completedTopics == r.totalTopics <==> forall row :: row in r.progress ==> row.doc.isCompleted
  {
    var rows := StudentRows(progress, studentParam.UnwrapOr(caller));
    if forall row :: row in rows ==> row.doc.isCompleted {
      WhereAll(rows, (row: Row<Progress>) => row.doc.isCompleted);
    } else {
      var row :| row in rows && !row.doc.isCompleted;
      WhereDrops(rows, (row: Row<Progress>) => row.doc.isCompleted, row);
    }
  }

  // ---- Find-or-create on (student, topic) ---------------------------------------------

  /** `Progress.findOne({ student, topic })`: the first row for the pair. */
  function FindPair(progress: Table<Progress>, student: Id, topic: Id): (r: Option<nat>)
    ensures r.Some? ==> r.value < |progress| && StudentTopic(progress[r.value]) == (student, topic)
    ensures r.Some? ==> forall j :: 0 <= j < r.value ==> StudentTopic(progress[j]) != (student, topic)
    ensures r.None? <==> forall row :: row in progress ==> StudentTopic(row) != (student, topic)
  {
    FindFirst(progress, (row: Row<Progress>) => StudentTopic(row) == (student, topic))
  }

  /** Whether the pair's row is completed (false when there is no row). */
  function CompletedOf(progress: Table<Progress>, student: Id, topic: Id): bool
  {
    match FindPair(progress, student, topic)
    case Some(i) => progress[i].doc.isCompleted
    case None => false
  }

  /** The attempts recorded on the pair's row (none when there is no row). */
  function AttemptsOf(progress: Table<Progress>, student: Id, topic: Id): seq<QuizAttempt>
  {
    match FindPair(progress, student, topic)
    case Some(i) => progress[i].doc.quizAttempts
    case None => []
  }

  /** The table after `markTopicComplete`: the pair's row, if any, gets `isCompleted` set in
      place; otherwise a completed row with no attempts is added under `newId`. */
  function MarkedComplete(progress: Table<Progress>, student: Id, topic: Id, newId: Id): (r: Table<Progress>)
    ensures FindPair(progress, student, topic).Some? ==> |r| == |progress|
    ensures FindPair(progress, student, topic).None? ==>
      r == progress + [Row(newId, NewProgress(student, topic).(isCompleted := true))]
    ensures forall j :: 0 <= j < |progress| ==>
      && r[j].id == progress[j].id
      && StudentTopic(r[j]) == StudentTopic(progress[j])
      && r[j].doc.quizAttempts == progress[j].doc.quizAttempts
      && (Some(j) != FindPair(progress, student, topic) ==> r[j] == progress[j])
    ensures FindPair(progress, student, topic).Some? ==> r[FindPair(progress, student, topic).value].doc.isCompleted
  {
    match FindPair(progress, student, topic)
    case Some(i) => progress[i := Row(progress[i].id, progress[i].doc.(isCompleted := true))]
    case None => progress + [Row(newId, NewProgress(student, topic).(isCompleted := true))]
  }

  /** The table after `recordQuizAttempt`: `attempt` is pushed onto the pair's row, which is
      first created (not completed, no attempts) under `newId` if there is none. */
  function WithAttempt(progress: Table<Progress>, student: Id, topic: Id, attempt: QuizAttempt, newId: Id): (r: Table<Progress>)
    ensures FindPair(progress, student, topic).Some? ==> |r| == |progress|
    ensures FindPair(progress, student, topic).None? ==>
      r == progress + [Row(newId, NewProgress(student, topic).(quizAttempts := [attempt]))]
    ensures forall j :: 0 <= j < |progress| ==>
      && r[j].id == progress[j].id
      && StudentTopic(r[j]) == StudentTopic(progress[j])
      && r[j].doc.isCompleted == progress[j].doc.isCompleted
      && (Some(j) != FindPair(progress, student, topic) ==> r[j] == progress[j])
    ensures FindPair(progress, student, topic).Some? ==>
      var i := FindPair(progress, student, topic).value;
      r[i].doc.quizAttempts == progress[i].doc.quizAttempts + [attempt]
  {
    match FindPair(progress, student, topic)
    case Some(i) => progress[i := Row(progress[i].id, progress[i].doc.(quizAttempts := progress[i].doc.quizAttempts + [attempt]))]
    case None => progress + [Row(newId, NewProgress(student, topic).(quizAttempts := [attempt]))]
  }

  /** After marking, the pair's row exists and is completed, and its attempts are those it
      had before. */
  lemma MarkedCompleteEffect(progress: Table<Progress>, student: Id, topic: Id, newId: Id)
    ensures var r := MarkedComplete(progress, student, topic, newId);
      && FindPair(r, student, topic).Some?
      && CompletedOf(r, student, topic)
      && AttemptsOf(r, student, topic) == AttemptsOf(progress, student, topic)
  {
    var r := MarkedComplete(progress, student, topic, newId);
    match FindPair(progress, student, topic)
    case Some(i) => {
      assert FindPair(r, student, topic) == Some(i);
    }
    case None => {
      assert r[|progress|] == Row(newId, NewProgress(student, topic).(isCompleted := true));
      assert FindPair(r, student, topic) == Some(|progress|);
    }
  }

  /** Marking the same pair twice is marking it once. */
  lemma MarkedCompleteIdempotent(progress: Table<Progress>, student: Id, topic: Id, newId: Id, newId': Id)
    ensures var r := MarkedComplete(progress, student, topic, newId);
      MarkedComplete(r, student, topic, newId') == r
  {
    var r := MarkedComplete(progress, student, topic, newId);
    match FindPair(progress, student, topic)
    case Some(i) => {
      assert FindPair(r, student, topic) == Some(i);
    }
    case None => {
      assert r[|progress|] == Row(newId, NewProgress(student, topic).(isCompleted := true));
      assert FindPair(r, student, topic) == Some(|progress|);
    }
  }

  /** Recording an attempt appends exactly that attempt to the pair's attempts, and leaves
      whether the pair is completed as it was (a new row is not completed). */
  lemma WithAttemptEffect(progress: Table<Progress>, student: Id, topic: Id, attempt: QuizAttempt, newId: Id)
    ensures var r := WithAttempt(progress, student, topic, attempt, newId);
      && FindPair(r, student, topic).Some?
      && AttemptsOf(r, student, topic) == AttemptsOf(progress, student, topic) + [attempt]
      && CompletedOf(r, student, topic) == CompletedOf(progress, student, topic)
  {
    var r := WithAttempt(progress, student, topic, attempt, newId);
    match FindPair(progress, student, topic)
    case Some(i) => {
      assert FindPair(r, student, topic) == Some(i);
    }
    case None => {
      assert r[|progress|] == Row(newId, NewProgress(student, topic).(quizAttempts := [attempt]));
      assert FindPair(r, student, topic) == Some(|progress|);
    }
  }

  /** A rewrite that keeps every row's id and pair keeps the progress keys. */
  lemma SameKeysKeepUnique(progress: Table<Progress>, r: Table<Progress>, bound: Id)
    requires Keyed(progress, bound) && UniqueBy(progress, StudentTopic)
    requires |r| == |progress|
    requires forall j :: 0 <= j < |progress| ==> r[j].id == progress[j].id && StudentTopic(r[j]) == StudentTopic(progress[j])
    ensures Keyed(r, bound) && UniqueBy(r, StudentTopic)
  {
    ReshapedKeyed(progress, r, bound);
    ReshapedUnique(progress, r, StudentTopic);
  }

  /** A row added for a pair that has none, under an unused id, keeps the progress keys. */
  lemma NewPairKeepsUnique(progress: Table<Progress>, bound: Id, newId: Id, d: Progress, bound': Id)
    requires Keyed(progress, bound) && UniqueBy(progress, StudentTopic)
    requires bound <= newId < bound'
    requires forall row :: row in progress ==> StudentTopic(row) != (d.student, d.topic)
    ensures Keyed(progress + [Row(newId, d)], bound') && UniqueBy(progress + [Row(newId, d)], StudentTopic)
  {
    InsertKeyed(progress, bound, newId, d, bound');
    AppendKeepsUnique(progress, StudentTopic, Row(newId, d));
  }

  /** Marking a pair complete, with the allocator moved to `bound` past the id a new row
      takes, keeps the store's invariant. */
  lemma MarkedCompleteKeepsInv(s: Store, student: Id, topic: Id, newId: Id, bound: Id)
    requires Inv(s) && s.nextId <= bound
    requires FindPair(s.progress, student, topic).None? ==> s.nextId <= newId < bound
    ensures Inv(s.(progress := MarkedComplete(s.progress, student, topic, newId), nextId := bound))
  {
    var r := MarkedComplete(s.progress, student, topic, newId);
    if FindPair(s.progress, student, topic).Some? {
      SameKeysKeepUnique(s.progress, r, bound);
    } else {
      NewPairKeepsUnique(s.progress, s.nextId, newId, NewProgress(student, topic).(isCompleted := true), bound);
    }
  }

  /** Recording an attempt, with the allocator moved to `bound` past the id a new row takes,
      keeps the store's invariant. */
  lemma WithAttemptKeepsInv(s: Store, student: Id, topic: Id, attempt: QuizAttempt, newId: Id, bound: Id)
    requires Inv(s) && s.nextId <= bound
    requires FindPair(s.progress, student, topic).None? ==> s.nextId <= newId < bound
    ensures Inv(s.(progress := WithAttempt(s.progress, student, topic, attempt, newId), nextId := bound))
  {
    var r := WithAttempt(s.progress, student, topic, attempt, newId);
    if FindPair(s.progress, student, topic).Some? {
      SameKeysKeepUnique(s.progress, r, bound);
    } else {
      NewPairKeepsUnique(s.progress, s.nextId, newId, NewProgress(student, topic).(quizAttempts := [attempt]), bound);
    }
  }

  /** `markTopicComplete`: finds the row for (the path's student, or the caller; topic) and
      sets `isCompleted`, or creates the row completed. Always 200 with the row. */
  method MarkTopicComplete(db: Db, studentParam: Option<Id>, caller: Id, topic: Id) returns (status: Status, row: Row<Progress>)
    requires db.Valid()
    modifies db`progress, db`nextId
    ensures db.Valid()
    ensures status == OK
    ensures db.progress == MarkedComplete(old(db.progress), studentParam.UnwrapOr(caller), topic, row.id)
    ensures row in db.progress && StudentTopic(row) == (studentParam.UnwrapOr(caller), topic) && row.doc.isCompleted
    ensures FindPair(old(db.progress), studentParam.UnwrapOr(caller), topic).None? ==> row.id >= old(db.nextId)
  {
    var student := studentParam.UnwrapOr(caller);
    ghost var s := db.Contents();
    var found := FindPair(db.progress, student, topic);
    var id: Id;
    if found.Some? {
      id := db.progress[found.value].id;
    } else {
      id := db.NewId(0);
    }
    var updated := MarkedComplete(db.progress, student, topic, id);
    db.progress := updated;
    assert db.Contents() == s.(progress := updated, nextId := db.nextId);
    MarkedCompleteKeepsInv(s, student, topic, id, db.nextId);
    row := if found.Some? then updated[found.value] else updated[|updated| - 1];
    status := OK;
  }

  /** `recordQuizAttempt`: finds or creates the caller's row for `topic` and pushes the
      attempt, stamped with the clock reading `now`. Always 200 with the row. */
  method RecordQuizAttempt(db: Db, caller: Id, topic: Id, score: int, totalQuestions: int, answers: seq<int>, now: int)
    returns (status: Status, row: Row<Progress>)
    requires db.Valid()
    modifies db`progress, db`nextId
    ensures db.Valid()
    ensures status == OK
    ensures db.progress == WithAttempt(old(db.progress), caller, topic, QuizAttempt(score, totalQuestions, now, answers), row.id)
    ensures row in db.progress && StudentTopic(row) == (caller, topic)
    ensures row.doc.quizAttempts == AttemptsOf(old(db.progress), caller, topic) + [QuizAttempt(score, totalQuestions, now, answers)]
  {
    var attempt := QuizAttempt(score, totalQuestions, now, answers);
    ghost var s := db.Contents();
    var found := FindPair(db.progress, caller, topic);
    var id: Id;
    if found.Some? {
      id := db.progress[found.value].id;
    } else {
      id := db.NewId(0);
    }
    var updated := WithAttempt(db.progress, caller, topic, attempt, id);
    db.progress := updated;
    assert db.Contents() == s.(progress := updated, nextId := db.nextId);
    WithAttemptKeepsInv(s, caller, topic, attempt, id, db.nextId);
    row := if found.Some? then updated[found.value] else updated[|updated| - 1];
    status := OK;
  }

  // ---- Students --------------------------------------------------------------------

  /** `User.find({ role: 'student' }).select('-password')`. */
  function AllStudents(users: Table<User>): (r: Table<PublicUser>)
    ensures |r| <= |users|
    ensures forall v :: v in r <==> exists u :: Row(v.id, u) in users && u.role == Student && v.doc == WithoutPassword(u)
  {
    if users == [] then []
    else
      var rest := AllStudents(users[1..]);
      assert forall u :: u in users <==> u == users[0] || u in users[1..];
      if users[0].doc.role == Student then [Row(users[0].id, WithoutPassword(users[0].doc))] + rest else rest
  }

  /** `findByIdAndUpdate(id, { isBlocked: b })`. */
  function SetBlocked(users: Table<User>, id: Id, b: bool): (r: Table<User>)
    ensures |r| == |users|
    ensures forall i :: 0 <= i < |users| ==>
      r[i] == (if users[i].id == id then Row(id, users[i].doc.(isBlocked := b)) else users[i])
  {
    Update(users, id, (u: User) => u.(isBlocked := b))
  }

  /** Setting the flag twice is setting it once, and the last setting wins. */
  lemma SetBlockedLastWins(users: Table<User>, id: Id, a: bool, b: bool)
    ensures SetBlocked(SetBlocked(users, id, a), id, b) == SetBlocked(users, id, b)
  {
  }

  /** Rewriting users in place, every row keeping its id and email, keeps the invariant. */
  lemma UsersKeepInv(s: Store, users: Table<User>)
    requires Inv(s)
    requires |users| == |s.users| && forall i :: 0 <= i < |users| ==> users[i].id == s.users[i].id && users[i].doc.email == s.users[i].doc.email
    ensures Inv(s.(users := users))
  {
    ReshapedKeyed(s.users, users, s.nextId);
    ReshapedUnique(s.users, users, UserEmail);
  }

  /** Setting the flag keeps the store's invariant. */
  lemma SetBlockedKeepsInv(s: Store, id: Id, b: bool)
    requires Inv(s)
    ensures Inv(s.(users := SetBlocked(s.users, id, b)))
  {
    UsersKeepInv(s, SetBlocked(s.users, id, b));
  }

  /** `blockStudent` / `unblockStudent`: 404 with no change when no user has the id;
      otherwise that user's `isBlocked` becomes `b` (whatever its role) and the user comes
      back without its password. */
  method SetStudentBlocked(db: Db, id: Id, b: bool) returns (status: Status, student: Option<PublicUser>)
    requires db.Valid()
    modifies db`users
    ensures db.Valid()
    ensures status == NotFound <==> Lookup(old(db.users), id).None?
    ensures status != NotFound ==> status == OK
    ensures status == NotFound ==> db.users == old(db.users) && student.None?
    ensures status == OK ==> db.users == SetBlocked(old(db.users), id, b)
    ensures status == OK ==> student == Some(WithoutPassword(Lookup(old(db.users), id).value.(isBlocked := b)))
  {
    var found := Lookup(db.users, id);
    if found.None? {
      return NotFound, None;
    }
    ghost var s := db.Contents();
    var updated := SetBlocked(db.users, id, b);
    db.users := updated;
    assert db.Contents() == s.(users := updated);
    SetBlockedKeepsInv(s, id, b);
    status, student := OK, Some(WithoutPassword(found.value.(isBlocked := b)));
  }

  /** `blockStudent`. */
  method BlockStudent(db: Db, id: Id) returns (status: Status, student: Option<PublicUser>)
    requires db.Valid()
    modifies db`users
    ensures db.Valid()
    ensures status == NotFound <==> Lookup(old(db.users), id).None?
    ensures status == NotFound ==> db.users == old(db.users)
    ensures status != NotFound ==> status == OK && db.users == SetBlocked(old(db.users), id, true)
    ensures status == NotFound ==> student.None?
    ensures status == OK ==> student == Some(WithoutPassword(Lookup(old(db.users), id).value.(isBlocked := true)))
  {
    status, student := SetStudentBlocked(db, id, true);
  }

  /** `unblockStudent`. */
  method UnblockStudent(db: Db, id: Id) returns (status: Status, student: Option<PublicUser>)
    requires db.Valid()
    modifies db`users
    ensures db.Valid()
    ensures status == NotFound <==> Lookup(old(db.users), id).None?
    ensures status == NotFound ==> db.users == old(db.users)
    ensures status != NotFound ==> status == OK && db.users == SetBlocked(old(db.users), id, false)
    ensures status == NotFound ==> student.None?
    ensures status == OK ==> student == Some(WithoutPassword(Lookup(old(db.users), id).value.(isBlocked := false)))
  {
    status, student := SetStudentBlocked(db, id, false);
  }

  /** `Progress.deleteMany({ student })`. */
  function DropStudentRows(progress: Table<Progress>, student: Id): (r: Table<Progress>)
    ensures forall row :: row in r <==> row in progress && row.doc.student != student
  {
    Where(progress, (row: Row<Progress>) => row.doc.student != student)
  }

  /** After the cascade the deleted student has no rows, and every other student's rows are
      exactly what they were, in the same order. */
  lemma DropStudentRowsEffect(progress: Table<Progress>, student: Id, other: Id)
    requires other != student
    ensures StudentRows(DropStudentRows(progress, student), student) == []
    ensures StudentRows(DropStudentRows(progress, student), other) == StudentRows(progress, other)
  {
    WhereNone(DropStudentRows(progress, student), (row: Row<Progress>) => row.doc.student == student);
    WhereOfWhere(progress,
      (row: Row<Progress>) => row.doc.student != student,
      (row: Row<Progress>) => row.doc.student == other,
      (row: Row<Progress>) => row.doc.student == other);
  }

  lemma DeleteStudentKeepsInv(s: Store, id: Id)
    requires Inv(s)
    ensures Inv(s.(users := Remove(s.users, id), progress := DropStudentRows(s.progress, id)))
  {
    WhereKeyed(s.users, (r: Row<User>) => r.id != id, s.nextId);
    WhereKeepsUnique(s.users, (r: Row<User>) => r.id != id, UserEmail);
    WhereKeyed(s.progress, (row: Row<Progress>) => row.doc.student != id, s.nextId);
    WhereKeepsUnique(s.progress, (row: Row<Progress>) => row.doc.student != id, StudentTopic);
  }

  /** `deleteStudent`: removes the user with the id (whatever its role) and every progress
      row of that id; an unknown id is not an error. Always 200. */
  method DeleteStudent(db: Db, id: Id) returns (status: Status)
    requires db.Valid()
    modifies db`users, db`progress
    ensures db.Valid()
    ensures status == OK
    ensures db.users == Remove(old(db.users), id)
    ensures db.progress == DropStudentRows(old(db.progress), id)
  {
    ghost var s := db.Contents();
    db.users := Remove(db.users, id);
    db.progress := DropStudentRows(db.progress, id);
    assert db.Contents() == s.(users := db.users, progress := db.progress);
    DeleteStudentKeepsInv(s, id);
    status := OK;
  }

  /** `findByIdAndUpdate(caller, { targetExam })`: an undefined exam id leaves the field. */
  function SetTargetExam(users: Table<User>, id: Id, exam: Option<Id>): (r: Table<User>)
    ensures |r| == |users|
    ensures forall i :: 0 <= i < |users| ==>
      r[i] == (if users[i].id == id && exam.Some? then Row(id, users[i].doc.(targetExam := exam)) else users[i])
  {
    if exam.None? then users else Update(users, id, (u: User) => u.(targetExam := exam))
  }

  /** Setting a target exam keeps the store's invariant. */
  lemma SetTargetExamKeepsInv(s: Store, id: Id, exam: Option<Id>)
    requires Inv(s)
    ensures Inv(s.(users := SetTargetExam(s.users, id, exam)))
  {
    UsersKeepInv(s, SetTargetExam(s.users, id, exam));
  }

  /** `updateTargetExam`: sets the caller's target exam to the given id, without checking
      that such an exam exists; always 200, with the caller's user (none when the caller's
      id names no user). */
  method UpdateTargetExam(db: Db, caller: Id, exam: Option<Id>) returns (status: Status, student: Option<User>)
    requires db.Valid()
    modifies db`users
    ensures db.Valid()
    ensures status == OK
    ensures db.users == SetTargetExam(old(db.users), caller, exam)
    ensures student == Lookup(db.users, caller)
    ensures student.Some? && exam.Some? ==> student.value.targetExam == exam
  {
    ghost var s := db.Contents();
    var updated := SetTargetExam(db.users, caller, exam);
    db.users := updated;
    assert db.Contents() == s.(users := updated);
    SetTargetExamKeepsInv(s, caller, exam);
    student := Lookup(db.users, caller);
    if student.Some? && exam.Some? {
      var i :| 0 <= i < |updated| && updated[i] == Row(caller, student.value);
    }
    status := OK;
  }
}
