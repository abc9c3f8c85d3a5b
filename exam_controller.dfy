/** The curriculum handlers (`examController.js`): exams, their subjects and the subjects'
    topics. Creating a subject or topic pushes its id onto the parent's array, deleting it
    pulls the id back out; nothing cascades. Listings select on the child's own reference. */
module ExamController {
  import opened Wrappers
  import opened Table
  import opened Links
  import opened Models
  import opened Database

  // ---- Parent-array updates ------------------------------------------------------

  /** `Exam.findByIdAndUpdate(examId, { $push: { subjects: subjectId } })`. */
  function AddSubjectTo(exams: Table<Exam>, examId: Id, subjectId: Id): (r: Table<Exam>)
    ensures |r| == |exams|
    ensures forall i :: 0 <= i < |exams| ==>
      && r[i].id == exams[i].id
      && r[i].doc == (if exams[i].id == examId then exams[i].doc.(subjects := exams[i].doc.subjects + [subjectId]) else exams[i].doc)
  {
    Update(exams, examId, (e: Exam) => e.(subjects := e.subjects + [subjectId]))
  }

  /** `Exam.findByIdAndUpdate(examId, { $pull: { subjects: subjectId } })`. */
  function DropSubjectFrom(exams: Table<Exam>, examId: Id, subjectId: Id): (r: Table<Exam>)
    ensures |r| == |exams|
    ensures forall i :: 0 <= i < |exams| ==>
      && r[i].id == exams[i].id
      && r[i].doc == (if exams[i].id == examId then exams[i].doc.(subjects := Pull(exams[i].doc.subjects, subjectId)) else exams[i].doc)
  {
    Update(exams, examId, (e: Exam) => e.(subjects := Pull(e.subjects, subjectId)))
  }

  /** `Subject.findByIdAndUpdate(subjectId, { $push: { topics: topicId } })`. */
  function AddTopicTo(subjects: Table<Subject>, subjectId: Id, topicId: Id): (r: Table<Subject>)
    ensures |r| == |subjects|
    ensures forall i :: 0 <= i < |subjects| ==>
      && r[i].id == subjects[i].id
      && r[i].doc == (if subjects[i].id == subjectId then subjects[i].doc.(topics := subjects[i].doc.topics + [topicId]) else subjects[i].doc)
  {
    Update(subjects, subjectId, (s: Subject) => s.(topics := s.topics + [topicId]))
  }

  /** `Subject.findByIdAndUpdate(subjectId, { $pull: { topics: topicId } })`. */
  function DropTopicFrom(subjects: Table<Subject>, subjectId: Id, topicId: Id): (r: Table<Subject>)
    ensures |r| == |subjects|
    ensures forall i :: 0 <= i < |subjects| ==>
      && r[i].id == subjects[i].id
      && r[i].doc == (if subjects[i].id == subjectId then subjects[i].doc.(topics := Pull(subjects[i].doc.topics, topicId)) else subjects[i].doc)
  {
    Update(subjects, subjectId, (s: Subject) => s.(topics := Pull(s.topics, topicId)))
  }

  /** Pulling a subject id that was just pushed, and that no exam listed before, gives
      back the exams unchanged. */
  lemma DropSubjectUndoesAdd(exams: Table<Exam>, examId: Id, subjectId: Id)
    requires forall r :: r in exams ==> subjectId !in r.doc.subjects
    ensures DropSubjectFrom(AddSubjectTo(exams, examId, subjectId), examId, subjectId) == exams
  {
    var back := DropSubjectFrom(AddSubjectTo(exams, examId, subjectId), examId, subjectId);
    forall i | 0 <= i < |exams| ensures back[i] == exams[i] {
      if exams[i].id == examId {
        assert exams[i] in exams;
        PullUndoesPush(exams[i].doc.subjects, subjectId);
      }
    }
  }

  /** Pulling a topic id that was just pushed, and that no subject listed before, gives
      back the subjects unchanged. */
  lemma DropTopicUndoesAdd(subjects: Table<Subject>, subjectId: Id, topicId: Id)
    requires forall r :: r in subjects ==> topicId !in r.doc.topics
    ensures DropTopicFrom(AddTopicTo(subjects, subjectId, topicId), subjectId, topicId) == subjects
  {
    var back := DropTopicFrom(AddTopicTo(subjects, subjectId, topicId), subjectId, topicId);
    forall i | 0 <= i < |subjects| ensures back[i] == subjects[i] {
      if subjects[i].id == subjectId {
        assert subjects[i] in subjects;
        PullUndoesPush(subjects[i].doc.topics, topicId);
      }
    }
  }

  // ---- Exams -----------------------------------------------------------------------

  /** `getExamById`: the exam stored under `id`, or 404. */
  function ExamById(exams: Table<Exam>, id: Id): (r: Reply<Exam>)
    ensures r.status == OK || r.status == NotFound
    ensures r.status == NotFound <==> forall e :: e in exams ==> e.id != id
    ensures r.status == NotFound ==> r.body.None?
    ensures r.status == OK ==> r.body.Some? && Row(id, r.body.value) in exams
  {
    match Lookup(exams, id)
    case None => Reply(NotFound, None)
    case Some(e) => Reply(OK, Some(e))
  }

  /** No exam other than `id` (if given) is called `name`. */
  ghost predicate NameFree(exams: Table<Exam>, name: string, id: Option<Id>)
  {
    forall r :: r in exams && Some(r.id) != id ==> r.doc.name != name
  }

  /** The unique-index check: some exam other than `id` is called `name`. */
  function NameTaken(exams: Table<Exam>, name: string, id: Option<Id>): (r: bool)
    ensures r <==> !NameFree(exams, name, id)
  {
    if exams == [] then false
    else (exams[0].doc.name == name && Some(exams[0].id) != id) || NameTaken(exams[1..], name, id)
  }

  /** Inserting an exam under a fresh id, with a name no exam has and no subjects, keeps
      the store's invariant. */
  lemma InsertExamKeepsInv(s: Store, n: Id, e: Exam)
    requires Inv(s) && s.nextId <= n
    requires e.subjects == [] && NameFree(s.exams, e.name, None)
    ensures Inv(s.(exams := s.exams + [Row(n, e)], nextId := n + 1))
  {
    InsertKeyed(s.exams, s.nextId, n, e, n + 1);
    AppendKeepsUnique(s.exams, ExamName, Row(n, e));
    AddParent(s.exams, ExamSubjects, s.subjects, SubjectExam, n, e);
  }

  /** `createExam`: saving checks that a name is given and that no exam already has it
      (the unique index); either failure answers 500 with no change. Otherwise a new exam
      with no subjects is inserted under a fresh id. */
  method CreateExam(db: Db, name: string, description: Option<string>) returns (status: Status, id: Option<Id>)
    requires db.Valid()
    modifies db`exams, db`nextId
    ensures db.Valid()
    ensures status == ServerError <==> !Present(name) || !NameFree(old(db.exams), name, None)
    ensures status == ServerError ==> id.None? && db.exams == old(db.exams) && db.nextId == old(db.nextId)
    ensures status != ServerError ==> status == Created && id.Some? && id.value >= old(db.nextId)
    ensures status != ServerError ==> db.exams == old(db.exams) + [Row(id.value, NewExam(name, description))]
  {
    if !Present(name) || NameTaken(db.exams, name, None) {
      return ServerError, None;
    }
    ghost var s := db.Contents();
    // an exam references nothing, so any fresh id will do
    var n := db.NewId(0);
    var exam := NewExam(name, description);
    db.exams := db.exams + [Row(n, exam)];
    assert db.Contents() == s.(exams := db.exams, nextId := n + 1);
    InsertExamKeepsInv(s, n, exam);
    status, id := Created, Some(n);
  }

  /** The exam after `findByIdAndUpdate(id, { name, description })`: a key left undefined
      keeps its field, and `subjects` is never touched. */
  function EditedExam(e: Exam, name: Option<string>, description: Option<string>): Exam
  {
    Exam(name.UnwrapOr(e.name), if description.Some? then description else e.description, e.subjects)
  }

  function EditExam(exams: Table<Exam>, id: Id, name: Option<string>, description: Option<string>): (r: Table<Exam>)
    ensures |r| == |exams|
    ensures forall i :: 0 <= i < |exams| ==>
      r[i] == (if exams[i].id == id then Row(id, EditedExam(exams[i].doc, name, description)) else exams[i])
  {
    Update(exams, id, (e: Exam) => EditedExam(e, name, description))
  }

  /** Editing an exam keeps the invariant when the new name (if any) belongs to no other
      exam. */
  lemma EditExamKeepsInv(s: Store, id: Id, name: Option<string>, description: Option<string>)
    requires Inv(s)
    requires name.Some? ==> NameFree(s.exams, name.value, Some(id))
    ensures Inv(s.(exams := EditExam(s.exams, id, name, description)))
  {
    var exams' := EditExam(s.exams, id, name, description);
    ReshapedKeyed(s.exams, exams', s.nextId);
    forall i, j | 0 <= i < j < |exams'| ensures ExamName(exams'[i]) != ExamName(exams'[j]) {
      assert s.exams[i].id != s.exams[j].id;
      assert ExamName(s.exams[i]) != ExamName(s.exams[j]);
      assert s.exams[i] in s.exams && s.exams[j] in s.exams;
    }
    ParentsReshaped(s.exams, exams', ExamSubjects, s.subjects, SubjectExam);
  }

  /** `updateExam`: 404 with no change when there is no such exam; 500 with no change when
      the new name belongs to another exam (the unique index). Otherwise the given fields
      are replaced, nothing is validated, and the subjects stay as they were. */
  method UpdateExam(db: Db, id: Id, name: Option<string>, description: Option<string>) returns (status: Status)
    requires db.Valid()
    modifies db`exams
    ensures db.Valid()
    ensures status == NotFound <==> !HasId(old(db.exams), id)
    ensures status == ServerError <==>
      && HasId(old(db.exams), id) && name.Some?
      && !NameFree(old(db.exams), name.value, Some(id))
    ensures status == OK || status == NotFound || status == ServerError
    ensures status != OK ==> db.exams == old(db.exams)
    ensures status == OK ==> db.exams == EditExam(old(db.exams), id, name, description)
  {
    if !HasId(db.exams, id) {
      return NotFound;
    }
    if name.Some? {
      if NameTaken(db.exams, name.value, Some(id)) {
        return ServerError;
      }
    }
    ghost var s := db.Contents();
    var edited := EditExam(db.exams, id, name, description);
    db.exams := edited;
    assert db.Contents() == s.(exams := edited);
    EditExamKeepsInv(s, id, name, description);
    status := OK;
  }

  /** Removing an exam row alone keeps the invariant: the exam's subjects stay, naming an
      exam that no longer exists. */
  lemma RemoveExamKeepsInv(s: Store, id: Id)
    requires Inv(s)
    ensures Inv(s.(exams := Remove(s.exams, id)))
  {
    WhereKeyed(s.exams, (r: Row<Exam>) => r.id != id, s.nextId);
    WhereKeepsUnique(s.exams, (r: Row<Exam>) => r.id != id, ExamName);
    RemoveParent(s.exams, ExamSubjects, s.subjects, SubjectExam, id);
  }

  /** `deleteExam`: 404 with no change when there is no such exam; otherwise only the exam
      row is removed: its subjects (and their topics) are not. */
  method DeleteExam(db: Db, id: Id) returns (status: Status)
    requires db.Valid()
    modifies db`exams
    ensures db.Valid()
    ensures status == NotFound <==> !HasId(old(db.exams), id)
    ensures status != NotFound ==> status == OK
    ensures status == NotFound ==> db.exams == old(db.exams)
    ensures status == OK ==> db.exams == Remove(old(db.exams), id)
    ensures db.subjects == old(db.subjects) && db.topics == old(db.topics)
  {
    if !HasId(db.exams, id) {
      return NotFound;
    }
    ghost var s := db.Contents();
    var remaining := Remove(db.exams, id);
    db.exams := remaining;
    assert db.Contents() == s.(exams := remaining);
    RemoveExamKeepsInv(s, id);
    status := OK;
  }

  // ---- Subjects ------------------------------------------------------------------

  /** `getSubjectsByExam`: the subjects whose own `exam` reference is `examId`, in order. */
  function SubjectsByExam(subjects: Table<Subject>, examId: Id): (r: Table<Subject>)
    ensures forall row :: row in r <==> row in subjects && row.doc.exam == examId
  {
    Where(subjects, (row: Row<Subject>) => row.doc.exam == examId)
  }

  /** In a consistent store the listing by reference and the exam's own array name the
      same subjects. */
  lemma SubjectsListedByArray(s: Store, exam: Row<Exam>)
    requires Inv(s) && exam in s.exams
    ensures forall x :: x in exam.doc.subjects <==> exists r :: r in SubjectsByExam(s.subjects, exam.id) && r.id == x
  {
    forall x | x in exam.doc.subjects ensures exists r :: r in SubjectsByExam(s.subjects, exam.id) && r.id == x {
      assert ChildOf(s.subjects, SubjectExam, x, exam.id);
      var d :| Row(x, d) in s.subjects && SubjectExam(d) == exam.id;
      assert Row(x, d) in SubjectsByExam(s.subjects, exam.id);
    }
  }

  /** Inserting a subject under a fresh id above its exam reference, and pushing that id
      onto its exam's `subjects`, keeps the invariant. */
  lemma InsertSubjectKeepsInv(s: Store, n: Id, sub: Subject)
    requires Inv(s) && s.nextId <= n && sub.exam < n && sub.topics == []
    ensures Inv(s.(subjects := s.subjects + [Row(n, sub)], exams := AddSubjectTo(s.exams, sub.exam, n), nextId := n + 1))
  {
    var exams' := AddSubjectTo(s.exams, sub.exam, n);
    InsertKeyed(s.subjects, s.nextId, n, sub, n + 1);
    ReshapedKeyed(s.exams, exams', n + 1);
    ReshapedUnique(s.exams, exams', ExamName);
    AddChild(s.exams, exams', ExamSubjects, s.subjects, SubjectExam, n, sub);
    AddParent(s.subjects, SubjectTopics, s.topics, TopicSubject, n, sub);
  }

  /** `createSubject`: saving requires a name and an exam reference (failures answer 500
      with no change). Otherwise the subject is inserted under a fresh id and that id is
      appended to the end of its exam's `subjects`; no other exam changes, and a subject
      naming no existing exam is still created. */
  method CreateSubject(db: Db, name: string, exam: Option<Id>) returns (status: Status, id: Option<Id>)
    requires db.Valid()
    modifies db`subjects, db`exams, db`nextId
    ensures db.Valid()
    ensures status == ServerError <==> !Present(name) || exam.None?
    ensures status == ServerError ==> id.None? && db.subjects == old(db.subjects) && db.exams == old(db.exams)
    ensures status == ServerError ==> db.nextId == old(db.nextId)
    ensures status != ServerError ==> status == Created && id.Some? && id.value >= old(db.nextId)
    ensures status != ServerError ==>
      && db.subjects == old(db.subjects) + [Row(id.value, Subject(name, exam.value, []))]
      && db.exams == AddSubjectTo(old(db.exams), exam.value, id.value)
  {
    if !Present(name) || exam.None? {
      return ServerError, None;
    }
    ghost var s := db.Contents();
    var n := db.NewId(exam.value);
    var sub := Subject(name, exam.value, []);
    db.subjects := db.subjects + [Row(n, sub)];
    db.exams := AddSubjectTo(db.exams, exam.value, n);
    assert db.Contents() == s.(subjects := db.subjects, exams := db.exams, nextId := n + 1);
    InsertSubjectKeepsInv(s, n, sub);
    status, id := Created, Some(n);
  }

  /** `findByIdAndUpdate(id, { name })` on subjects: only the name changes, when given. */
  function RenameSubject(subjects: Table<Subject>, id: Id, name: Option<string>): (r: Table<Subject>)
    ensures |r| == |subjects|
    ensures forall i :: 0 <= i < |subjects| ==>
      r[i] == (if subjects[i].id == id then Row(id, subjects[i].doc.(name := name.UnwrapOr(subjects[i].doc.name))) else subjects[i])
  {
    Update(subjects, id, (d: Subject) => d.(name := name.UnwrapOr(d.name)))
  }

  lemma RenameSubjectKeepsInv(s: Store, id: Id, name: Option<string>)
    requires Inv(s)
    ensures Inv(s.(subjects := RenameSubject(s.subjects, id, name)))
  {
    var subjects' := RenameSubject(s.subjects, id, name);
    ReshapedKeyed(s.subjects, subjects', s.nextId);
    ChildrenReshaped(s.exams, ExamSubjects, s.subjects, subjects', SubjectExam, s.nextId);
    ParentsReshaped(s.subjects, subjects', SubjectTopics, s.topics, TopicSubject);
  }

  /** `updateSubject`: 404 with no change when there is no such subject; otherwise only
      its name is replaced (when given), without validation. */
  method UpdateSubject(db: Db, id: Id, name: Option<string>) returns (status: Status)
    requires db.Valid()
    modifies db`subjects
    ensures db.Valid()
    ensures status == NotFound <==> !HasId(old(db.subjects), id)
    ensures status != NotFound ==> status == OK
    ensures status == NotFound ==> db.subjects == old(db.subjects)
    ensures status == OK ==> db.subjects == RenameSubject(old(db.subjects), id, name)
  {
    if !HasId(db.subjects, id) {
      return NotFound;
    }
    ghost var s := db.Contents();
    var renamed := RenameSubject(db.subjects, id, name);
    db.subjects := renamed;
    assert db.Contents() == s.(subjects := renamed);
    RenameSubjectKeepsInv(s, id, name);
    status := OK;
  }

  /** Removing a subject and pulling its id from its exam's `subjects` keeps the
      invariant; its topics stay, naming a subject that no longer exists. */
  lemma RemoveSubjectKeepsInv(s: Store, id: Id, sub: Subject)
    requires Inv(s) && Row(id, sub) in s.subjects
    ensures Inv(s.(subjects := Remove(s.subjects, id), exams := DropSubjectFrom(s.exams, sub.exam, id)))
  {
    var exams' := DropSubjectFrom(s.exams, sub.exam, id);
    WhereKeyed(s.subjects, (r: Row<Subject>) => r.id != id, s.nextId);
    ReshapedKeyed(s.exams, exams', s.nextId);
    ReshapedUnique(s.exams, exams', ExamName);
    RemoveChild(s.exams, exams', ExamSubjects, s.subjects, SubjectExam, id, sub);
    RemoveParent(s.subjects, SubjectTopics, s.topics, TopicSubject, id);
    assert RefsBelow(Remove(s.subjects, id), SubjectExam, s.nextId);
  }

  /** `deleteSubject`: 404 with no change when there is no such subject; otherwise the
      subject is removed and its id pulled from its exam's `subjects`; its topics stay. */
  method DeleteSubject(db: Db, id: Id) returns (status: Status)
    requires db.Valid()
    modifies db`subjects, db`exams
    ensures db.Valid()
    ensures status == NotFound <==> Lookup(old(db.subjects), id).None?
    ensures status != NotFound ==> status == OK
    ensures status == NotFound ==> db.subjects == old(db.subjects) && db.exams == old(db.exams)
    ensures status == OK ==>
      && db.subjects == Remove(old(db.subjects), id)
      && db.exams == DropSubjectFrom(old(db.exams), Lookup(old(db.subjects), id).value.exam, id)
    ensures db.topics == old(db.topics)
  {
    var found := Lookup(db.subjects, id);
    if found.None? {
      return NotFound;
    }
    var sub := found.value;
    ghost var s := db.Contents();
    db.subjects := Remove(db.subjects, id);
    db.exams := DropSubjectFrom(db.exams, sub.exam, id);
    assert db.Contents() == s.(subjects := db.subjects, exams := db.exams);
    RemoveSubjectKeepsInv(s, id, sub);
    status := OK;
  }

  /** Creating a subject and then deleting it restores the subjects and every exam's
      `subjects` array, because the new id was fresh. */
  method CreateThenDeleteSubject(db: Db, name: string, exam: Id)
    requires db.Valid() && Present(name)
    modifies db`subjects, db`exams, db`nextId
    ensures db.Valid()
    ensures db.subjects == old(db.subjects) && db.exams == old(db.exams)
  {
    ghost var s := db.Contents();
    var created, id := CreateSubject(db, name, Some(exam));
    var n := id.value;
    var sub := Subject(name, exam, []);
    FreshUnlisted(s.exams, ExamSubjects, s.subjects, SubjectExam, n);
    LookupAppended(s.subjects, n, sub);
    var deleted := DeleteSubject(db, n);
    RemoveAppended(s.subjects, n, sub);
    DropSubjectUndoesAdd(s.exams, exam, n);
  }

  // ---- Topics --------------------------------------------------------------------

  /** `getTopicsBySubject`: the topics whose own `subject` reference is `subjectId`, in order. */
  function TopicsBySubject(topics: Table<Topic>, subjectId: Id): (r: Table<Topic>)
    ensures forall row :: row in r <==> row in topics && row.doc.subject == subjectId
  {
    Where(topics, (row: Row<Topic>) => row.doc.subject == subjectId)
  }

  /** The `$in: ['High', 'Medium']` test on a stored priority string. */
  predicate HighOrMedium(priority: string)
  {
    priority == PriorityName(High) || priority == PriorityName(Medium)
  }

  /** `getHighMediumTopics`: one scan selecting on the subject reference and the priority. */
  function HighMediumTopics(topics: Table<Topic>, subjectId: Id): (r: Table<Topic>)
    ensures forall row :: row in r <==> row in topics && row.doc.subject == subjectId && HighOrMedium(row.doc.priority)
  {
    Where(topics, (row: Row<Topic>) => row.doc.subject == subjectId && HighOrMedium(row.doc.priority))
  }

  /** The High/Medium listing is exactly the subject's listing with the Low (and any other)
      priorities filtered out, in the same order; so it is a subset of it. */
  lemma HighMediumFiltersListing(topics: Table<Topic>, subjectId: Id)
    ensures HighMediumTopics(topics, subjectId)
      == Where(TopicsBySubject(topics, subjectId), (row: Row<Topic>) => HighOrMedium(row.doc.priority))
    ensures forall row :: row in HighMediumTopics(topics, subjectId) ==> row in TopicsBySubject(topics, subjectId)
    ensures |HighMediumTopics(topics, subjectId)| <= |TopicsBySubject(topics, subjectId)|
  {
    WhereOfWhere(topics,
      (row: Row<Topic>) => row.doc.subject == subjectId,
      (row: Row<Topic>) => HighOrMedium(row.doc.priority),
      (row: Row<Topic>) => row.doc.subject == subjectId && HighOrMedium(row.doc.priority));
  }

  /** In a consistent store the listing by reference and the subject's own array name the
      same topics. */
  lemma TopicsListedByArray(s: Store, subject: Row<Subject>)
    requires Inv(s) && subject in s.subjects
    ensures forall x :: x in subject.doc.topics <==> exists r :: r in TopicsBySubject(s.topics, subject.id) && r.id == x
  {
    forall x | x in subject.doc.topics ensures exists r :: r in TopicsBySubject(s.topics, subject.id) && r.id == x {
      assert ChildOf(s.topics, TopicSubject, x, subject.id);
      var d :| Row(x, d) in s.topics && TopicSubject(d) == subject.id;
      assert Row(x, d) in TopicsBySubject(s.topics, subject.id);
    }
  }

  /** Inserting a topic under a fresh id above its subject reference, and pushing that id
      onto its subject's `topics`, keeps the invariant. */
  lemma InsertTopicKeepsInv(s: Store, n: Id, t: Topic)
    requires Inv(s) && s.nextId <= n && t.subject < n && t.quizzes == []
    ensures Inv(s.(topics := s.topics + [Row(n, t)], subjects := AddTopicTo(s.subjects, t.subject, n), nextId := n + 1))
  {
    var s' := s.(topics := s.topics + [Row(n, t)], subjects := AddTopicTo(s.subjects, t.subject, n), nextId := n + 1);
    InsertTopicKeys(s, n, t);
    InsertTopicLinks(s, n, t);
    assert RefsInv(s');
  }

  lemma InsertTopicKeys(s: Store, n: Id, t: Topic)
    requires KeysInv(s) && s.nextId <= n
    ensures KeysInv(s.(topics := s.topics + [Row(n, t)], subjects := AddTopicTo(s.subjects, t.subject, n), nextId := n + 1))
  {
    InsertKeyed(s.topics, s.nextId, n, t, n + 1);
    ReshapedKeyed(s.subjects, AddTopicTo(s.subjects, t.subject, n), n + 1);
  }

  lemma InsertTopicLinks(s: Store, n: Id, t: Topic)
    requires LinksInv(s) && RefsInv(s) && IdsBelow(s.topics, n) && s.nextId <= n && t.quizzes == []
    ensures LinksInv(s.(topics := s.topics + [Row(n, t)], subjects := AddTopicTo(s.subjects, t.subject, n), nextId := n + 1))
  {
    var subjects' := AddTopicTo(s.subjects, t.subject, n);
    AddChild(s.subjects, subjects', SubjectTopics, s.topics, TopicSubject, n, t);
    ChildrenReshaped(s.exams, ExamSubjects, s.subjects, subjects', SubjectExam, n + 1);
    AddParent(s.topics, TopicQuizzes, s.quizzes, QuizTopic, n, t);
  }

  /** `createTopic`: saving requires a name and a subject reference, and a given priority
      must be High, Medium or Low (failures answer 500 with no change); an omitted priority
      is Medium. Otherwise the topic is inserted under a fresh id and that id is appended to
      the end of its subject's `topics`. */
  method CreateTopic(db: Db, name: string, subject: Option<Id>, priority: Option<string>, studyMaterial: Option<string>)
    returns (status: Status, id: Option<Id>)
    requires db.Valid()
    modifies db`topics, db`subjects, db`nextId
    ensures db.Valid()
    ensures status == ServerError <==>
      !Present(name) || subject.None? || (priority.Some? && ParsePriority(priority.value).None?)
    ensures status == ServerError ==> id.None? && db.topics == old(db.topics) && db.subjects == old(db.subjects)
    ensures status == ServerError ==> db.nextId == old(db.nextId)
    ensures status != ServerError ==> status == Created && id.Some? && id.value >= old(db.nextId)
    ensures status != ServerError ==>
      && db.topics == old(db.topics) + [Row(id.value, NewTopic(name, subject.value, priority, studyMaterial))]
      && ValidTopic(NewTopic(name, subject.value, priority, studyMaterial))
      && db.subjects == AddTopicTo(old(db.subjects), subject.value, id.value)
  {
    if subject.None? {
      return ServerError, None;
    }
    var topic := NewTopic(name, subject.value, priority, studyMaterial);
    if !ValidTopic(topic) {
      return ServerError, None;
    }
    ghost var s := db.Contents();
    var n := db.NewId(subject.value);
    db.topics := db.topics + [Row(n, topic)];
    db.subjects := AddTopicTo(db.subjects, subject.value, n);
    assert db.Contents() == s.(topics := db.topics, subjects := db.subjects, nextId := n + 1);
    InsertTopicKeepsInv(s, n, topic);
    status, id := Created, Some(n);
  }

  /** The topic after `findByIdAndUpdate(id, { name, priority, studyMaterial })`: a key left
      undefined keeps its field, and `subject` and `quizzes` are never touched. */
  function EditedTopic(t: Topic, name: Option<string>, priority: Option<string>, studyMaterial: Option<string>): Topic
  {
    Topic(name.UnwrapOr(t.name), t.subject, priority.UnwrapOr(t.priority),
      if studyMaterial.Some? then studyMaterial else t.studyMaterial, t.quizzes)
  }

  function EditTopic(topics: Table<Topic>, id: Id, name: Option<string>, priority: Option<string>, studyMaterial: Option<string>)
    : (r: Table<Topic>)
    ensures |r| == |topics|
    ensures forall i :: 0 <= i < |topics| ==>
      r[i] == (if topics[i].id == id then Row(id, EditedTopic(topics[i].doc, name, priority, studyMaterial)) else topics[i])
  {
    Update(topics, id, (t: Topic) => EditedTopic(t, name, priority, studyMaterial))
  }

  lemma EditTopicKeepsInv(s: Store, id: Id, name: Option<string>, priority: Option<string>, studyMaterial: Option<string>)
    requires Inv(s)
    ensures Inv(s.(topics := EditTopic(s.topics, id, name, priority, studyMaterial)))
  {
    var topics' := EditTopic(s.topics, id, name, priority, studyMaterial);
    ReshapedKeyed(s.topics, topics', s.nextId);
    ChildrenReshaped(s.subjects, SubjectTopics, s.topics, topics', TopicSubject, s.nextId);
    ParentsReshaped(s.topics, topics', TopicQuizzes, s.quizzes, QuizTopic);
  }

  /** `updateTopic` as written: 404 with no change when there is no such topic; otherwise
      the given fields are replaced with no validation, so any priority string is stored. */
  method UpdateTopic(db: Db, id: Id, name: Option<string>, priority: Option<string>, studyMaterial: Option<string>)
    returns (status: Status)
    requires db.Valid()
    modifies db`topics
    ensures db.Valid()
    ensures status == NotFound <==> !HasId(old(db.topics), id)
    ensures status != NotFound ==> status == OK
    ensures status == NotFound ==> db.topics == old(db.topics)
    ensures status == OK ==> db.topics == EditTopic(old(db.topics), id, name, priority, studyMaterial)
  {
    if !HasId(db.topics, id) {
      return NotFound;
    }
    ghost var s := db.Contents();
    var edited := EditTopic(db.topics, id, name, priority, studyMaterial);
    db.topics := edited;
    assert db.Contents() == s.(topics := edited);
    EditTopicKeepsInv(s, id, name, priority, studyMaterial);
    status := OK;
  }

  /** Every stored priority is one of the schema's enum values. */
  ghost predicate PrioritiesInEnum(topics: Table<Topic>)
  {
    forall r :: r in topics ==> ParsePriority(r.doc.priority).Some?
  }

  /** The update path lets a priority outside the enum into the store: editing a High topic
      with priority "Urgent" stores "Urgent". */
  lemma EditTopicEscapesEnum()
    ensures PrioritiesInEnum([Row(1, Topic("Limits", 0, "High", None, []))])
    ensures !PrioritiesInEnum(EditTopic([Row(1, Topic("Limits", 0, "High", None, []))], 1, None, Some("Urgent"), None))
  {
    var edited := EditTopic([Row(1, Topic("Limits", 0, "High", None, []))], 1, None, Some("Urgent"), None);
    assert edited[0].doc.priority == "Urgent";
    assert edited[0] in edited;
  }

  /** An edit that stores no priority outside the enum keeps every stored priority in it. */
  lemma CheckedEditKeepsEnum(topics: Table<Topic>, id: Id, name: Option<string>, priority: Option<string>, studyMaterial: Option<string>)
    requires PrioritiesInEnum(topics)
    requires priority.Some? ==> ParsePriority(priority.value).Some?
    ensures PrioritiesInEnum(EditTopic(topics, id, name, priority, studyMaterial))
  {
    var topics' := EditTopic(topics, id, name, priority, studyMaterial);
    forall r | r in topics' ensures ParsePriority(r.doc.priority).Some? {
      var i :| 0 <= i < |topics'| && topics'[i] == r;
      assert topics[i] in topics;
    }
  }

  /** `updateTopic` with the schema's enum enforced on update as well (update validators on):
      the update is validated before the topic is looked up, so a priority outside
      High/Medium/Low answers 500 with no change whatever the id; then an unknown id answers
      404. The enum holds of every stored topic after the call whenever it held before. */
  method UpdateTopicChecked(db: Db, id: Id, name: Option<string>, priority: Option<string>, studyMaterial: Option<string>)
    returns (status: Status)
    requires db.Valid()
    modifies db`topics
    ensures db.Valid()
    ensures status == ServerError <==> priority.Some? && ParsePriority(priority.value).None?
    ensures status == NotFound <==> !HasId(old(db.topics), id) && (priority.Some? ==> ParsePriority(priority.value).Some?)
    ensures status == OK || status == NotFound || status == ServerError
    ensures status != OK ==> db.topics == old(db.topics)
    ensures status == OK ==> db.topics == EditTopic(old(db.topics), id, name, priority, studyMaterial)
    ensures PrioritiesInEnum(old(db.topics)) ==> PrioritiesInEnum(db.topics)
  {
    if priority.Some? && ParsePriority(priority.value).None? {
      return ServerError;
    }
    if !HasId(db.topics, id) {
      return NotFound;
    }
    if PrioritiesInEnum(db.topics) {
      CheckedEditKeepsEnum(db.topics, id, name, priority, studyMaterial);
    }
    status := UpdateTopic(db, id, name, priority, studyMaterial);
  }

  /** Creating a topic keeps every stored priority in the enum. */
  lemma CreatedTopicInEnum(topics: Table<Topic>, n: Id, name: string, subject: Id, priority: Option<string>, studyMaterial: Option<string>)
    requires PrioritiesInEnum(topics)
    requires ValidTopic(NewTopic(name, subject, priority, studyMaterial))
    ensures PrioritiesInEnum(topics + [Row(n, NewTopic(name, subject, priority, studyMaterial))])
  {
  }

  /** Removing a topic and pulling its id from its subject's `topics` keeps the invariant;
      its quizzes stay, naming a topic that no longer exists. */
  lemma RemoveTopicKeepsInv(s: Store, id: Id, t: Topic)
    requires Inv(s) && Row(id, t) in s.topics
    ensures Inv(s.(topics := Remove(s.topics, id), subjects := DropTopicFrom(s.subjects, t.subject, id)))
  {
    var subjects' := DropTopicFrom(s.subjects, t.subject, id);
    WhereKeyed(s.topics, (r: Row<Topic>) => r.id != id, s.nextId);
    ReshapedKeyed(s.subjects, subjects', s.nextId);
    RemoveChild(s.subjects, subjects', SubjectTopics, s.topics, TopicSubject, id, t);
    ChildrenReshaped(s.exams, ExamSubjects, s.subjects, subjects', SubjectExam, s.nextId);
    RemoveParent(s.topics, TopicQuizzes, s.quizzes, QuizTopic, id);
    assert RefsBelow(Remove(s.topics, id), TopicSubject, s.nextId);
  }

  /** `deleteTopic`: 404 with no change when there is no such topic; otherwise the topic is
      removed and its id pulled from its subject's `topics`; its quizzes stay. */
  method DeleteTopic(db: Db, id: Id) returns (status: Status)
    requires db.Valid()
    modifies db`topics, db`subjects
    ensures db.Valid()
    ensures status == NotFound <==> Lookup(old(db.topics), id).None?
    ensures status != NotFound ==> status == OK
    ensures status == NotFound ==> db.topics == old(db.topics) && db.subjects == old(db.subjects)
    ensures status == OK ==>
      && db.topics == Remove(old(db.topics), id)
      && db.subjects == DropTopicFrom(old(db.subjects), Lookup(old(db.topics), id).value.subject, id)
    ensures db.quizzes == old(db.quizzes)
  {
    var found := Lookup(db.topics, id);
    if found.None? {
      return NotFound;
    }
    var t := found.value;
    ghost var s := db.Contents();
    db.topics := Remove(db.topics, id);
    db.subjects := DropTopicFrom(db.subjects, t.subject, id);
    assert db.Contents() == s.(topics := db.topics, subjects := db.subjects);
    RemoveTopicKeepsInv(s, id, t);
    status := OK;
  }

  /** Creating a topic and then deleting it restores the topics and every subject's
      `topics` array. */
  method CreateThenDeleteTopic(db: Db, name: string, subject: Id, priority: Option<string>, studyMaterial: Option<string>)
    requires db.Valid() && ValidTopic(NewTopic(name, subject, priority, studyMaterial))
    modifies db`topics, db`subjects, db`nextId
    ensures db.Valid()
    ensures db.topics == old(db.topics) && db.subjects == old(db.subjects)
  {
    ghost var s := db.Contents();
    var created, id := CreateTopic(db, name, Some(subject), priority, studyMaterial);
    var n := id.value;
    var t := NewTopic(name, subject, priority, studyMaterial);
    FreshUnlisted(s.subjects, SubjectTopics, s.topics, TopicSubject, n);
    LookupAppended(s.topics, n, t);
    var deleted := DeleteTopic(db, n);
    RemoveAppended(s.topics, n, t);
    DropTopicUndoesAdd(s.subjects, subject, n);
  }
}
