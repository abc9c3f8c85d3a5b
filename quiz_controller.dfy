/** The quiz handlers (`quizController.js`): lookup by topic, create/update/delete with the
    `Topic.quizzes` dual-write, and grading a submission. */
module QuizController {
  import opened Wrappers
  import opened Table
  import opened Links
  import opened Models
  import opened Database
  import opened Grading

  /** `$push: { quizzes: quizId }` on the topic `topicId` (no change if there is none). */
  function AddQuizTo(topics: Table<Topic>, topicId: Id, quizId: Id): (r: Table<Topic>)
    ensures |r| == |topics|
    ensures forall i :: 0 <= i < |topics| ==>
      && r[i].id == topics[i].id
      && r[i].doc == (if topics[i].id == topicId then topics[i].doc.(quizzes := topics[i].doc.quizzes + [quizId]) else topics[i].doc)
  {
    Update(topics, topicId, (t: Topic) => t.(quizzes := t.quizzes + [quizId]))
  }

  /** `$pull: { quizzes: quizId }` on the topic `topicId` (no change if there is none). */
  function DropQuizFrom(topics: Table<Topic>, topicId: Id, quizId: Id): (r: Table<Topic>)
    ensures |r| == |topics|
    ensures forall i :: 0 <= i < |topics| ==>
      && r[i].id == topics[i].id
      && r[i].doc == (if topics[i].id == topicId then topics[i].doc.(quizzes := Pull(topics[i].doc.quizzes, quizId)) else topics[i].doc)
  {
    Update(topics, topicId, (t: Topic) => t.(quizzes := Pull(t.quizzes, quizId)))
  }

  /** Pulling a quiz id that was just pushed, and that no topic listed before, gives back
      the topics unchanged. */
  lemma DropQuizUndoesAdd(topics: Table<Topic>, topicId: Id, quizId: Id)
    requires forall r :: r in topics ==> quizId !in r.doc.quizzes
    ensures DropQuizFrom(AddQuizTo(topics, topicId, quizId), topicId, quizId) == topics
  {
    var added := AddQuizTo(topics, topicId, quizId);
    var back := DropQuizFrom(added, topicId, quizId);
    forall i | 0 <= i < |topics| ensures back[i] == topics[i] {
      if topics[i].id == topicId {
        assert topics[i] in topics;
        PullUndoesPush(topics[i].doc.quizzes, quizId);
      }
    }
  }

  /** `getQuizByTopic`: the first quiz (in natural order) whose `topic` is `topicId`, or 404. */
  function QuizByTopic(quizzes: Table<Quiz>, topicId: Id): (r: Reply<Row<Quiz>>)
    ensures r.status == OK || r.status == NotFound
    ensures r.status == NotFound <==> forall q :: q in quizzes ==> q.doc.topic != topicId
    ensures r.status == NotFound ==> r.body.None?
    ensures r.status == OK ==> exists i ::
      && 0 <= i < |quizzes| && r.body == Some(quizzes[i]) && quizzes[i].doc.topic == topicId
      && forall j :: 0 <= j < i ==> quizzes[j].doc.topic != topicId
  {
    match FindFirst(quizzes, (q: Row<Quiz>) => q.doc.topic == topicId)
    case None => Reply(NotFound, None)
    case Some(i) => Reply(OK, Some(quizzes[i]))
  }

  /** Inserting a quiz under a fresh id `n` above its topic reference, and pushing `n` onto
      its topic's `quizzes`, keeps the store's invariant. */
  lemma InsertQuizKeepsInv(s: Store, n: Id, quiz: Quiz)
    requires Inv(s)
    requires s.nextId <= n && quiz.topic < n
    ensures Inv(s.(quizzes := s.quizzes + [Row(n, quiz)], topics := AddQuizTo(s.topics, quiz.topic, n), nextId := n + 1))
  {
    var s' := s.(quizzes := s.quizzes + [Row(n, quiz)], topics := AddQuizTo(s.topics, quiz.topic, n), nextId := n + 1);
    InsertQuizKeys(s, n, quiz);
    InsertQuizLinks(s, n, quiz);
    assert RefsInv(s');
  }

  lemma InsertQuizKeys(s: Store, n: Id, quiz: Quiz)
    requires KeysInv(s) && s.nextId <= n
    ensures KeysInv(s.(quizzes := s.quizzes + [Row(n, quiz)], topics := AddQuizTo(s.topics, quiz.topic, n), nextId := n + 1))
  {
    InsertKeyed(s.quizzes, s.nextId, n, quiz, n + 1);
    ReshapedKeyed(s.topics, AddQuizTo(s.topics, quiz.topic, n), n + 1);
  }

  lemma InsertQuizLinks(s: Store, n: Id, quiz: Quiz)
    requires LinksInv(s) && RefsInv(s) && IdsBelow(s.quizzes, n) && s.nextId <= n
    ensures LinksInv(s.(quizzes := s.quizzes + [Row(n, quiz)], topics := AddQuizTo(s.topics, quiz.topic, n), nextId := n + 1))
  {
    var topics' := AddQuizTo(s.topics, quiz.topic, n);
    AddChild(s.topics, topics', TopicQuizzes, s.quizzes, QuizTopic, n, quiz);
    ChildrenReshaped(s.subjects, SubjectTopics, s.topics, topics', TopicSubject, n + 1);
  }

  /** `createQuiz`: saving validates the document (a topic reference, and every question's
      `text`, `explanation` and options present); a failed save answers 500 with no change.
      Otherwise the quiz is inserted under a fresh id and that id is appended to its
      topic's `quizzes`; a quiz naming no existing topic is still created. */
  method CreateQuiz(db: Db, topic: Option<Id>, questions: seq<Question>) returns (status: Status, id: Option<Id>)
    requires db.Valid()
    modifies db`quizzes, db`topics, db`nextId
    ensures db.Valid()
    ensures status == ServerError <==> topic.None? || !ValidQuestions(questions)
    ensures status == ServerError ==> id.None? && db.quizzes == old(db.quizzes) && db.topics == old(db.topics)
    ensures status == ServerError ==> db.nextId == old(db.nextId)
    ensures status != ServerError ==> status == Created && id.Some? && id.value >= old(db.nextId)
    ensures status != ServerError ==>
      && db.quizzes == old(db.quizzes) + [Row(id.value, Quiz(topic.value, questions))]
      && db.topics == AddQuizTo(old(db.topics), topic.value, id.value)
  {
    if topic.None? || !ValidQuestions(questions) {
      return ServerError, None;
    }
    ghost var s := db.Contents();
    var n := db.NewId(topic.value);
    var quiz := Quiz(topic.value, questions);
    db.quizzes := db.quizzes + [Row(n, quiz)];
    db.topics := AddQuizTo(db.topics, topic.value, n);
    assert db.Contents() == s.(quizzes := db.quizzes, topics := db.topics, nextId := n + 1);
    InsertQuizKeepsInv(s, n, quiz);
    status, id := Created, Some(n);
  }

  /** `findByIdAndUpdate(id, { questions })`: the quiz `id` gets the new question list and
      keeps its topic; every other quiz is unchanged. */
  function ReplaceQuestions(quizzes: Table<Quiz>, id: Id, questions: seq<Question>): (r: Table<Quiz>)
    ensures |r| == |quizzes|
    ensures forall i :: 0 <= i < |quizzes| ==>
      r[i] == (if quizzes[i].id == id then Row(id, Quiz(quizzes[i].doc.topic, questions)) else quizzes[i])
  {
    Update(quizzes, id, (q: Quiz) => q.(questions := questions))
  }

  /** Replacing a quiz's questions in place keeps the store's invariant. */
  lemma ReplaceQuestionsKeepsInv(s: Store, id: Id, questions: seq<Question>)
    requires Inv(s)
    ensures Inv(s.(quizzes := ReplaceQuestions(s.quizzes, id, questions)))
  {
    var quizzes' := ReplaceQuestions(s.quizzes, id, questions);
    ReshapedKeyed(s.quizzes, quizzes', s.nextId);
    ChildrenReshaped(s.topics, TopicQuizzes, s.quizzes, quizzes', QuizTopic, s.nextId);
  }

  /** `updateQuiz`: replaces the whole question list of the quiz `id` (absent: kept);
      nothing is validated on update and the quiz keeps its topic. 404 when there is no
      such quiz. */
  method UpdateQuiz(db: Db, id: Id, questions: Option<seq<Question>>) returns (status: Status)
    requires db.Valid()
    modifies db`quizzes
    ensures db.Valid()
    ensures status == NotFound <==> !HasId(old(db.quizzes), id)
    ensures status != NotFound ==> status == OK
    ensures status == NotFound || questions.None? ==> db.quizzes == old(db.quizzes)
    ensures status == OK && questions.Some? ==> db.quizzes == ReplaceQuestions(old(db.quizzes), id, questions.value)
  {
    if !HasId(db.quizzes, id) {
      return NotFound;
    }
    if questions.Some? {
      ghost var s := db.Contents();
      var updated := ReplaceQuestions(db.quizzes, id, questions.value);
      db.quizzes := updated;
      assert db.Contents() == s.(quizzes := updated);
      ReplaceQuestionsKeepsInv(s, id, questions.value);
    }
    status := OK;
  }

  /** Removing the quiz `id` and pulling `id` from its topic's `quizzes` keeps the store's
      invariant. */
  lemma RemoveQuizKeepsInv(s: Store, id: Id, quiz: Quiz)
    requires Inv(s)
    requires Row(id, quiz) in s.quizzes
    ensures Inv(s.(quizzes := Remove(s.quizzes, id), topics := DropQuizFrom(s.topics, quiz.topic, id)))
  {
    var topics' := DropQuizFrom(s.topics, quiz.topic, id);
    WhereKeyed(s.quizzes, (row: Row<Quiz>) => row.id != id, s.nextId);
    ReshapedKeyed(s.topics, topics', s.nextId);
    RemoveChild(s.topics, topics', TopicQuizzes, s.quizzes, QuizTopic, id, quiz);
    ChildrenReshaped(s.subjects, SubjectTopics, s.topics, topics', TopicSubject, s.nextId);
    assert RefsBelow(Remove(s.quizzes, id), QuizTopic, s.nextId);
  }

  /** `deleteQuiz`: 404 with no change when there is no such quiz; otherwise the quiz is
      removed and its id pulled from its topic's `quizzes`. */
  method DeleteQuiz(db: Db, id: Id) returns (status: Status)
    requires db.Valid()
    modifies db`quizzes, db`topics
    ensures db.Valid()
    ensures status == NotFound <==> Lookup(old(db.quizzes), id).None?
    ensures status != NotFound ==> status == OK
    ensures status == NotFound ==> db.quizzes == old(db.quizzes) && db.topics == old(db.topics)
    ensures status == OK ==>
      && db.quizzes == Remove(old(db.quizzes), id)
      && db.topics == DropQuizFrom(old(db.topics), Lookup(old(db.quizzes), id).value.topic, id)
  {
    var found := Lookup(db.quizzes, id);
    if found.None? {
      return NotFound;
    }
    var quiz := found.value;
    ghost var s := db.Contents();
    db.quizzes := Remove(db.quizzes, id);
    db.topics := DropQuizFrom(db.topics, quiz.topic, id);
    assert db.Contents() == s.(quizzes := db.quizzes, topics := db.topics);
    RemoveQuizKeepsInv(s, id, quiz);
    status := OK;
  }

  /** `submitQuuzAnswer`: 404 and no grading for an unknown quiz; otherwise the grade of
      `answers` against the quiz's questions. Nothing is stored. */
  method SubmitQuizAnswer(quizzes: Table<Quiz>, id: Id, answers: seq<int>) returns (status: Status, grade: Option<Grade>)
    ensures status == NotFound <==> Lookup(quizzes, id).None?
    ensures status == NotFound ==> grade.None?
    ensures status != NotFound ==> status == OK && grade == Some(Graded(Lookup(quizzes, id).value.questions, answers))
  {
    var found := Lookup(quizzes, id);
    if found.None? {
      return NotFound, None;
    }
    var g := GradeAnswers(found.value.questions, answers);
    status, grade := OK, Some(g);
  }

  /** Creating a quiz and then deleting it restores both the quiz table and every topic's
      `quizzes`, because the new id was fresh. */
  method CreateThenDeleteQuiz(db: Db, topic: Id, questions: seq<Question>)
    requires db.Valid() && ValidQuestions(questions)
    modifies db`quizzes, db`topics, db`nextId
    ensures db.Valid()
    ensures db.quizzes == old(db.quizzes) && db.topics == old(db.topics)
  {
    ghost var s := db.Contents();
    var created, id := CreateQuiz(db, Some(topic), questions);
    var n := id.value;
    var quiz := Quiz(topic, questions);
    FreshUnlisted(s.topics, TopicQuizzes, s.quizzes, QuizTopic, n);
    LookupAppended(s.quizzes, n, quiz);
    var deleted := DeleteQuiz(db, n);
    RemoveAppended(s.quizzes, n, quiz);
    DropQuizUndoesAdd(s.topics, topic, n);
  }
}
