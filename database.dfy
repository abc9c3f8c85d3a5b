/** The document store the controllers work on: one table per collection, and the id
    allocator standing for ObjectId generation. Every handler is one step on this object;
    the two writes of a dual-write happen within that step. */
module Database {
  import opened Wrappers
  import opened Table
  import opened Links
  import opened Models

  /** The HTTP status a handler answers with. */
  datatype Status = OK | Created | BadRequest | Unauthorized | Forbidden | NotFound | ServerError
  {
    function Code(): int
    {
      match this
      case OK => 200
      case Created => 201
      case BadRequest => 400
      case Unauthorized => 401
      case Forbidden => 403
      case NotFound => 404
      case ServerError => 500
    }
  }

  /** A read handler's answer: a status and, on success, the JSON payload. */
  datatype Reply<T> = Reply(status: Status, body: Option<T>)

  /** The contents of the store at one moment: one table per collection and the allocator. */
  datatype Store = Store(
    exams: Table<Exam>,
    subjects: Table<Subject>,
    topics: Table<Topic>,
    quizzes: Table<Quiz>,
    progress: Table<Progress>,
    users: Table<User>,
    nextId: Id)

  /** Ids are unique and below the allocator in every table, and the unique keys hold. */
  ghost predicate KeysInv(s: Store)
  {
    && Keyed(s.exams, s.nextId) && Keyed(s.subjects, s.nextId) && Keyed(s.topics, s.nextId)
    && Keyed(s.quizzes, s.nextId) && Keyed(s.progress, s.nextId) && Keyed(s.users, s.nextId)
    // the unique index on Exam.name
    && UniqueBy(s.exams, ExamName)
    // registration refuses an email already in use
    && UniqueBy(s.users, UserEmail)
    // find-or-create keeps one progress row per (student, topic)
    && UniqueBy(s.progress, StudentTopic)
  }

  /** Every parent reference (a subject's exam, a topic's subject, a quiz's topic) is below
      the allocator, so a fresh id is never such a reference. The progress and user
      references are not bounded. */
  ghost predicate RefsInv(s: Store)
  {
    && RefsBelow(s.subjects, SubjectExam, s.nextId)
    && RefsBelow(s.topics, TopicSubject, s.nextId)
    && RefsBelow(s.quizzes, QuizTopic, s.nextId)
  }

  /** The dual-write invariant, for each parent-held array. */
  ghost predicate LinksInv(s: Store)
  {
    && Consistent(s.exams, ExamSubjects, s.subjects, SubjectExam)
    && Consistent(s.subjects, SubjectTopics, s.topics, TopicSubject)
    && Consistent(s.topics, TopicQuizzes, s.quizzes, QuizTopic)
  }

  /** What every handler keeps true of the store. */
  ghost predicate Inv(s: Store)
  {
    KeysInv(s) && RefsInv(s) && LinksInv(s)
  }

  class Db {
    var exams: Table<Exam>
    var subjects: Table<Subject>
    var topics: Table<Topic>
    var quizzes: Table<Quiz>
    var progress: Table<Progress>
    var users: Table<User>
    /** The allocator: every row id, and every parent reference of `RefsInv`, is below it. */
    var nextId: Id

    ghost function Contents(): Store
      reads this
    {
      Store(exams, subjects, topics, quizzes, progress, users, nextId)
    }

    ghost predicate Valid()
      reads this
    {
      Inv(Contents())
    }

    constructor ()
      ensures Valid()
      ensures exams == [] && subjects == [] && topics == [] && quizzes == []
      ensures progress == [] && users == [] && nextId == 0
    {
      exams, subjects, topics, quizzes := [], [], [], [];
      progress, users := [], [];
      nextId := 0;
    }

    /** A fresh id: unused by every row, and above `above`, a reference the new document
        will hold (a generated ObjectId never equals one already stored). */
    method NewId(above: Id) returns (id: Id)
      requires Valid()
      modifies this`nextId
      ensures Valid()
      ensures id >= old(nextId) && id > above && nextId == id + 1
    {
      id := if nextId > above then nextId else above + 1;
      nextId := id + 1;
    }
  }
}
