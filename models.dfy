/** The document schemas of the backend (`backend/src/models`): one datatype per collection.
    Ids held in a field are references to rows of another collection; the `timestamps`
    the schemas add are not modelled. The `Subject` and `User` schemas are not part of this
    model; their fields are those the controllers read and write. */
module Models {
  import opened Wrappers
  import opened Table

  // ---- Exam.js ------------------------------------------------------------

  /** `subjects` is the parent-held array of Subject ids. */
  datatype Exam = Exam(name: string, description: Option<string>, subjects: seq<Id>)

  function ExamSubjects(e: Exam): seq<Id> { e.subjects }

  function ExamName(r: Row<Exam>): string { r.doc.name }

  /** A new exam as `new Exam({name, description})` builds it: no subjects yet. */
  function NewExam(name: string, description: Option<string>): Exam
  {
    Exam(name, description, [])
  }

  // ---- Subject (fields as the controllers use them) ---------------------------

  datatype Subject = Subject(name: string, exam: Id, topics: seq<Id>)

  function SubjectExam(s: Subject): Id { s.exam }

  function SubjectTopics(s: Subject): seq<Id> { s.topics }

  // ---- Topic.js -----------------------------------------------------------

  datatype Priority = High | Medium | Low

  /** The schema's `default: 'Medium'`. */
  const DefaultPriority: Priority := Medium

  function PriorityName(p: Priority): string
  {
    match p
    case High => "High"
    case Medium => "Medium"
    case Low => "Low"
  }

  /** The schema's enum check: a priority string is one of the three names. */
  function ParsePriority(s: string): (r: Option<Priority>)
    ensures r.Some? <==> s in {"High", "Medium", "Low"}
    ensures r.Some? ==> PriorityName(r.value) == s
    ensures forall p :: s == PriorityName(p) ==> r == Some(p)
  {
    if s == "High" then Some(High)
    else if s == "Medium" then Some(Medium)
    else if s == "Low" then Some(Low)
    else None
  }

  /** `priority` is stored as the string it was given: the enum is checked when a topic is
      saved, not when it is updated. */
  datatype Topic = Topic(name: string, subject: Id, priority: string, studyMaterial: Option<string>, quizzes: seq<Id>)

  function TopicSubject(t: Topic): Id { t.subject }

  function TopicQuizzes(t: Topic): seq<Id> { t.quizzes }

  /** A new topic as `new Topic({...})` builds it: the priority is `Medium` when omitted,
      and there are no quizzes yet. */
  function NewTopic(name: string, subject: Id, priority: Option<string>, studyMaterial: Option<string>): (t: Topic)
    ensures t.name == name && t.subject == subject && t.studyMaterial == studyMaterial && t.quizzes == []
    ensures priority.None? ==> ParsePriority(t.priority) == Some(DefaultPriority)
    ensures priority.Some? ==> t.priority == priority.value
  {
    Topic(name, subject, if priority.Some? then priority.value else PriorityName(DefaultPriority), studyMaterial, [])
  }

  /** What saving a topic checks: a name, and a priority from the enum. (The subject
      reference is required too; the handler receives it as an option.) */
  predicate ValidTopic(t: Topic)
  {
    Present(t.name) && ParsePriority(t.priority).Some?
  }

  // ---- Quiz.js ------------------------------------------------------------

  /** `correctAnswer` is any number: nothing ties it to a position of `options`. */
  datatype Question = Question(text: string, options: seq<string>, correctAnswer: int, explanation: string)

  datatype Quiz = Quiz(topic: Id, questions: seq<Question>)

  function QuizTopic(q: Quiz): Id { q.topic }

  // ---- Progress.js --------------------------------------------------------

  /** `attemptedAt` is the clock reading the caller passes in. */
  datatype QuizAttempt = QuizAttempt(score: int, totalQuestions: int, attemptedAt: int, answers: seq<int>)

  datatype Progress = Progress(student: Id, topic: Id, isCompleted: bool, quizAttempts: seq<QuizAttempt>)

  /** The pair a progress row belongs to. The schema declares no unique index on it. */
  function StudentTopic(r: Row<Progress>): (Id, Id) { (r.doc.student, r.doc.topic) }

  /** A new progress row as `new Progress({student, topic})` builds it: `isCompleted`
      defaults to false and there are no attempts. */
  function NewProgress(student: Id, topic: Id): Progress
  {
    Progress(student, topic, false, [])
  }

  // ---- User (fields as the controllers use them) ------------------------------

  datatype Role = Student | Admin

  /** `password` is whatever the (unmodelled) User schema stores; it is only ever compared
      through the password check the handlers receive. */
  datatype User = User(name: string, email: string, password: string, role: Role, isBlocked: bool, targetExam: Option<Id>)

  function UserEmail(r: Row<User>): string { r.doc.email }

  /** A user as `.select('-password')` returns it. */
  datatype PublicUser = PublicUser(name: string, email: string, role: Role, isBlocked: bool, targetExam: Option<Id>)

  function WithoutPassword(u: User): PublicUser
  {
    PublicUser(u.name, u.email, u.role, u.isBlocked, u.targetExam)
  }

  // ---- Validation run on save -------------------------------------------------

  /** Mongoose's `required` on a String rejects a missing value and the empty string alike;
      the model writes both as "". */
  predicate Present(s: string) { s != "" }

  /** What saving a question checks: `text` and `explanation` present, every option present.
      `correctAnswer` is typed, so it is always there. */
  predicate ValidQuestion(q: Question)
  {
    && Present(q.text)
    && Present(q.explanation)
    && forall k :: 0 <= k < |q.options| ==> Present(q.options[k])
  }

  predicate ValidQuestions(qs: seq<Question>)
  {
    forall k :: 0 <= k < |qs| ==> ValidQuestion(qs[k])
  }
}
