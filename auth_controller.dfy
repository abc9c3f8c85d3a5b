/** Registration and login (`authController.js`). Token signing and the password check are
    calls into code this model does not see: the token is the payload `generateToken` signs,
    and the password check is the predicate `matches(candidate, stored)` passed in. */
module AuthController {
  import opened Wrappers
  import opened Table
  import opened Models
  import opened Database
  import ProgressController

  /** The payload `generateToken` signs (signing and the seven-day expiry are not modelled). */
  datatype Token = Token(id: Id, email: string, role: Role)

  /** The user fields a login or registration reply shows. */
  datatype Account = Account(id: Id, name: string, email: string, role: Role)

  /** A token and the account it was issued for. */
  datatype Session = Session(token: Token, account: Account)

  /** A student login also shows the target exam. */
  datatype StudentLogin = StudentLogin(session: Session, targetExam: Option<Id>)

  /** `generateToken`: the token carries the user's id, email and role. */
  function GenerateToken(row: Row<User>): Token
  {
    Token(row.id, row.doc.email, row.doc.role)
  }

  /** The reply for `row`: its token and its public account fields. */
  function SessionOf(row: Row<User>): Session
  {
    Session(GenerateToken(row), Account(row.id, row.doc.name, row.doc.email, row.doc.role))
  }

  /** `User.findOne({ email })`: the position of the first user with the email. */
  function FindByEmail(users: Table<User>, email: string): (r: Option<nat>)
    ensures r.Some? ==> r.value < |users| && users[r.value].doc.email == email
    ensures r.Some? ==> forall j :: 0 <= j < r.value ==> users[j].doc.email != email
    ensures r.None? <==> forall row :: row in users ==> row.doc.email != email
  {
    FindFirst(users, (row: Row<User>) => UserEmail(row) == email)
  }

  /** With unique emails, `findOne` finds the one user holding the email. */
  lemma FoundByEmail(users: Table<User>, row: Row<User>)
    requires UniqueBy(users, UserEmail) && row in users
    ensures FindByEmail(users, row.doc.email).Some?
    ensures users[FindByEmail(users, row.doc.email).value] == row
  {
    var k := FindByEmail(users, row.doc.email).value;
    SameKeySameRow(users, UserEmail, users[k], row);
  }

  /** `findOne({ email })` depends on the users' emails only, so it finds the same position
      in a table rewritten without touching any email. */
  lemma FindByEmailReshaped(users: Table<User>, users': Table<User>, email: string)
    requires |users'| == |users|
    requires forall i :: 0 <= i < |users| ==> users'[i].doc.email == users[i].doc.email
    ensures FindByEmail(users', email) == FindByEmail(users, email)
  {
    FindFirstAgrees(users, (row: Row<User>) => UserEmail(row) == email, users', (row: Row<User>) => UserEmail(row) == email);
  }

  /** `loginStudent`: 401 when no user has the email or that user is not a student; then 403
      when the student is blocked, whatever the password; then 401 on a wrong password;
      otherwise 200 with a token for that user. */
  function LoginStudent(users: Table<User>, email: string, password: string, matches: (string, string) -> bool): (r: Reply<StudentLogin>)
    ensures FindByEmail(users, email).None? ==> r == Reply(Unauthorized, None)
    ensures FindByEmail(users, email).Some? ==>
      var u := users[FindByEmail(users, email).value];
      && (u.doc.role != Student ==> r == Reply(Unauthorized, None))
      && (u.doc.role == Student && u.doc.isBlocked ==> r == Reply(Forbidden, None))
      && (u.doc.role == Student && !u.doc.isBlocked && !matches(password, u.doc.password) ==> r == Reply(Unauthorized, None))
      && (u.doc.role == Student && !u.doc.isBlocked && matches(password, u.doc.password) ==>
          r == Reply(OK, Some(StudentLogin(SessionOf(u), u.doc.targetExam))))
  {
    match FindByEmail(users, email)
    case None => Reply(Unauthorized, None)
    case Some(i) =>
      var u := users[i];
      if u.doc.role != Student then Reply(Unauthorized, None)
      else if u.doc.isBlocked then Reply(Forbidden, None)
      else if !matches(password, u.doc.password) then Reply(Unauthorized, None)
      else Reply(OK, Some(StudentLogin(SessionOf(u), u.doc.targetExam)))
  }

  /** `loginAdmin`: 401 when no user has the email or that user is not an admin, or on a
      wrong password; otherwise 200 with a token. There is no blocked check. */
  function LoginAdmin(users: Table<User>, email: string, password: string, matches: (string, string) -> bool): (r: Reply<Session>)
    ensures FindByEmail(users, email).None? ==> r == Reply(Unauthorized, None)
    ensures FindByEmail(users, email).Some? ==>
      var u := users[FindByEmail(users, email).value];
      && (u.doc.role != Admin || !matches(password, u.doc.password) ==> r == Reply(Unauthorized, None))
      && (u.doc.role == Admin && matches(password, u.doc.password) ==> r == Reply(OK, Some(SessionOf(u))))
  {
    match FindByEmail(users, email)
    case None => Reply(Unauthorized, None)
    case Some(i) =>
      var u := users[i];
      if u.doc.role != Admin then Reply(Unauthorized, None)
      else if !matches(password, u.doc.password) then Reply(Unauthorized, None)
      else Reply(OK, Some(SessionOf(u)))
  }

  /** In a store whose emails are unique, the student login outcome for a user's email is
      decided by that user alone: its role, then its blocked flag, then the password. */
  lemma LoginStudentOutcome(users: Table<User>, row: Row<User>, password: string, matches: (string, string) -> bool)
    requires UniqueBy(users, UserEmail) && row in users
    ensures var r := LoginStudent(users, row.doc.email, password, matches);
      && (r.status == OK <==> row.doc.role == Student && !row.doc.isBlocked && matches(password, row.doc.password))
      && (r.status == Forbidden <==> row.doc.role == Student && row.doc.isBlocked)
      && (r.status == Unauthorized <==> row.doc.role != Student || (!row.doc.isBlocked && !matches(password, row.doc.password)))
      && (r.status == OK ==> r.body == Some(StudentLogin(SessionOf(row), row.doc.targetExam)))
  {
    FoundByEmail(users, row);
  }

  /** The user a registration creates: a student, not blocked, with the target exam given
      (none when none is supplied). */
  function NewStudent(name: string, email: string, password: string, targetExam: Option<Id>): User
  {
    User(name, email, password, Student, false, targetExam)
  }

  lemma RegisterKeepsInv(s: Store, n: Id, u: User)
    requires Inv(s) && s.nextId <= n
    requires FindByEmail(s.users, u.email).None?
    ensures Inv(s.(users := s.users + [Row(n, u)], nextId := n + 1))
  {
    InsertKeyed(s.users, s.nextId, n, u, n + 1);
    AppendKeepsUnique(s.users, UserEmail, Row(n, u));
  }

  /** `registerStudent`: 400 with the store unchanged when any user already has the email;
      otherwise 201, a new student under an unused id, and a token for it. */
  method RegisterStudent(db: Db, name: string, email: string, password: string, targetExam: Option<Id>)
    returns (status: Status, session: Option<Session>)
    requires db.Valid()
    modifies db`users, db`nextId
    ensures db.Valid()
    ensures status == BadRequest <==> FindByEmail(old(db.users), email).Some?
    ensures status == BadRequest ==> db.users == old(db.users) && db.nextId == old(db.nextId) && session.None?
    ensures status != BadRequest ==> status == Created && session.Some?
    ensures status == Created ==>
      var row := Row(session.value.token.id, NewStudent(name, email, password, targetExam));
      && row.id >= old(db.nextId)
      && db.users == old(db.users) + [row]
      && session.value == SessionOf(row)
  {
    if FindByEmail(db.users, email).Some? {
      return BadRequest, None;
    }
    ghost var s := db.Contents();
    var n := db.NewId(0);
    var row := Row(n, NewStudent(name, email, password, targetExam));
    db.users := db.users + [row];
    assert db.Contents() == s.(users := s.users + [row], nextId := n + 1);
    RegisterKeepsInv(s, n, row.doc);
    status, session := Created, Some(SessionOf(row));
  }

  /** `getProfile`: always 200, with the caller's user as stored (password field included),
      or no user when the caller's id names none. */
  function GetProfile(users: Table<User>, caller: Id): (r: Reply<User>)
    ensures r.status == OK
    ensures r.body.Some? ==> Row(caller, r.body.value) in users
    ensures r.body.None? <==> forall row :: row in users ==> row.id != caller
  {
    Reply(OK, Lookup(users, caller))
  }

  // ---- How the admin actions on students meet login ------------------------------------

  /** Blocking a student shuts them out with 403, whatever password they give. */
  lemma BlockedStudentForbidden(users: Table<User>, id: Id, password: string, matches: (string, string) -> bool)
    requires UniqueBy(users, UserEmail)
    requires Lookup(users, id).Some? && Lookup(users, id).value.role == Student
    ensures var u := Lookup(users, id).value;
      LoginStudent(ProgressController.SetBlocked(users, id, true), u.email, password, matches) == Reply(Forbidden, None)
  {
    var u := Lookup(users, id).value;
    var users' := ProgressController.SetBlocked(users, id, true);
    ReshapedUnique(users, users', UserEmail);
    var i :| 0 <= i < |users| && users[i] == Row(id, u);
    assert users'[i] == Row(id, u.(isBlocked := true));
    LoginStudentOutcome(users', users'[i], password, matches);
  }

  /** Unblocking a student lets them in again with a password that matches, and the token
      names that student. */
  lemma UnblockedStudentLogsIn(users: Table<User>, id: Id, password: string, matches: (string, string) -> bool)
    requires UniqueBy(users, UserEmail)
    requires Lookup(users, id).Some? && Lookup(users, id).value.role == Student
    requires matches(password, Lookup(users, id).value.password)
    ensures var u := Lookup(users, id).value;
      var r := LoginStudent(ProgressController.SetBlocked(users, id, false), u.email, password, matches);
      r.status == OK && r.body.value.session.token == Token(id, u.email, Student)
  {
    var u := Lookup(users, id).value;
    var users' := ProgressController.SetBlocked(users, id, false);
    ReshapedUnique(users, users', UserEmail);
    var i :| 0 <= i < |users| && users[i] == Row(id, u);
    assert users'[i] == Row(id, u.(isBlocked := false));
    LoginStudentOutcome(users', users'[i], password, matches);
  }

  /** The admin login ignores the blocked flag: blocking or unblocking any user leaves every
      admin login outcome as it was. */
  lemma AdminLoginIgnoresBlocked(users: Table<User>, id: Id, b: bool, email: string, password: string, matches: (string, string) -> bool)
    ensures LoginAdmin(ProgressController.SetBlocked(users, id, b), email, password, matches) == LoginAdmin(users, email, password, matches)
  {
    var users' := ProgressController.SetBlocked(users, id, b);
    FindByEmailReshaped(users, users', email);
  }

  /** A student just registered can log in with the same password (when the password check
      accepts a password against what registration stored for it), and is not blocked. */
  lemma RegisteredStudentLogsIn(users: Table<User>, n: Id, name: string, email: string, password: string, targetExam: Option<Id>,
                                matches: (string, string) -> bool)
    requires UniqueBy(users, UserEmail) && FindByEmail(users, email).None?
    requires matches(password, password)
    ensures var row := Row(n, NewStudent(name, email, password, targetExam));
      LoginStudent(users + [row], email, password, matches) == Reply(OK, Some(StudentLogin(SessionOf(row), targetExam)))
  {
    var row := Row(n, NewStudent(name, email, password, targetExam));
    AppendKeepsUnique(users, UserEmail, row);
    LoginStudentOutcome(users + [row], row, password, matches);
  }

  /** A deleted user's email no longer logs in, as a student or as an admin. */
  lemma DeletedUserUnauthorized(users: Table<User>, id: Id, password: string, matches: (string, string) -> bool)
    requires UniqueBy(users, UserEmail) && Lookup(users, id).Some?
    ensures var email := Lookup(users, id).value.email;
      && LoginStudent(Remove(users, id), email, password, matches) == Reply(Unauthorized, None)
      && LoginAdmin(Remove(users, id), email, password, matches) == Reply(Unauthorized, None)
  {
    var u := Lookup(users, id).value;
    forall row | row in Remove(users, id) ensures row.doc.email != u.email {
      if row.doc.email == u.email {
        SameKeySameRow(users, UserEmail, row, Row(id, u));
      }
    }
  }
}
