/**
 * The account routes: login for any of the three roles, student sign-up, and the caller's
 * own profile. Password hashing and comparison (bcrypt) and token signing (JWT) are the
 * `hash`, `matches` and `sign` parameters.
 */
module Auth {
  import opened Wrappers
  import opened Seqs
  import opened Schema
  import opened Store
  import Transitions

  /** A user row as the replies show it: every column but the password hash. */
  datatype Profile =
    | StudentProfile(studentId: int, name: string, email: string, department: string, year: int,
                     section: string, registerNo: string, phoneNo: Option<string>)
    | CoordinatorProfile(coordinatorId: int, name: string, email: string)
    | MentorProfile(mentorId: int, name: string, email: string, department: string, phoneNo: Option<string>)

  /** A user row reduced to what login needs: its key, name, e-mail, hash and public part. */
  datatype Account = Account(id: int, name: string, email: string, passwordHash: string, profile: Profile)

  function StudentAccount(s: Student): Account {
    Account(s.studentId, s.name, s.email, s.passwordHash,
      StudentProfile(s.studentId, s.name, s.email, s.department, s.year, s.section, s.registerNo, s.phoneNo))
  }

  function CoordinatorAccount(c: Coordinator): Account {
    Account(c.coordinatorId, c.name, c.email, c.passwordHash, CoordinatorProfile(c.coordinatorId, c.name, c.email))
  }

  function MentorAccount(m: Mentor): Account {
    Account(m.mentorId, m.name, m.email, m.passwordHash, MentorProfile(m.mentorId, m.name, m.email, m.department, m.phoneNo))
  }

  function StudentEmailIs(email: string): Student -> bool { (s: Student) => s.email == email }
  function CoordinatorEmailIs(email: string): Coordinator -> bool { (c: Coordinator) => c.email == email }
  function MentorEmailIs(email: string): Mentor -> bool { (m: Mentor) => m.email == email }

  /** Some row of the role's own table has the e-mail. */
  predicate KnownIn(t: Tables, role: string, email: string) {
    if role == StudentRole then exists s :: s in t.students && s.email == email
    else if role == CoordinatorRole then exists c :: c in t.coordinators && c.email == email
    else if role == MentorRole then exists m :: m in t.mentors && m.email == email
    else false
  }

  /**
   * The `switch (role)` of login: the first row with the e-mail in the requested role's table
   * only, or nothing for any other role.
   */
  function FindAccount(t: Tables, role: string, email: string): (r: Option<Account>)
    ensures r.Some? <==> KnownIn(t, role, email)
    ensures r.Some? ==> r.value.email == email
    ensures r.Some? && role == StudentRole ==> exists s :: s in t.students && r.value == StudentAccount(s)
    ensures r.Some? && role == CoordinatorRole ==> exists c :: c in t.coordinators && r.value == CoordinatorAccount(c)
    ensures r.Some? && role == MentorRole ==> exists m :: m in t.mentors && r.value == MentorAccount(m)
  {
    if role == StudentRole then
      match Find(t.students, StudentEmailIs(email))
      case None => None
      case Some(s) => Some(StudentAccount(s))
    else if role == CoordinatorRole then
      match Find(t.coordinators, CoordinatorEmailIs(email))
      case None => None
      case Some(c) => Some(CoordinatorAccount(c))
    else if role == MentorRole then
      match Find(t.mentors, MentorEmailIs(email))
      case None => None
      case Some(m) => Some(MentorAccount(m))
    else None
  }

  /** What a successful login or sign-up answers: the signed token and the user without its hash. */
  datatype Session = Session(token: string, user: Profile, role: string)

  /**
   * POST /api/auth/login: 400 unless e-mail, password and role are given, 400 for a role
   * outside the three, then the same 401 for an unknown e-mail and for a wrong password.
   * Success signs the requested role and the row's own key into the token.
   */
  function Login(t: Tables, email: Option<string>, password: Option<string>, role: Option<string>,
                 matches: (string, string) -> bool, sign: Identity -> string): (r: Reply<Session>)
    ensures !(GivenText(email) && GivenText(password) && GivenText(role)) ==>
      r == Err(BadRequest, "Email, password, and role are required")
    ensures GivenText(email) && GivenText(password) && GivenText(role) && !IsKnownRole(role.value) ==>
      r == Err(BadRequest, "Invalid role")
    ensures GivenText(email) && GivenText(password) && GivenText(role) && IsKnownRole(role.value) ==>
      && (!KnownIn(t, role.value, email.value) ==> r == Err(Unauthorized, "Invalid credentials"))
      && (KnownIn(t, role.value, email.value) ==>
            var a := FindAccount(t, role.value, email.value).value;
            && (!matches(password.value, a.passwordHash) ==> r == Err(Unauthorized, "Invalid credentials"))
            && (matches(password.value, a.passwordHash) ==>
                  r == Ok(OkStatus, Session(sign(Identity(a.id, a.email, a.name, role.value)), a.profile, role.value))))
  {
    if !GivenText(email) || !GivenText(password) || !GivenText(role) then
      Err(BadRequest, "Email, password, and role are required")
    else if !IsKnownRole(role.value) then Err(BadRequest, "Invalid role")
    else
      match FindAccount(t, role.value, email.value)
      case None => Err(Unauthorized, "Invalid credentials")
      case Some(a) =>
        if !matches(password.value, a.passwordHash) then Err(Unauthorized, "Invalid credentials")
        else Ok(OkStatus, Session(sign(Identity(a.id, a.email, a.name, role.value)), a.profile, role.value))
  }

  /**
   * Login reveals nothing about which check failed: an e-mail the role's table does not hold
   * and a wrong password get the same answer, and an e-mail held only by another role's
   * table is unknown.
   */
  lemma LoginFailsUniformly(t: Tables, email: string, password: string, role: string,
                            matches: (string, string) -> bool, sign: Identity -> string)
    requires email != "" && password != "" && IsKnownRole(role)
    requires !KnownIn(t, role, email) || !matches(password, FindAccount(t, role, email).value.passwordHash)
    ensures Login(t, Some(email), Some(password), Some(role), matches, sign) == Err(Unauthorized, "Invalid credentials")
  {
  }

  /** A successful login's token carries the requested role and the key of that role's row. */
  lemma LoginIdentity(t: Tables, email: string, password: string, role: string,
                      matches: (string, string) -> bool, sign: Identity -> string)
    requires Login(t, Some(email), Some(password), Some(role), matches, sign).Ok?
    ensures var r := Login(t, Some(email), Some(password), Some(role), matches, sign);
      && r.body.role == role
      && (role == StudentRole ==>
            exists s :: s in t.students && s.email == email &&
              r.body.token == sign(Identity(s.studentId, s.email, s.name, role)) && r.body.user.StudentProfile?)
      && (role == CoordinatorRole ==>
            exists c :: c in t.coordinators && c.email == email &&
              r.body.token == sign(Identity(c.coordinatorId, c.email, c.name, role)) && r.body.user.CoordinatorProfile?)
      && (role == MentorRole ==>
            exists m :: m in t.mentors && m.email == email &&
              r.body.token == sign(Identity(m.mentorId, m.email, m.name, role)) && r.body.user.MentorProfile?)
  {
    var a := FindAccount(t, role, email).value;
    if role == StudentRole {
      var s :| s in t.students && a == StudentAccount(s);
    } else if role == CoordinatorRole {
      var c :| c in t.coordinators && a == CoordinatorAccount(c);
    } else {
      var m :| m in t.mentors && a == MentorAccount(m);
    }
  }

  /** The sign-up form; `phone_no` is the one optional field, `year` a number. */
  datatype SignUp = SignUp(
    name: Option<string>, email: Option<string>, password: Option<string>, department: Option<string>,
    year: Option<int>, section: Option<string>, registerNo: Option<string>, phoneNo: Option<string>)

  predicate Complete(f: SignUp) {
    && GivenText(f.name) && GivenText(f.email) && GivenText(f.password) && GivenText(f.department)
    && GivenId(f.year) && GivenText(f.section) && GivenText(f.registerNo)
  }

  /** `SELECT email FROM students WHERE email = ? OR register_no = ?` finds a row. */
  predicate Taken(students: seq<Student>, email: string, registerNo: string) {
    exists s :: s in students && (s.email == email || s.registerNo == registerNo)
  }

  /** The student row a sign-up inserts: the hashed password, and NULL for a falsy phone number. */
  function NewStudent(id: int, f: SignUp, hash: string -> string): (s: Student)
    requires Complete(f)
    ensures s.studentId == id && s.email == f.email.value && s.registerNo == f.registerNo.value
    ensures s.passwordHash == hash(f.password.value) && s.phoneNo == OrNull(f.phoneNo)
  {
    Student(id, f.name.value, f.email.value, hash(f.password.value), f.department.value, f.year.value,
      f.section.value, f.registerNo.value, OrNull(f.phoneNo))
  }

  /** The user a sign-up answers with: the new row's columns but the hash and the phone number. */
  datatype NewUser = NewUser(
    studentId: int, name: string, email: string, department: string, year: int, section: string,
    registerNo: string, role: string)

  /** The write of a sign-up: one student row appended. */
  method InsertStudent(db: Db, s: Student)
    requires db.Valid()
    requires forall x :: x in db.students ==> x.studentId < s.studentId
    requires !Taken(db.students, s.email, s.registerNo)
    modifies db
    ensures db.Valid()
    ensures db.State() == old(db.State()).(students := old(db.students) + [s])
  {
    Transitions.AddStudent(db.State(), s);
    db.students := db.students + [s];
  }

  /**
   * POST /api/auth/register: 400 unless every field but the phone number is given, 409 when
   * a student has the e-mail or the register number, and otherwise one student row with the
   * next id, answered with a token for the role `student`.
   */
  method Register(db: Db, f: SignUp, hash: string -> string, sign: Identity -> string) returns (reply: Reply<(string, NewUser)>)
    requires db.Valid()
    modifies db
    ensures db.Valid()
    ensures !Complete(f) ==> reply == Err(BadRequest, "All fields are required")
    ensures Complete(f) && Taken(old(db.students), f.email.value, f.registerNo.value) ==>
      reply == Err(Conflict, "Email or Register Number already exists")
    ensures reply.Err? ==> db.State() == old(db.State())
    ensures Complete(f) && !Taken(old(db.students), f.email.value, f.registerNo.value) ==>
      var id := NextKey(old(db.students), StudentKey);
      && reply == Ok(Created, (sign(Identity(id, f.email.value, f.name.value, StudentRole)),
           NewUser(id, f.name.value, f.email.value, f.department.value, f.year.value, f.section.value, f.registerNo.value, StudentRole)))
      && db.State() == old(db.State()).(students := old(db.students) + [NewStudent(id, f, hash)])
  {
    if !Complete(f) {
      return Err(BadRequest, "All fields are required");
    }
    if Taken(db.students, f.email.value, f.registerNo.value) {
      return Err(Conflict, "Email or Register Number already exists");
    }
    var id := NextKey(db.students, StudentKey);
    InsertStudent(db, NewStudent(id, f, hash));
    var token := sign(Identity(id, f.email.value, f.name.value, StudentRole));
    reply := Ok(Created, (token, NewUser(id, f.name.value, f.email.value, f.department.value, f.year.value,
      f.section.value, f.registerNo.value, StudentRole)));
  }

  /** After a sign-up, a second one with the same e-mail or register number is refused. */
  lemma SignUpTakesEmail(students: seq<Student>, s: Student, email: string, registerNo: string)
    requires email == s.email || registerNo == s.registerNo
    ensures Taken(students + [s], email, registerNo)
  {
    assert (students + [s])[|students|] == s;
  }

  /** The caller's own profile, looked up by key in the table of the token's role. */
  function FindProfile(t: Tables, id: int, role: string): (r: Option<Profile>)
    ensures !IsKnownRole(role) ==> r.None?
    ensures role == StudentRole ==> (r.Some? <==> StudentById(t.students, id).Some?)
    ensures role == CoordinatorRole ==> (r.Some? <==> CoordinatorById(t.coordinators, id).Some?)
    ensures role == MentorRole ==> (r.Some? <==> MentorById(t.mentors, id).Some?)
  {
    if role == StudentRole then
      match StudentById(t.students, id)
      case None => None
      case Some(s) => Some(StudentAccount(s).profile)
    else if role == CoordinatorRole then
      match CoordinatorById(t.coordinators, id)
      case None => None
      case Some(c) => Some(CoordinatorAccount(c).profile)
    else if role == MentorRole then
      match MentorById(t.mentors, id)
      case None => None
      case Some(m) => Some(MentorAccount(m).profile)
    else None
  }

  /** GET /api/auth/me: the caller's row without its hash, with the role; 404 when there is none. */
  function Me(t: Tables, caller: Identity): (r: Reply<(Profile, string)>)
    ensures FindProfile(t, caller.id, caller.role).None? <==> r == Err(NotFound, "User not found")
    ensures r.Ok? ==> r == Ok(OkStatus, (FindProfile(t, caller.id, caller.role).value, caller.role))
  {
    match FindProfile(t, caller.id, caller.role)
    case None => Err(NotFound, "User not found")
    case Some(p) => Ok(OkStatus, (p, caller.role))
  }

  /** With unique keys, the profile lookup by a row's own key finds that row. */
  lemma StudentProfileFinds(t: Tables, s: Student)
    requires Increasing(t.students, StudentKey) && s in t.students
    ensures FindProfile(t, s.studentId, StudentRole) == Some(StudentAccount(s).profile)
  {
    var x := StudentById(t.students, s.studentId).value;
    var i :| 0 <= i < |t.students| && t.students[i] == s;
    var j :| 0 <= j < |t.students| && t.students[j] == x;
    assert StudentKey(t.students[i]) == StudentKey(t.students[j]);
  }

  lemma CoordinatorProfileFinds(t: Tables, c: Coordinator)
    requires Increasing(t.coordinators, CoordinatorKey) && c in t.coordinators
    ensures FindProfile(t, c.coordinatorId, CoordinatorRole) == Some(CoordinatorAccount(c).profile)
  {
    var x := CoordinatorById(t.coordinators, c.coordinatorId).value;
    var i :| 0 <= i < |t.coordinators| && t.coordinators[i] == c;
    var j :| 0 <= j < |t.coordinators| && t.coordinators[j] == x;
    assert CoordinatorKey(t.coordinators[i]) == CoordinatorKey(t.coordinators[j]);
  }

  lemma MentorProfileFinds(t: Tables, m: Mentor)
    requires Increasing(t.mentors, MentorKey) && m in t.mentors
    ensures FindProfile(t, m.mentorId, MentorRole) == Some(MentorAccount(m).profile)
  {
    var x := MentorById(t.mentors, m.mentorId).value;
    var i :| 0 <= i < |t.mentors| && t.mentors[i] == m;
    var j :| 0 <= j < |t.mentors| && t.mentors[j] == x;
    assert MentorKey(t.mentors[i]) == MentorKey(t.mentors[j]);
  }

  /** A session from login leads back to the same profile: `me` finds the row the token names. */
  lemma LoginThenMe(t: Tables, email: string, password: string, role: string,
                    matches: (string, string) -> bool, sign: Identity -> string, caller: Identity)
    requires Consistent(t)
    requires Login(t, Some(email), Some(password), Some(role), matches, sign).Ok?
    requires var a := FindAccount(t, role, email).value; caller == Identity(a.id, a.email, a.name, role)
    ensures Me(t, caller) == Ok(OkStatus, (Login(t, Some(email), Some(password), Some(role), matches, sign).body.user, role))
  {
    var a := FindAccount(t, role, email).value;
    if role == StudentRole {
      var s :| s in t.students && a == StudentAccount(s);
      StudentProfileFinds(t, s);
    } else if role == CoordinatorRole {
      var c :| c in t.coordinators && a == CoordinatorAccount(c);
      CoordinatorProfileFinds(t, c);
    } else {
      var m :| m in t.mentors && a == MentorAccount(m);
      MentorProfileFinds(t, m);
    }
  }
}
