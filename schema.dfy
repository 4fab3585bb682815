/**
 * The rows of the portal's relational store, the identity a bearer token carries, the
 * request values handlers receive, and the replies they send.
 *
 * Nullable columns are `Option`s. Dates are integer timestamps in milliseconds. Password
 * hashes and tokens are opaque strings produced by the hashing and signing libraries.
 */
module Schema {
  import opened Wrappers

  /** Role names as they appear in tokens and in the login form. */
  const StudentRole: string := "student"
  const CoordinatorRole: string := "coordinator"
  const MentorRole: string := "mentor"

  predicate IsKnownRole(role: string) {
    role == StudentRole || role == CoordinatorRole || role == MentorRole
  }

  /** HTTP status codes the handlers answer with. */
  const OkStatus: int := 200
  const Created: int := 201
  const BadRequest: int := 400
  const Unauthorized: int := 401
  const Forbidden: int := 403
  const NotFound: int := 404
  const Conflict: int := 409
  const ServerError: int := 500

  /** A handler's JSON answer: a success status with a body, or an error status with its message. */
  datatype Reply<T> = Ok(code: int, body: T) | Err(code: int, error: string)

  /** The decoded token payload the middleware attaches as `req.user`. */
  datatype Identity = Identity(id: int, email: string, name: string, role: string)

  datatype Student = Student(
    studentId: int, name: string, email: string, passwordHash: string, department: string,
    year: int, section: string, registerNo: string, phoneNo: Option<string>)

  datatype Coordinator = Coordinator(coordinatorId: int, name: string, email: string, passwordHash: string)

  datatype Mentor = Mentor(
    mentorId: int, name: string, email: string, department: string, phoneNo: Option<string>,
    passwordHash: string)

  datatype Contest = Contest(
    contestId: int, title: string, description: Option<string>, organizer: Option<string>,
    platform: Option<string>, location: Option<string>, department: Option<string>,
    registrationDeadline: int, submissionDeadline: int, isTeamBased: bool, maxTeamSize: int,
    imageUrl: Option<string>, externalRegLink: Option<string>, submissionLink: Option<string>,
    createdBy: int, mentorId: Option<int>)

  datatype Registration = Registration(registrationId: int, contestId: int, studentId: int, registeredAt: int)

  datatype Team = Team(teamId: int, contestId: int, teamName: string, teamLeaderId: int, mentorId: Option<int>)

  datatype TeamMember = TeamMember(teamId: int, studentId: int, joinedAt: int)

  datatype Chat = Chat(chatId: int, contestId: int)

  /** A chat message; the three sender columns are nullable and a posted message sets one. */
  datatype Message = Message(
    messageId: int, chatId: int, senderStudentId: Option<int>, senderMentorId: Option<int>,
    senderCoordinatorId: Option<int>, messageText: string, sentAt: int)

  /** Exactly one of the three sender columns is non-null. */
  predicate OneSender(m: Message) {
    (if m.senderStudentId.Some? then 1 else 0)
    + (if m.senderMentorId.Some? then 1 else 0)
    + (if m.senderCoordinatorId.Some? then 1 else 0) == 1
  }

  /** The three kinds of chat sender, one per role and sender column. */
  datatype Sender = StudentSender | MentorSender | CoordinatorSender

  /** The `switch (role)` that picks a sender column; no column for any other role. */
  function SenderOf(role: string): (r: Option<Sender>)
    ensures r.Some? <==> IsKnownRole(role)
    ensures r == Some(StudentSender) <==> role == StudentRole
    ensures r == Some(MentorSender) <==> role == MentorRole
    ensures r == Some(CoordinatorSender) <==> role == CoordinatorRole
  {
    if role == StudentRole then Some(StudentSender)
    else if role == MentorRole then Some(MentorSender)
    else if role == CoordinatorRole then Some(CoordinatorSender)
    else None
  }

  /** The sender column of a message that belongs to one kind of sender. */
  function SenderColumn(m: Message, kind: Sender): Option<int> {
    match kind
    case StudentSender => m.senderStudentId
    case MentorSender => m.senderMentorId
    case CoordinatorSender => m.senderCoordinatorId
  }

  /**
   * A request field as JavaScript sees it: absent, or present with a value that may still be
   * falsy (`0` for an id, `""` for a string); `!field` rejects both.
   */
  predicate GivenId(field: Option<int>) {
    field.Some? && field.value != 0
  }

  predicate GivenText(field: Option<string>) {
    field.Some? && field.value != ""
  }

  /** `field || null`: a falsy text field is stored as NULL. */
  function OrNull(field: Option<string>): (r: Option<string>)
    ensures r.Some? <==> GivenText(field)
    ensures r.Some? ==> r == field
  {
    if GivenText(field) then field else None
  }

  /** A JSON or form value whose JavaScript truthiness and strict equality the handlers test. */
  datatype JsValue = Undefined | Null | Bool(b: bool) | Num(n: int) | Str(s: string)

  /** JavaScript truthiness: `false`, `0`, `""`, `null` and `undefined` are falsy. */
  predicate Truthy(v: JsValue) {
    match v
    case Undefined => false
    case Null => false
    case Bool(b) => b
    case Num(n) => n != 0
    case Str(s) => s != ""
  }
}
