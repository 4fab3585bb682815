/**
 * The contest-registration routes: a student registers individually for a contest, lists
 * their registrations, and cancels one; coordinators and mentors list a contest's registrants.
 * The routes sit behind `authenticate` and `authorize` (module AuthMiddleware); `caller` is
 * the identity those attach to the request, and `now` the server clock in milliseconds.
 */
module Registrations {
  import opened Wrappers
  import opened Seqs
  import opened Schema
  import opened Store
  import Transitions

  const TeamBasedContest: string := "This is a team-based contest. Please create or join a team."

  /**
   * POST /api/registrations. The checks run in order: a contest id is given (400), the
   * contest exists (404), its registration deadline has not passed (400; registering exactly
   * at the deadline is allowed), it is not team-based (400), and the student has no
   * registration for it yet (409). Only then is one row, with the next rowid, inserted.
   */
  method Register(db: Db, caller: Identity, contestId: Option<int>, now: int) returns (reply: Reply<int>)
    requires db.Valid()
    modifies db
    ensures db.Valid()
    ensures !GivenId(contestId) ==> reply == Err(BadRequest, "Contest ID is required")
    ensures GivenId(contestId) && ContestById(old(db.contests), contestId.value).None? ==>
      reply == Err(NotFound, "Contest not found")
    ensures GivenId(contestId) && ContestById(old(db.contests), contestId.value).Some? ==>
      var c := ContestById(old(db.contests), contestId.value).value;
      && (now > c.registrationDeadline ==> reply == Err(BadRequest, "Registration deadline has passed"))
      && (now <= c.registrationDeadline && c.isTeamBased ==> reply == Err(BadRequest, TeamBasedContest))
      && (now <= c.registrationDeadline && !c.isTeamBased && HasRegistration(old(db.registrations), c.contestId, caller.id) ==>
            reply == Err(Conflict, "Already registered for this contest"))
      && (now <= c.registrationDeadline && !c.isTeamBased && !HasRegistration(old(db.registrations), c.contestId, caller.id) ==>
            reply.Ok? && reply.code == Created)
    ensures reply.Err? ==> db.State() == old(db.State())
    ensures reply.Ok? ==>
      && reply.body == NextKey(old(db.registrations), RegistrationKey)
      && db.State() == old(db.State()).(registrations := old(db.registrations) + [Registration(reply.body, contestId.value, caller.id, now)])
  {
    if !GivenId(contestId) {
      return Err(BadRequest, "Contest ID is required");
    }
    var found := ContestById(db.contests, contestId.value);
    if found.None? {
      return Err(NotFound, "Contest not found");
    }
    var contest := found.value;
    if now > contest.registrationDeadline {
      return Err(BadRequest, "Registration deadline has passed");
    }
    if contest.isTeamBased {
      return Err(BadRequest, TeamBasedContest);
    }
    if HasRegistration(db.registrations, contestId.value, caller.id) {
      return Err(Conflict, "Already registered for this contest");
    }
    var id := NextKey(db.registrations, RegistrationKey);
    var row := Registration(id, contestId.value, caller.id, now);
    Transitions.AddRegistration(db.State(), row);
    db.registrations := db.registrations + [row];
    reply := Ok(Created, id);
  }

  /** The write of a cancellation: the one row with the registration's id is deleted. */
  method DeleteRegistration(db: Db, registration: Registration)
    requires db.Valid() && registration in db.registrations
    modifies db
    ensures db.Valid()
    ensures |db.registrations| == |old(db.registrations)| - 1
    ensures db.State() == old(db.State()).(registrations := Without(old(db.registrations), RegistrationKey, registration.registrationId))
  {
    ghost var k :| 0 <= k < |db.registrations| && db.registrations[k] == registration;
    WithoutPresent(db.registrations, RegistrationKey, k);
    Transitions.FilterRegistrations(db.State(), KeyIsNot(RegistrationKey, registration.registrationId));
    db.registrations := Without(db.registrations, RegistrationKey, registration.registrationId);
  }

  /**
   * DELETE /api/registrations/:id. The checks run in order: the registration exists (404),
   * it is the caller's (403), and its contest's registration deadline has not passed (400).
   * The contest lookup is not null-checked, so a registration whose contest is gone fails
   * with 500. On success exactly that one row is deleted.
   */
  method Cancel(db: Db, caller: Identity, id: int, now: int) returns (reply: Reply<string>)
    requires db.Valid()
    modifies db
    ensures db.Valid()
    ensures RegistrationById(old(db.registrations), id).None? ==> reply == Err(NotFound, "Registration not found")
    ensures RegistrationById(old(db.registrations), id).Some? ==>
      var r := RegistrationById(old(db.registrations), id).value;
      var c := ContestById(old(db.contests), r.contestId);
      && (r.studentId != caller.id ==> reply == Err(Forbidden, "You can only cancel your own registration"))
      && (r.studentId == caller.id && c.None? ==> reply == Err(ServerError, "Failed to cancel registration"))
      && (r.studentId == caller.id && c.Some? && now > c.value.registrationDeadline ==>
            reply == Err(BadRequest, "Cannot cancel after registration deadline"))
      && (r.studentId == caller.id && c.Some? && now <= c.value.registrationDeadline ==>
            reply == Ok(OkStatus, "Registration cancelled successfully"))
    ensures reply.Err? ==> db.State() == old(db.State())
    ensures reply.Ok? ==>
      && |db.registrations| == |old(db.registrations)| - 1
      && db.State() == old(db.State()).(registrations := Without(old(db.registrations), RegistrationKey, id))
  {
    var found := RegistrationById(db.registrations, id);
    if found.None? {
      return Err(NotFound, "Registration not found");
    }
    var registration := found.value;
    if registration.studentId != caller.id {
      return Err(Forbidden, "You can only cancel your own registration");
    }
    var contest := ContestById(db.contests, registration.contestId);
    if contest.None? {
      return Err(ServerError, "Failed to cancel registration");
    }
    if now > contest.value.registrationDeadline {
      return Err(BadRequest, "Cannot cancel after registration deadline");
    }
    DeleteRegistration(db, registration);
    reply := Ok(OkStatus, "Registration cancelled successfully");
  }

  function RegisteredAt(e: (Registration, Contest)): int { e.0.registeredAt }

  function RegistrantSince(e: (Registration, Student)): int { e.0.registeredAt }

  /** The WHERE clause `student_id = ?` on contest_registrations. */
  function OfStudent(studentId: int): Registration -> bool {
    (x: Registration) => x.studentId == studentId
  }

  /** The inner join of a registration with its contest. */
  function ContestOfRow(contests: seq<Contest>): Registration -> Option<Contest> {
    (x: Registration) => ContestById(contests, x.contestId)
  }

  /** The inner join of a registration with its student. */
  function StudentOfRow(students: seq<Student>): Registration -> Option<Student> {
    (x: Registration) => StudentById(students, x.studentId)
  }

  /**
   * GET /api/registrations/my: each of the caller's registrations whose contest exists, once,
   * joined with that contest, newest `registered_at` first.
   */
  function MyRegistrations(t: Tables, studentId: int): (r: seq<(Registration, Contest)>)
    ensures SortedDesc(r, RegisteredAt)
    ensures forall e :: e in r <==>
      e.0 in t.registrations && e.0.studentId == studentId && ContestById(t.contests, e.0.contestId) == Some(e.1)
    ensures Consistent(t) ==> forall i, j :: 0 <= i < j < |r| ==> r[i].0.registrationId != r[j].0.registrationId
    ensures |r| <= |t.registrations|
  {
    var joined := Join(Filter(t.registrations, OfStudent(studentId)), ContestOfRow(t.contests));
    var r := SortDesc(joined, RegisteredAt);
    SameElements(r, joined);
    QueryKeepsKeysDistinct(t.registrations, OfStudent(studentId), ContestOfRow(t.contests), RegisteredAt, RegistrationKey);
    r
  }

  /**
   * GET /api/registrations/contest/:id: each of a contest's registrations whose student
   * exists, once, joined with that student, newest `registered_at` first.
   */
  function ContestRegistrations(t: Tables, contestId: int): (r: seq<(Registration, Student)>)
    ensures SortedDesc(r, RegistrantSince)
    ensures forall e :: e in r <==>
      e.0 in t.registrations && e.0.contestId == contestId && StudentById(t.students, e.0.studentId) == Some(e.1)
    ensures Consistent(t) ==> forall i, j :: 0 <= i < j < |r| ==> r[i].0.registrationId != r[j].0.registrationId
    ensures |r| <= |t.registrations|
  {
    var joined := Join(Filter(t.registrations, ForContest(contestId)), StudentOfRow(t.students));
    var r := SortDesc(joined, RegistrantSince);
    SameElements(r, joined);
    QueryKeepsKeysDistinct(t.registrations, ForContest(contestId), StudentOfRow(t.students), RegistrantSince, RegistrationKey);
    r
  }

  /**
   * Registering and then cancelling in the same state, before the deadline, gives back the
   * registrations as they were.
   */
  lemma CancelUndoesRegister(regs: seq<Registration>, row: Registration)
    requires Increasing(regs, RegistrationKey)
    requires forall x :: x in regs ==> x.registrationId < row.registrationId
    ensures Without(regs + [row], RegistrationKey, row.registrationId) == regs
  {
    AppendIncreasing(regs, RegistrationKey, row);
    WithoutPresent(regs + [row], RegistrationKey, |regs|);
    assert (regs + [row])[..|regs|] == regs;
  }
}
