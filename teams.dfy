/**
 * The team routes: a student creates a team for a team-based contest and becomes its leader
 * and first member, other students join it until it is full, members other than the leader
 * leave it, and anyone lists a contest's teams or a student's teams. Creating or joining a
 * team also registers the student for the contest unless a registration already exists.
 */
module Teams {
  import opened Wrappers
  import opened Seqs
  import opened Schema
  import opened Store
  import Transitions

  /**
   * The registrations after "register the student unless already registered": unchanged when
   * a row for (contest, student) exists, otherwise one row with the next rowid appended.
   */
  function EnsureRegistered(regs: seq<Registration>, contestId: int, studentId: int, now: int): (r: seq<Registration>)
    requires Increasing(regs, RegistrationKey)
    ensures HasRegistration(r, contestId, studentId)
    ensures HasRegistration(regs, contestId, studentId) ==> r == regs
  {
    if HasRegistration(regs, contestId, studentId) then regs
    else
      var id := NextKey(regs, RegistrationKey);
      var row := Registration(id, contestId, studentId, now);
      assert row in regs + [row];
      regs + [row]
  }

  /** Without a registration for the pair, exactly one row is appended, with a fresh rowid. */
  lemma EnsureRegisteredAppends(regs: seq<Registration>, contestId: int, studentId: int, now: int)
    requires Increasing(regs, RegistrationKey) && !HasRegistration(regs, contestId, studentId)
    ensures var r := EnsureRegistered(regs, contestId, studentId, now);
      && |r| == |regs| + 1 && r[..|regs|] == regs
      && r[|regs|].contestId == contestId && r[|regs|].studentId == studentId && r[|regs|].registeredAt == now
      && forall x :: x in regs ==> x.registrationId < r[|regs|].registrationId
  {
  }

  /** Ensuring a registration twice is ensuring it once. */
  lemma EnsureRegisteredIdempotent(regs: seq<Registration>, contestId: int, studentId: int, now: int, later: int)
    requires Increasing(regs, RegistrationKey)
    ensures var r := EnsureRegistered(regs, contestId, studentId, now);
      Increasing(r, RegistrationKey) && EnsureRegistered(r, contestId, studentId, later) == r
  {
    var r := EnsureRegistered(regs, contestId, studentId, now);
    if r != regs {
      AppendIncreasing(regs, RegistrationKey, r[|r| - 1]);
      assert r == regs + [r[|r| - 1]];
    }
  }

  /** Ensuring a registration keeps the store's invariant, in particular one row per pair. */
  lemma EnsureRegisteredConsistent(t: Tables, contestId: int, studentId: int, now: int)
    requires Consistent(t)
    ensures Consistent(t.(registrations := EnsureRegistered(t.registrations, contestId, studentId, now)))
  {
    if !HasRegistration(t.registrations, contestId, studentId) {
      var id := NextKey(t.registrations, RegistrationKey);
      Transitions.AddRegistration(t, Registration(id, contestId, studentId, now));
    }
  }

  /** The writes of a team creation keep the invariant when the caller is in no team of the contest. */
  lemma CreateConsistent(t: Tables, team: Team, row: TeamMember, now: int)
    requires Consistent(t)
    requires forall u :: u in t.teams ==> u.teamId < team.teamId
    requires row.teamId == team.teamId && row.studentId == team.teamLeaderId
    requires !InTeamFor(t.teams, t.members, team.contestId, team.teamLeaderId)
    ensures Consistent(t.(teams := t.teams + [team], members := t.members + [row],
                          registrations := EnsureRegistered(t.registrations, team.contestId, team.teamLeaderId, now)))
  {
    Transitions.AddTeam(t, team, row);
    EnsureRegisteredConsistent(t.(teams := t.teams + [team], members := t.members + [row]), team.contestId, team.teamLeaderId, now);
  }

  /** The writes of a join keep the invariant when the caller is in no team of the contest. */
  lemma JoinConsistent(t: Tables, team: Team, row: TeamMember, now: int)
    requires Consistent(t) && team in t.teams && row.teamId == team.teamId
    requires !InTeamFor(t.teams, t.members, team.contestId, row.studentId)
    ensures Consistent(t.(members := t.members + [row],
                          registrations := EnsureRegistered(t.registrations, team.contestId, row.studentId, now)))
  {
    Transitions.AddMember(t, team, row);
    EnsureRegisteredConsistent(t.(members := t.members + [row]), team.contestId, row.studentId, now);
  }

  /**
   * The writes of a team creation: the team row, the leader's membership row, and the
   * leader's registration unless one exists.
   */
  method AddTeam(db: Db, team: Team, row: TeamMember)
    requires db.Valid()
    requires forall u :: u in db.teams ==> u.teamId < team.teamId
    requires row.teamId == team.teamId && row.studentId == team.teamLeaderId
    requires !InTeamFor(db.teams, db.members, team.contestId, team.teamLeaderId)
    modifies db
    ensures db.Valid()
    ensures db.State() == old(db.State()).(teams := old(db.teams) + [team], members := old(db.members) + [row],
      registrations := EnsureRegistered(old(db.registrations), team.contestId, team.teamLeaderId, row.joinedAt))
  {
    CreateConsistent(db.State(), team, row, row.joinedAt);
    db.teams := db.teams + [team];
    db.members := db.members + [row];
    db.registrations := EnsureRegistered(db.registrations, team.contestId, team.teamLeaderId, row.joinedAt);
  }

  /** The writes of a join: the membership row, and the member's registration unless one exists. */
  method AddMember(db: Db, team: Team, row: TeamMember)
    requires db.Valid() && team in db.teams && row.teamId == team.teamId
    requires !InTeamFor(db.teams, db.members, team.contestId, row.studentId)
    modifies db
    ensures db.Valid()
    ensures db.State() == old(db.State()).(members := old(db.members) + [row],
      registrations := EnsureRegistered(old(db.registrations), team.contestId, row.studentId, row.joinedAt))
  {
    JoinConsistent(db.State(), team, row, row.joinedAt);
    db.members := db.members + [row];
    db.registrations := EnsureRegistered(db.registrations, team.contestId, row.studentId, row.joinedAt);
  }

  const AlreadyInTeam: string := "You are already in a team for this contest"

  /**
   * POST /api/teams. The checks run in order: contest id and team name given (400), contest
   * exists (404), contest is team-based (400), registration deadline not passed (400), caller
   * not yet in a team of this contest (409). Then the team is inserted with the caller as
   * leader, the caller's membership row is inserted, and the caller is registered unless
   * already registered.
   */
  method Create(db: Db, caller: Identity, contestId: Option<int>, teamName: Option<string>, now: int)
    returns (reply: Reply<int>)
    requires db.Valid()
    modifies db
    ensures db.Valid()
    ensures !GivenId(contestId) || !GivenText(teamName) ==>
      reply == Err(BadRequest, "Contest ID and team name are required")
    ensures GivenId(contestId) && GivenText(teamName) ==>
      var found := ContestById(old(db.contests), contestId.value);
      && (found.None? ==> reply == Err(NotFound, "Contest not found"))
      && (found.Some? && !found.value.isTeamBased ==> reply == Err(BadRequest, "This contest does not support teams"))
      && (found.Some? && found.value.isTeamBased && now > found.value.registrationDeadline ==>
            reply == Err(BadRequest, "Registration deadline has passed"))
      && (found.Some? && found.value.isTeamBased && now <= found.value.registrationDeadline ==>
            (InTeamFor(old(db.teams), old(db.members), contestId.value, caller.id) <==> reply == Err(Conflict, AlreadyInTeam)))
      && (reply.Ok? <==> found.Some? && found.value.isTeamBased && now <= found.value.registrationDeadline
                         && !InTeamFor(old(db.teams), old(db.members), contestId.value, caller.id))
    ensures reply.Err? ==> db.State() == old(db.State())
    ensures reply.Ok? ==>
      var team := Team(reply.body, contestId.value, teamName.value, caller.id, None);
      && reply.code == Created
      && reply.body == NextKey(old(db.teams), TeamKey)
      && db.State() == old(db.State()).(
           teams := old(db.teams) + [team],
           members := old(db.members) + [TeamMember(reply.body, caller.id, now)],
           registrations := EnsureRegistered(old(db.registrations), contestId.value, caller.id, now))
  {
    if !GivenId(contestId) || !GivenText(teamName) {
      return Err(BadRequest, "Contest ID and team name are required");
    }
    var found := ContestById(db.contests, contestId.value);
    if found.None? {
      return Err(NotFound, "Contest not found");
    }
    var contest := found.value;
    if !contest.isTeamBased {
      return Err(BadRequest, "This contest does not support teams");
    }
    if now > contest.registrationDeadline {
      return Err(BadRequest, "Registration deadline has passed");
    }
    if InTeamFor(db.teams, db.members, contestId.value, caller.id) {
      return Err(Conflict, AlreadyInTeam);
    }
    var id := NextKey(db.teams, TeamKey);
    var team := Team(id, contestId.value, teamName.value, caller.id, None);
    var row := TeamMember(id, caller.id, now);
    AddTeam(db, team, row);
    reply := Ok(Created, id);
  }

  /**
   * POST /api/teams/:id/join. The checks run in order: team exists (404), registration
   * deadline of its contest not passed (400), caller not yet in a team of that contest (409),
   * team not full (400). The contest lookup is not null-checked, so a team whose contest is
   * gone fails with 500. Then one membership row is inserted and the caller is registered
   * unless already registered; the team then has at most `max_team_size` members.
   */
  method Join(db: Db, caller: Identity, teamId: int, now: int) returns (reply: Reply<string>)
    requires db.Valid()
    modifies db
    ensures db.Valid()
    ensures TeamById(old(db.teams), teamId).None? ==> reply == Err(NotFound, "Team not found")
    ensures TeamById(old(db.teams), teamId).Some? ==>
      var team := TeamById(old(db.teams), teamId).value;
      var found := ContestById(old(db.contests), team.contestId);
      var count := MemberCount(old(db.members), teamId);
      && (found.None? ==> reply == Err(ServerError, "Failed to join team"))
      && (found.Some? && now > found.value.registrationDeadline ==>
            reply == Err(BadRequest, "Registration deadline has passed"))
      && (found.Some? && now <= found.value.registrationDeadline && InTeamFor(old(db.teams), old(db.members), team.contestId, caller.id) ==>
            reply == Err(Conflict, AlreadyInTeam))
      && (found.Some? && now <= found.value.registrationDeadline && !InTeamFor(old(db.teams), old(db.members), team.contestId, caller.id) ==>
            (count >= found.value.maxTeamSize <==> reply == Err(BadRequest, "Team is full")))
      && (reply.Ok? <==> found.Some? && now <= found.value.registrationDeadline
                         && !InTeamFor(old(db.teams), old(db.members), team.contestId, caller.id)
                         && count < found.value.maxTeamSize)
      && (reply.Ok? ==>
            && reply == Ok(OkStatus, "Joined team successfully")
            && found.Some?
            && MemberCount(db.members, teamId) == count + 1 <= found.value.maxTeamSize
            && db.State() == old(db.State()).(
                 members := old(db.members) + [TeamMember(teamId, caller.id, now)],
                 registrations := EnsureRegistered(old(db.registrations), team.contestId, caller.id, now)))
    ensures reply.Err? ==> db.State() == old(db.State())
  {
    var foundTeam := TeamById(db.teams, teamId);
    if foundTeam.None? {
      return Err(NotFound, "Team not found");
    }
    var team := foundTeam.value;
    var found := ContestById(db.contests, team.contestId);
    if found.None? {
      return Err(ServerError, "Failed to join team");
    }
    var contest := found.value;
    if now > contest.registrationDeadline {
      return Err(BadRequest, "Registration deadline has passed");
    }
    if InTeamFor(db.teams, db.members, team.contestId, caller.id) {
      return Err(Conflict, AlreadyInTeam);
    }
    var count := MemberCount(db.members, teamId);
    if count >= contest.maxTeamSize {
      return Err(BadRequest, "Team is full");
    }
    JoinRespectsCapacity(db.members, teamId, TeamMember(teamId, caller.id, now), contest.maxTeamSize);
    AddMember(db, team, TeamMember(teamId, caller.id, now));
    reply := Ok(OkStatus, "Joined team successfully");
  }

  /** The WHERE clause `team_id = ? AND student_id = ?` negated: every other membership row. */
  function OtherMembership(teamId: int, studentId: int): TeamMember -> bool {
    (m: TeamMember) => !(m.teamId == teamId && m.studentId == studentId)
  }

  /** The write of a leave: the member's membership row of the team is deleted. */
  method RemoveMember(db: Db, team: Team, studentId: int)
    requires db.Valid() && team in db.teams && team.teamLeaderId != studentId
    modifies db
    ensures db.Valid()
    ensures (team.teamId, studentId) !in Memberships(db.members)
    ensures db.State() == old(db.State()).(members := Filter(old(db.members), OtherMembership(team.teamId, studentId)))
  {
    forall u | u in db.teams && u.teamId == team.teamId ensures u.teamLeaderId != studentId {
      TeamByIdFinds(db.teams, u);
      TeamByIdFinds(db.teams, team);
    }
    Transitions.FilterMembers(db.State(), OtherMembership(team.teamId, studentId));
    db.members := Filter(db.members, OtherMembership(team.teamId, studentId));
  }

  /**
   * DELETE /api/teams/:id/leave. The checks run in order: team exists (404), caller is not
   * its leader (400), caller is a member (404). Then the caller's membership row is deleted;
   * the caller's registration for the contest stays.
   */
  method Leave(db: Db, caller: Identity, teamId: int) returns (reply: Reply<string>)
    requires db.Valid()
    modifies db
    ensures db.Valid()
    ensures TeamById(old(db.teams), teamId).None? ==> reply == Err(NotFound, "Team not found")
    ensures TeamById(old(db.teams), teamId).Some? ==>
      var team := TeamById(old(db.teams), teamId).value;
      && (team.teamLeaderId == caller.id ==>
            reply == Err(BadRequest, "Team leader cannot leave. Transfer leadership or delete the team."))
      && (team.teamLeaderId != caller.id && (teamId, caller.id) !in Memberships(old(db.members)) ==>
            reply == Err(NotFound, "You are not a member of this team"))
      && (team.teamLeaderId != caller.id && (teamId, caller.id) in Memberships(old(db.members)) ==>
            reply == Ok(OkStatus, "Left team successfully"))
    ensures reply.Err? ==> db.State() == old(db.State())
    ensures reply.Ok? ==>
      && (teamId, caller.id) !in Memberships(db.members)
      && db.State() == old(db.State()).(members := Filter(old(db.members), OtherMembership(teamId, caller.id)))
  {
    var found := TeamById(db.teams, teamId);
    if found.None? {
      return Err(NotFound, "Team not found");
    }
    var team := found.value;
    if team.teamLeaderId == caller.id {
      return Err(BadRequest, "Team leader cannot leave. Transfer leadership or delete the team.");
    }
    if (teamId, caller.id) !in Memberships(db.members) {
      return Err(NotFound, "You are not a member of this team");
    }
    RemoveMember(db, team, caller.id);
    reply := Ok(OkStatus, "Left team successfully");
  }

  /** A team with its `member_count`, as the team listings return it. */
  datatype TeamSummary = TeamSummary(team: Team, memberCount: nat)

  function Summary(members: seq<TeamMember>): Team -> TeamSummary {
    (u: Team) => TeamSummary(u, MemberCount(members, u.teamId))
  }

  /** The WHERE clause `contest_id = ?` on teams. */
  function InContest(contestId: int): Team -> bool {
    (u: Team) => u.contestId == contestId
  }

  /**
   * GET /api/teams/contest/:contestId: the contest's teams in table order, each once, with
   * its number of membership rows.
   */
  function TeamsForContest(t: Tables, contestId: int): (r: seq<TeamSummary>)
    ensures |r| <= |t.teams|
    ensures forall e :: e in r <==>
      e.team in t.teams && e.team.contestId == contestId && e.memberCount == MemberCount(t.members, e.team.teamId)
    ensures Consistent(t) ==> forall i, j :: 0 <= i < j < |r| ==> r[i].team.teamId != r[j].team.teamId
  {
    var teams := Filter(t.teams, InContest(contestId));
    var r := Map(teams, Summary(t.members));
    forall e | e in r
      ensures e.team in teams && e.memberCount == MemberCount(t.members, e.team.teamId)
    {
      var i :| 0 <= i < |r| && r[i] == e;
      assert e == Summary(t.members)(teams[i]);
    }
    forall e: TeamSummary | e.team in teams && e.memberCount == MemberCount(t.members, e.team.teamId)
      ensures e in r
    {
      assert e == Summary(t.members)(e.team);
    }
    FilterIncreasing(t.teams, InContest(contestId), TeamKey);
    forall i, j | 0 <= i < j < |r| ensures r[i].team == teams[i] && r[j].team == teams[j] {
      assert r[i] == Summary(t.members)(teams[i]) && r[j] == Summary(t.members)(teams[j]);
    }
    r
  }

  /** A team as the caller's team listing returns it: with its contest and member count. */
  datatype MyTeam = MyTeam(team: Team, contest: Contest, memberCount: nat)

  /** A membership row of the caller with its team and the team's contest. */
  type MyTeamRow = ((TeamMember, Team), Contest)

  function MyTeamOf(members: seq<TeamMember>): MyTeamRow -> MyTeam {
    (p: MyTeamRow) => MyTeam(p.0.1, p.1, MemberCount(members, p.0.1.teamId))
  }

  /** The WHERE clause `tm.student_id = ?` on team_members. */
  function MemberIs(studentId: int): TeamMember -> bool {
    (m: TeamMember) => m.studentId == studentId
  }

  /** The join of a membership row with its team. */
  function TeamOfMember(teams: seq<Team>): TeamMember -> Option<Team> {
    (m: TeamMember) => TeamById(teams, m.teamId)
  }

  /** The join of a membership row's team with the team's contest. */
  function ContestOfTeam(contests: seq<Contest>): ((TeamMember, Team)) -> Option<Contest> {
    (p: (TeamMember, Team)) => ContestById(contests, p.1.contestId)
  }

  /** The student's membership rows, joined with their teams and the teams' contests. */
  function StudentRows(t: Tables, studentId: int): seq<MyTeamRow> {
    Seqs.Join(Seqs.Join(Filter(t.members, MemberIs(studentId)), TeamOfMember(t.teams)), ContestOfTeam(t.contests))
  }

  predicate DifferentTeams(x: TeamMember, y: TeamMember) { x.teamId != y.teamId }

  predicate DifferentTeamRows(p: (TeamMember, Team), q: (TeamMember, Team)) { p.0.teamId != q.0.teamId }

  predicate DifferentStudents(x: TeamMember, y: TeamMember) { x.studentId != y.studentId }

  /** Under the invariant a student's membership rows, and the rows joined to them, name distinct teams. */
  lemma StudentRowsDistinct(t: Tables, studentId: int)
    ensures Consistent(t) ==> PairwiseLeft(StudentRows(t, studentId), DifferentTeamRows)
  {
    if Consistent(t) {
      MembershipsUnique(t.teams, t.members);
      var mine := Filter(t.members, MemberIs(studentId));
      FilterPairwise(t.members, MemberIs(studentId), DistinctMemberships);
      forall i, j | 0 <= i < j < |mine| ensures DifferentTeams(mine[i], mine[j]) {
        assert mine[i] in mine && mine[j] in mine;
      }
      JoinPairwise(mine, TeamOfMember(t.teams), DifferentTeams);
      var withTeams := Seqs.Join(mine, TeamOfMember(t.teams));
      assert Pairwise(withTeams, DifferentTeamRows);
      JoinPairwise(withTeams, ContestOfTeam(t.contests), DifferentTeamRows);
    }
  }

  /** The caller's membership rows joined with their teams and the teams' contests, each row once. */
  function MyTeamRows(t: Tables, studentId: int): (r: seq<MyTeamRow>)
    ensures |r| <= |t.members|
    ensures forall p :: p in r <==>
      && p.0.0 in t.members && p.0.0.studentId == studentId
      && TeamById(t.teams, p.0.0.teamId) == Some(p.0.1)
      && ContestById(t.contests, p.0.1.contestId) == Some(p.1)
    ensures Consistent(t) ==> forall i, j :: 0 <= i < j < |r| ==> r[i].0.0.teamId != r[j].0.0.teamId
  {
    StudentRowsDistinct(t, studentId);
    StudentRows(t, studentId)
  }

  /** The entries the caller's team listing builds from the caller's membership rows. */
  lemma MyTeamsFromRows(t: Tables, studentId: int)
    ensures var r := Map(MyTeamRows(t, studentId), MyTeamOf(t.members));
      && (forall e :: e in r <==>
           && (e.team.teamId, studentId) in Memberships(t.members)
           && TeamById(t.teams, e.team.teamId) == Some(e.team)
           && ContestById(t.contests, e.team.contestId) == Some(e.contest)
           && e.memberCount == MemberCount(t.members, e.team.teamId))
      && (Consistent(t) ==> forall i, j :: 0 <= i < j < |r| ==> r[i].team.teamId != r[j].team.teamId)
  {
    var rows := MyTeamRows(t, studentId);
    var r := Map(rows, MyTeamOf(t.members));
    forall e: MyTeam | e in r
      ensures (e.team.teamId, studentId) in Memberships(t.members)
      ensures TeamById(t.teams, e.team.teamId) == Some(e.team)
    {
      var i :| 0 <= i < |r| && r[i] == e;
      var p := rows[i];
      assert p in rows;
      assert e == MyTeamOf(t.members)(p);
      assert (p.0.0.teamId, p.0.0.studentId) in Memberships(t.members);
    }
    forall e: MyTeam | (e.team.teamId, studentId) in Memberships(t.members)
      && TeamById(t.teams, e.team.teamId) == Some(e.team)
      && ContestById(t.contests, e.team.contestId) == Some(e.contest)
      && e.memberCount == MemberCount(t.members, e.team.teamId)
      ensures e in r
    {
      var m :| m in t.members && (m.teamId, m.studentId) == (e.team.teamId, studentId);
      var p := ((m, e.team), e.contest);
      assert p in rows;
      assert e == MyTeamOf(t.members)(p);
    }
    forall i | 0 <= i < |r| ensures r[i].team.teamId == rows[i].0.0.teamId {
      assert rows[i] in rows;
      assert r[i] == MyTeamOf(t.members)(rows[i]);
    }
  }

  /**
   * GET /api/teams/my/all: one entry per membership row of the caller whose team and whose
   * team's contest exist.
   */
  function MyTeams(t: Tables, studentId: int): (r: seq<MyTeam>)
    ensures |r| <= |t.members|
    ensures forall e :: e in r <==>
      && (e.team.teamId, studentId) in Memberships(t.members)
      && TeamById(t.teams, e.team.teamId) == Some(e.team)
      && ContestById(t.contests, e.team.contestId) == Some(e.contest)
      && e.memberCount == MemberCount(t.members, e.team.teamId)
    ensures Consistent(t) ==> forall i, j :: 0 <= i < j < |r| ==> r[i].team.teamId != r[j].team.teamId
  {
    MyTeamsFromRows(t, studentId);
    Map(MyTeamRows(t, studentId), MyTeamOf(t.members))
  }

  /** A team with its members, as GET /api/teams/:id returns it. */
  datatype TeamDetail = TeamDetail(team: Team, contest: Option<Contest>, members: seq<(TeamMember, Student)>)

  /** The join of a membership row with its student. */
  function StudentOfMember(students: seq<Student>): TeamMember -> Option<Student> {
    (m: TeamMember) => StudentById(students, m.studentId)
  }

  /** Under the invariant a team's membership rows, and the rows joined to them, name distinct students. */
  lemma TeamRowsDistinct(t: Tables, teamId: int)
    ensures Consistent(t) ==>
      PairwiseLeft(Seqs.Join(Filter(t.members, OfTeam(teamId)), StudentOfMember(t.students)), DifferentStudents)
  {
    if Consistent(t) {
      MembershipsUnique(t.teams, t.members);
      var rows := Filter(t.members, OfTeam(teamId));
      FilterPairwise(t.members, OfTeam(teamId), DistinctMemberships);
      forall i, j | 0 <= i < j < |rows| ensures DifferentStudents(rows[i], rows[j]) {
        assert rows[i] in rows && rows[j] in rows;
      }
      JoinPairwise(rows, StudentOfMember(t.students), DifferentStudents);
    }
  }

  /**
   * GET /api/teams/:id: 404 for an unknown team; otherwise the team, its contest when it
   * exists (a LEFT JOIN), and each of its membership rows once, joined with the student.
   */
  function TeamDetails(t: Tables, teamId: int): (r: Reply<TeamDetail>)
    ensures TeamById(t.teams, teamId).None? <==> r == Err(NotFound, "Team not found")
    ensures r.Ok? ==>
      && r.code == OkStatus
      && Some(r.body.team) == TeamById(t.teams, teamId)
      && r.body.contest == ContestById(t.contests, r.body.team.contestId)
      && (forall e :: e in r.body.members <==>
           e.0 in t.members && e.0.teamId == teamId && StudentById(t.students, e.0.studentId) == Some(e.1))
      && (Consistent(t) ==> forall i, j :: 0 <= i < j < |r.body.members| ==>
           r.body.members[i].0.studentId != r.body.members[j].0.studentId)
  {
    match TeamById(t.teams, teamId)
    case None => Err(NotFound, "Team not found")
    case Some(team) =>
      TeamRowsDistinct(t, teamId);
      Ok(OkStatus, TeamDetail(team, ContestById(t.contests, team.contestId),
                              Seqs.Join(Filter(t.members, OfTeam(teamId)), StudentOfMember(t.students))))
  }

  /** A successful join never takes a team past its capacity; a full team refuses every join. */
  lemma JoinRespectsCapacity(members: seq<TeamMember>, teamId: int, row: TeamMember, maxTeamSize: int)
    requires row.teamId == teamId && MemberCount(members, teamId) < maxTeamSize
    ensures MemberCount(members + [row], teamId) == MemberCount(members, teamId) + 1 <= maxTeamSize
  {
    FilterAppend(members, OfTeam(teamId), row);
  }
}
