/**
 * The mentor routes: coordinators create mentors, list them and assign them to contests and
 * teams; a mentor lists the contests and teams assigned to them. Password hashing is the
 * `hash` parameter, standing for the bcrypt call.
 */
module Mentors {
  import opened Wrappers
  import opened Seqs
  import opened Schema
  import opened Store
  import Transitions

  /** A mentor as the list shows it: every column but the password hash. */
  datatype MentorView = MentorView(mentorId: int, name: string, email: string, department: string, phoneNo: Option<string>)

  function ViewOf(m: Mentor): (v: MentorView)
    ensures v.mentorId == m.mentorId && v.name == m.name && v.email == m.email
    ensures v.department == m.department && v.phoneNo == m.phoneNo
  {
    MentorView(m.mentorId, m.name, m.email, m.department, m.phoneNo)
  }

  /** A new mentor as the create reply shows it: the new id and the fields the request gave. */
  datatype CreatedMentor = CreatedMentor(mentorId: int, name: string, email: string, department: string)

  predicate EmailTaken(mentors: seq<Mentor>, email: string) {
    exists m :: m in mentors && m.email == email
  }

  /** The write of a create: one mentor row appended. */
  method InsertMentor(db: Db, m: Mentor)
    requires db.Valid()
    requires forall x :: x in db.mentors ==> x.mentorId < m.mentorId
    requires !EmailTaken(db.mentors, m.email)
    modifies db
    ensures db.Valid()
    ensures db.State() == old(db.State()).(mentors := old(db.mentors) + [m])
  {
    Transitions.AddMentor(db.State(), m);
    db.mentors := db.mentors + [m];
  }

  /**
   * POST /api/mentors: 400 unless name, e-mail, password and department are all given, 409
   * when a mentor already has the e-mail, and otherwise one mentor row with the next id and
   * the hashed password; the reply shows the new id, name, e-mail and department.
   */
  method Create(db: Db, name: Option<string>, email: Option<string>, password: Option<string>,
                department: Option<string>, hash: string -> string) returns (reply: Reply<CreatedMentor>)
    requires db.Valid()
    modifies db
    ensures db.Valid()
    ensures !(GivenText(name) && GivenText(email) && GivenText(password) && GivenText(department)) ==>
      reply == Err(BadRequest, "Name, email, password, and department are required")
    ensures GivenText(name) && GivenText(email) && GivenText(password) && GivenText(department) ==>
      && (EmailTaken(old(db.mentors), email.value) ==> reply == Err(Conflict, "A mentor with this email already exists"))
      && (!EmailTaken(old(db.mentors), email.value) ==> reply.Ok? && reply.code == Created)
    ensures reply.Err? ==> db.State() == old(db.State())
    ensures reply.Ok? ==>
      var m := Mentor(NextKey(old(db.mentors), MentorKey), name.value, email.value, department.value, None, hash(password.value));
      && reply.body == CreatedMentor(m.mentorId, name.value, email.value, department.value)
      && db.State() == old(db.State()).(mentors := old(db.mentors) + [m])
  {
    if !GivenText(name) || !GivenText(email) || !GivenText(password) || !GivenText(department) {
      return Err(BadRequest, "Name, email, password, and department are required");
    }
    if EmailTaken(db.mentors, email.value) {
      return Err(Conflict, "A mentor with this email already exists");
    }
    var m := Mentor(NextKey(db.mentors, MentorKey), name.value, email.value, department.value, None, hash(password.value));
    InsertMentor(db, m);
    reply := Ok(Created, CreatedMentor(m.mentorId, m.name, m.email, m.department));
  }

  /** Mentor e-mails stay unique: a second create with the same e-mail is refused. */
  lemma SecondCreateConflicts(mentors: seq<Mentor>, m: Mentor)
    ensures EmailTaken(mentors + [m], m.email)
  {
    assert (mentors + [m])[|mentors|] == m;
  }

  /** GET /api/mentors: every mentor, in table order, without password hashes. */
  function List(t: Tables): (r: seq<MentorView>)
    ensures |r| == |t.mentors|
    ensures forall i :: 0 <= i < |r| ==> r[i] == ViewOf(t.mentors[i])
  {
    Map(t.mentors, ViewOf)
  }

  function ContestDeadline(c: Contest): int { c.registrationDeadline }

  function AssignedTo(mentorId: int): Contest -> bool {
    (c: Contest) => c.mentorId == Some(mentorId)
  }

  /** GET /api/mentors/my/contests: the contests assigned to the mentor, latest registration deadline first. */
  function MyContests(t: Tables, mentorId: int): (r: seq<Contest>)
    ensures SortedDesc(r, ContestDeadline)
    ensures forall c :: c in r <==> c in t.contests && c.mentorId == Some(mentorId)
    ensures multiset(r) == multiset(Filter(t.contests, AssignedTo(mentorId)))
  {
    var mine := Filter(t.contests, AssignedTo(mentorId));
    var r := SortDesc(mine, ContestDeadline);
    SameElements(r, mine);
    r
  }

  /** A team as the mentor's team list shows it. */
  datatype MentorTeam = MentorTeam(team: Team, contestTitle: string, leaderName: Option<string>, memberCount: nat)

  function TeamRowOf(t: Tables): ((Team, Contest)) -> MentorTeam {
    (p: (Team, Contest)) => MentorTeam(p.0, p.1.title, LeaderName(t.students, p.0.teamLeaderId), MemberCount(t.members, p.0.teamId))
  }

  function LeaderName(students: seq<Student>, id: int): Option<string> {
    match StudentById(students, id)
    case None => None
    case Some(s) => Some(s.name)
  }

  function TeamContest(contests: seq<Contest>): Team -> Option<Contest> {
    (u: Team) => ContestById(contests, u.contestId)
  }

  /** The WHERE clause `t.mentor_id = ?` on teams. */
  function MentoredBy(mentorId: int): Team -> bool {
    (u: Team) => u.mentorId == Some(mentorId)
  }

  /**
   * GET /api/mentors/my/teams: each team assigned to the mentor whose contest exists (an
   * inner join), once, in table order, with the contest title and member count.
   */
  function MyTeams(t: Tables, mentorId: int): (r: seq<MentorTeam>)
    ensures |r| <= |t.teams|
    ensures forall e :: e in r <==>
      && e.team in t.teams && e.team.mentorId == Some(mentorId)
      && (exists c :: ContestById(t.contests, e.team.contestId) == Some(c) && e.contestTitle == c.title)
      && e.leaderName == LeaderName(t.students, e.team.teamLeaderId)
      && e.memberCount == MemberCount(t.members, e.team.teamId)
    ensures Consistent(t) ==> forall i, j :: 0 <= i < j < |r| ==> r[i].team.teamId != r[j].team.teamId
  {
    var mine := Filter(t.teams, MentoredBy(mentorId));
    var joined := Seqs.Join(mine, TeamContest(t.contests));
    FilterJoinKeysDistinct(t.teams, MentoredBy(mentorId), TeamContest(t.contests), TeamKey);
    var r := Map(joined, TeamRowOf(t));
    forall e | e in r
      ensures e.team in mine && ContestById(t.contests, e.team.contestId).Some?
      ensures e.contestTitle == ContestById(t.contests, e.team.contestId).value.title
    {
      var i :| 0 <= i < |r| && r[i] == e;
      assert joined[i] in joined;
    }
    forall e: MentorTeam | && e.team in t.teams && e.team.mentorId == Some(mentorId)
      && (exists c :: ContestById(t.contests, e.team.contestId) == Some(c) && e.contestTitle == c.title)
      && e.leaderName == LeaderName(t.students, e.team.teamLeaderId)
      && e.memberCount == MemberCount(t.members, e.team.teamId)
      ensures e in r
    {
      var c :| ContestById(t.contests, e.team.contestId) == Some(c) && e.contestTitle == c.title;
      assert (e.team, c) in joined;
      assert e == TeamRowOf(t)((e.team, c));
    }
    forall i | 0 <= i < |r| ensures r[i].team == joined[i].0 {
      assert r[i] == TeamRowOf(t)(joined[i]);
    }
    r
  }

  /**
   * POST /api/mentors/assign/contest: 400 unless both ids are given, 404 for an unknown
   * contest, then 404 for an unknown mentor; otherwise only that contest's mentor changes.
   */
  method AssignContest(db: Db, contestId: Option<int>, mentorId: Option<int>) returns (reply: Reply<string>)
    requires db.Valid()
    modifies db
    ensures db.Valid()
    ensures !(GivenId(contestId) && GivenId(mentorId)) ==> reply == Err(BadRequest, "Contest ID and Mentor ID are required")
    ensures GivenId(contestId) && GivenId(mentorId) ==>
      && (ContestById(old(db.contests), contestId.value).None? ==> reply == Err(NotFound, "Contest not found"))
      && (ContestById(old(db.contests), contestId.value).Some? && MentorById(old(db.mentors), mentorId.value).None? ==>
            reply == Err(NotFound, "Mentor not found"))
      && (ContestById(old(db.contests), contestId.value).Some? && MentorById(old(db.mentors), mentorId.value).Some? ==>
            && reply == Ok(OkStatus, "Mentor assigned to contest successfully")
            && db.State() == old(db.State()).(contests := Replace(old(db.contests), ContestKey, contestId.value,
                 ContestById(old(db.contests), contestId.value).value.(mentorId := mentorId))))
    ensures reply.Err? ==> db.State() == old(db.State())
  {
    if !GivenId(contestId) || !GivenId(mentorId) {
      return Err(BadRequest, "Contest ID and Mentor ID are required");
    }
    var contest := ContestById(db.contests, contestId.value);
    if contest.None? {
      return Err(NotFound, "Contest not found");
    }
    if MentorById(db.mentors, mentorId.value).None? {
      return Err(NotFound, "Mentor not found");
    }
    SetContestMentor(db, contest.value, mentorId);
    reply := Ok(OkStatus, "Mentor assigned to contest successfully");
  }

  /** The write of a contest assignment: that contest's row with the new mentor. */
  method SetContestMentor(db: Db, c: Contest, mentorId: Option<int>)
    requires db.Valid()
    modifies db
    ensures db.Valid()
    ensures db.State() == old(db.State()).(contests := Replace(old(db.contests), ContestKey, c.contestId, c.(mentorId := mentorId)))
  {
    Transitions.ReplaceContest(db.State(), c.contestId, c.(mentorId := mentorId));
    db.contests := Replace(db.contests, ContestKey, c.contestId, c.(mentorId := mentorId));
  }

  /**
   * An assignment changes only the mentor of the one contest it names: every other row,
   * and every other column of that row, is as before.
   */
  lemma AssignChangesOnlyMentor(contests: seq<Contest>, c: Contest, mentorId: int)
    requires Increasing(contests, ContestKey) && c in contests
    ensures var r := Replace(contests, ContestKey, c.contestId, c.(mentorId := Some(mentorId)));
      && |r| == |contests|
      && (forall i :: 0 <= i < |r| && contests[i] != c ==> r[i] == contests[i])
      && (forall i :: 0 <= i < |r| && contests[i] == c ==> r[i] == c.(mentorId := Some(mentorId)))
  {
    var r := Replace(contests, ContestKey, c.contestId, c.(mentorId := Some(mentorId)));
    forall i | 0 <= i < |r| && contests[i] != c
      ensures r[i] == contests[i]
    {
      if contests[i].contestId == c.contestId {
        ContestKeyUnique(contests, contests[i], c);
      }
    }
  }

  /** The write of a team assignment: that team's row with the new mentor. */
  method SetTeamMentor(db: Db, team: Team, mentorId: int)
    requires db.Valid() && team in db.teams
    modifies db
    ensures db.Valid()
    ensures db.State() == old(db.State()).(teams := Replace(old(db.teams), TeamKey, team.teamId, team.(mentorId := Some(mentorId))))
  {
    var v := team.(mentorId := Some(mentorId));
    forall u | u in db.teams && u.teamId == team.teamId
      ensures u.contestId == v.contestId && u.teamLeaderId == v.teamLeaderId
    {
      TeamByIdFinds(db.teams, u);
      TeamByIdFinds(db.teams, team);
    }
    Transitions.ReplaceTeam(db.State(), team.teamId, v);
    db.teams := Replace(db.teams, TeamKey, team.teamId, v);
  }

  /**
   * POST /api/mentors/assign/team: the same checks in the same order for a team, and
   * otherwise only that team's mentor changes.
   */
  method AssignTeam(db: Db, teamId: Option<int>, mentorId: Option<int>) returns (reply: Reply<string>)
    requires db.Valid()
    modifies db
    ensures db.Valid()
    ensures !(GivenId(teamId) && GivenId(mentorId)) ==> reply == Err(BadRequest, "Team ID and Mentor ID are required")
    ensures GivenId(teamId) && GivenId(mentorId) ==>
      && (TeamById(old(db.teams), teamId.value).None? ==> reply == Err(NotFound, "Team not found"))
      && (TeamById(old(db.teams), teamId.value).Some? && MentorById(old(db.mentors), mentorId.value).None? ==>
            reply == Err(NotFound, "Mentor not found"))
      && (TeamById(old(db.teams), teamId.value).Some? && MentorById(old(db.mentors), mentorId.value).Some? ==>
            && reply == Ok(OkStatus, "Mentor assigned to team successfully")
            && db.State() == old(db.State()).(teams := Replace(old(db.teams), TeamKey, teamId.value,
                 TeamById(old(db.teams), teamId.value).value.(mentorId := mentorId))))
    ensures reply.Err? ==> db.State() == old(db.State())
  {
    if !GivenId(teamId) || !GivenId(mentorId) {
      return Err(BadRequest, "Team ID and Mentor ID are required");
    }
    var team := TeamById(db.teams, teamId.value);
    if team.None? {
      return Err(NotFound, "Team not found");
    }
    if MentorById(db.mentors, mentorId.value).None? {
      return Err(NotFound, "Mentor not found");
    }
    SetTeamMentor(db, team.value, mentorId.value);
    reply := Ok(OkStatus, "Mentor assigned to team successfully");
  }
}
