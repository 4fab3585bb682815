/**
 * The relational store as in-memory tables. Each table is the sequence of its rows in rowid
 * order, which is the order a SQLite table scan returns them in. `Db` is the one database
 * object every route handler reads and writes; `Tables` is a snapshot of its contents.
 */
module Store {
  import opened Wrappers
  import opened Seqs
  import opened Schema

  datatype Tables = Tables(
    students: seq<Student>, coordinators: seq<Coordinator>, mentors: seq<Mentor>,
    contests: seq<Contest>, registrations: seq<Registration>, teams: seq<Team>,
    members: seq<TeamMember>, chats: seq<Chat>, messages: seq<Message>)

  // Primary keys.
  function StudentKey(s: Student): int { s.studentId }
  function CoordinatorKey(c: Coordinator): int { c.coordinatorId }
  function MentorKey(m: Mentor): int { m.mentorId }
  function ContestKey(c: Contest): int { c.contestId }
  function RegistrationKey(r: Registration): int { r.registrationId }
  function TeamKey(t: Team): int { t.teamId }
  function ChatKey(c: Chat): int { c.chatId }
  function MessageKey(m: Message): int { m.messageId }

  /** No two registration rows are for the same (contest, student) pair. */
  predicate DistinctPairs(a: Registration, b: Registration) {
    !(a.contestId == b.contestId && a.studentId == b.studentId)
  }

  ghost predicate RegistrationsUnique(regs: seq<Registration>) {
    Pairwise(regs, DistinctPairs)
  }

  /** Student sign-up refuses an e-mail or a register number that is already taken. */
  predicate DistinctStudents(a: Student, b: Student) {
    a.email != b.email && a.registerNo != b.registerNo
  }

  /** Mentor creation refuses an e-mail that is already taken. */
  predicate DistinctMentors(a: Mentor, b: Mentor) {
    a.email != b.email
  }

  /** The ids of the teams in a table. */
  function TeamIds(teams: seq<Team>): set<int> {
    set u | u in teams :: u.teamId
  }

  /** The (team, student) pairs of the membership table. */
  function Memberships(members: seq<TeamMember>): set<(int, int)> {
    set m | m in members :: (m.teamId, m.studentId)
  }

  /** Every membership row belongs to a team that exists. */
  ghost predicate MembersHaveTeams(teams: seq<Team>, members: seq<TeamMember>) {
    forall m :: m in members ==> m.teamId in TeamIds(teams)
  }

  /**
   * Two membership rows of one student are in teams of different contests (when both rows
   * are of the same student, every pair of teams they name belong to different contests).
   */
  ghost predicate Compatible(teams: seq<Team>, x: TeamMember, y: TeamMember) {
    x.studentId == y.studentId ==>
      forall a, b :: a in teams && b in teams && a.teamId == x.teamId && b.teamId == y.teamId ==> a.contestId != b.contestId
  }

  /** A student is in at most one team per contest. */
  ghost predicate TeamsExclusive(teams: seq<Team>, members: seq<TeamMember>) {
    forall i, j :: 0 <= i < j < |members| ==> Compatible(teams, members[i], members[j])
  }

  /** Every team's leader is one of its members. */
  ghost predicate LeadersAreMembers(teams: seq<Team>, members: seq<TeamMember>) {
    forall u :: u in teams ==> (u.teamId, u.teamLeaderId) in Memberships(members)
  }

  /** Two membership rows name different (team, student) pairs. */
  predicate DistinctMemberships(x: TeamMember, y: TeamMember) {
    x.teamId != y.teamId || x.studentId != y.studentId
  }

  /**
   * No (team, student) pair has two membership rows: both rows would put the student in two
   * teams of one contest, the team's own.
   */
  lemma MembershipsUnique(teams: seq<Team>, members: seq<TeamMember>)
    requires MembersHaveTeams(teams, members) && TeamsExclusive(teams, members)
    ensures Pairwise(members, DistinctMemberships)
  {
    forall i, j | 0 <= i < j < |members| ensures DistinctMemberships(members[i], members[j]) {
      var x, y := members[i], members[j];
      if x.studentId == y.studentId {
        assert x in members && Compatible(teams, x, y);
        var u :| u in teams && u.teamId == x.teamId;
        assert u.teamId == y.teamId ==> u.contestId != u.contestId;
      }
    }
  }

  /** The invariant every handler keeps. */
  ghost predicate Consistent(t: Tables) {
    && Increasing(t.students, StudentKey)
    && Increasing(t.coordinators, CoordinatorKey)
    && Increasing(t.mentors, MentorKey)
    && Increasing(t.contests, ContestKey)
    && Increasing(t.registrations, RegistrationKey)
    && Increasing(t.teams, TeamKey)
    && Increasing(t.chats, ChatKey)
    && Increasing(t.messages, MessageKey)
    && Pairwise(t.students, DistinctStudents)
    && Pairwise(t.mentors, DistinctMentors)
    && RegistrationsUnique(t.registrations)
    && MembersHaveTeams(t.teams, t.members)
    && TeamsExclusive(t.teams, t.members)
    && LeadersAreMembers(t.teams, t.members)
    && (forall m :: m in t.messages ==> OneSender(m))
    && MessagesInFirstChats(t.chats, t.messages)
  }

  /**
   * A chat id names the chat the contest's chat lookup finds. Chats are created on demand
   * without a uniqueness constraint, so a contest can own more than one chat row, but every
   * lookup by contest finds the first one, and only that one ever receives messages.
   */
  predicate InFirstChat(chats: seq<Chat>, chatId: int) {
    match ChatById(chats, chatId)
    case None => false
    case Some(ch) => ChatOf(chats, ch.contestId) == Some(ch)
  }

  ghost predicate MessagesInFirstChats(chats: seq<Chat>, messages: seq<Message>) {
    forall m :: m in messages ==> InFirstChat(chats, m.chatId)
  }

  // Lookups by key, as `SELECT * FROM <table> WHERE <key> = ?` followed by `.get()`.

  function ContestById(contests: seq<Contest>, id: int): (r: Option<Contest>)
    ensures r.Some? ==> r.value in contests && r.value.contestId == id
    ensures r.None? <==> forall c :: c in contests ==> c.contestId != id
  {
    Find(contests, (c: Contest) => c.contestId == id)
  }

  function TeamById(teams: seq<Team>, id: int): (r: Option<Team>)
    ensures r.Some? ==> r.value in teams && r.value.teamId == id
    ensures r.None? <==> forall t :: t in teams ==> t.teamId != id
  {
    Find(teams, (t: Team) => t.teamId == id)
  }

  function StudentById(students: seq<Student>, id: int): (r: Option<Student>)
    ensures r.Some? ==> r.value in students && r.value.studentId == id
    ensures r.None? <==> forall s :: s in students ==> s.studentId != id
  {
    Find(students, (s: Student) => s.studentId == id)
  }

  function CoordinatorById(coordinators: seq<Coordinator>, id: int): (r: Option<Coordinator>)
    ensures r.Some? ==> r.value in coordinators && r.value.coordinatorId == id
    ensures r.None? <==> forall c :: c in coordinators ==> c.coordinatorId != id
  {
    Find(coordinators, (c: Coordinator) => c.coordinatorId == id)
  }

  function MentorById(mentors: seq<Mentor>, id: int): (r: Option<Mentor>)
    ensures r.Some? ==> r.value in mentors && r.value.mentorId == id
    ensures r.None? <==> forall m :: m in mentors ==> m.mentorId != id
  {
    Find(mentors, (m: Mentor) => m.mentorId == id)
  }

  function RegistrationById(regs: seq<Registration>, id: int): (r: Option<Registration>)
    ensures r.Some? ==> r.value in regs && r.value.registrationId == id
    ensures r.None? <==> forall x :: x in regs ==> x.registrationId != id
  {
    Find(regs, (x: Registration) => x.registrationId == id)
  }

  function MessageById(messages: seq<Message>, id: int): (r: Option<Message>)
    ensures r.Some? ==> r.value in messages && r.value.messageId == id
    ensures r.None? <==> forall m :: m in messages ==> m.messageId != id
  {
    Find(messages, (m: Message) => m.messageId == id)
  }

  function ChatIdIs(id: int): Chat -> bool {
    (c: Chat) => c.chatId == id
  }

  function ChatFor(contestId: int): Chat -> bool {
    (c: Chat) => c.contestId == contestId
  }

  function ChatById(chats: seq<Chat>, id: int): (r: Option<Chat>)
    ensures r.Some? ==> r.value in chats && r.value.chatId == id
    ensures r.None? <==> forall c :: c in chats ==> c.chatId != id
  {
    Find(chats, ChatIdIs(id))
  }

  /** `SELECT * FROM contest_chats WHERE contest_id = ?`: the first chat row of a contest. */
  function ChatOf(chats: seq<Chat>, contestId: int): (r: Option<Chat>)
    ensures r.Some? ==> r.value in chats && r.value.contestId == contestId
    ensures r.None? <==> forall c :: c in chats ==> c.contestId != contestId
  {
    Find(chats, ChatFor(contestId))
  }

  /** With unique keys, a lookup finds the one row that has the key. */
  lemma TeamByIdFinds(teams: seq<Team>, t: Team)
    requires Increasing(teams, TeamKey) && t in teams
    ensures TeamById(teams, t.teamId) == Some(t)
  {
    var r := TeamById(teams, t.teamId);
    var i :| 0 <= i < |teams| && teams[i] == t;
    var j :| 0 <= j < |teams| && teams[j] == r.value;
    assert TeamKey(teams[i]) == TeamKey(teams[j]);
  }

  lemma ContestKeyUnique(contests: seq<Contest>, x: Contest, y: Contest)
    requires Increasing(contests, ContestKey) && x in contests && y in contests
    requires x.contestId == y.contestId
    ensures x == y
  {
    var i :| 0 <= i < |contests| && contests[i] == x;
    var j :| 0 <= j < |contests| && contests[j] == y;
    assert ContestKey(contests[i]) == ContestKey(contests[j]);
  }

  lemma ChatByIdFinds(chats: seq<Chat>, x: Chat)
    requires Increasing(chats, ChatKey) && x in chats
    ensures ChatById(chats, x.chatId) == Some(x)
  {
    var r := ChatById(chats, x.chatId);
    var i :| 0 <= i < |chats| && chats[i] == x;
    var j :| 0 <= j < |chats| && chats[j] == r.value;
    assert ChatKey(chats[i]) == ChatKey(chats[j]);
  }

  lemma RegistrationByIdFinds(regs: seq<Registration>, x: Registration)
    requires Increasing(regs, RegistrationKey) && x in regs
    ensures RegistrationById(regs, x.registrationId) == Some(x)
  {
    var r := RegistrationById(regs, x.registrationId);
    var i :| 0 <= i < |regs| && regs[i] == x;
    var j :| 0 <= j < |regs| && regs[j] == r.value;
    assert RegistrationKey(regs[i]) == RegistrationKey(regs[j]);
  }

  /** The SQL check for an existing (contest, student) registration row. */
  predicate HasRegistration(regs: seq<Registration>, contestId: int, studentId: int) {
    exists r :: r in regs && r.contestId == contestId && r.studentId == studentId
  }

  /** The join `teams t JOIN team_members tm ON t.team_id = tm.team_id WHERE t.contest_id = ? AND tm.student_id = ?` is non-empty. */
  predicate InTeamFor(teams: seq<Team>, members: seq<TeamMember>, contestId: int, studentId: int) {
    exists t, m :: t in teams && m in members && t.teamId == m.teamId && t.contestId == contestId && m.studentId == studentId
  }

  /** The WHERE clause `team_id = ?` on team_members. */
  function OfTeam(teamId: int): TeamMember -> bool {
    (m: TeamMember) => m.teamId == teamId
  }

  /** The WHERE clause `contest_id = ?` on contest_registrations. */
  function ForContest(contestId: int): Registration -> bool {
    (r: Registration) => r.contestId == contestId
  }

  // The WHERE clauses of the deletes that remove a contest's rows, each kept as the rows it spares.

  /** Membership rows not of any of the given teams. */
  function NotInTeams(ids: seq<int>): TeamMember -> bool {
    (m: TeamMember) => m.teamId !in ids
  }

  /** Membership rows not of the given team. */
  function NotOfTeam(teamId: int): TeamMember -> bool {
    (m: TeamMember) => m.teamId != teamId
  }

  function TeamNotFor(contestId: int): Team -> bool {
    (u: Team) => u.contestId != contestId
  }

  function RegistrationNotFor(contestId: int): Registration -> bool {
    (r: Registration) => r.contestId != contestId
  }

  function ChatNotFor(contestId: int): Chat -> bool {
    (c: Chat) => c.contestId != contestId
  }

  function MessageNotIn(chatId: int): Message -> bool {
    (m: Message) => m.chatId != chatId
  }

  /** `SELECT COUNT(*) FROM team_members WHERE team_id = ?`. */
  function MemberCount(members: seq<TeamMember>, teamId: int): (n: nat)
    ensures n <= |members|
    ensures n == 0 <==> forall m :: m in members ==> m.teamId != teamId
  {
    var f := Filter(members, OfTeam(teamId));
    assert f != [] ==> f[0] in f;
    |f|
  }

  /** `SELECT COUNT(*) FROM contest_registrations WHERE contest_id = ?`. */
  function RegistrationCount(regs: seq<Registration>, contestId: int): (n: nat)
    ensures n <= |regs|
    ensures n == 0 <==> forall r :: r in regs ==> r.contestId != contestId
  {
    var f := Filter(regs, ForContest(contestId));
    assert f != [] ==> f[0] in f;
    |f|
  }

  /** One more membership row adds one to its team's count and leaves every other team's alone. */
  lemma MemberCountAppend(members: seq<TeamMember>, m: TeamMember, teamId: int)
    ensures MemberCount(members + [m], teamId) == MemberCount(members, teamId) + (if m.teamId == teamId then 1 else 0)
  {
    FilterAppend(members, OfTeam(teamId), m);
  }

  /** One more registration adds one to its contest's count and leaves every other contest's alone. */
  lemma RegistrationCountAppend(regs: seq<Registration>, r: Registration, contestId: int)
    ensures RegistrationCount(regs + [r], contestId) == RegistrationCount(regs, contestId) + (if r.contestId == contestId then 1 else 0)
  {
    FilterAppend(regs, ForContest(contestId), r);
  }

  /** A store with empty tables satisfies the invariant. */
  lemma EmptyValid()
    ensures Consistent(Tables([], [], [], [], [], [], [], [], []))
  {
  }

  /** The database object the route handlers share. */
  class Db {
    var students: seq<Student>
    var coordinators: seq<Coordinator>
    var mentors: seq<Mentor>
    var contests: seq<Contest>
    var registrations: seq<Registration>
    var teams: seq<Team>
    var members: seq<TeamMember>
    var chats: seq<Chat>
    var messages: seq<Message>

    ghost function State(): Tables
      reads this
    {
      Tables(students, coordinators, mentors, contests, registrations, teams, members, chats, messages)
    }

    ghost predicate Valid()
      reads this
    {
      Consistent(State())
    }

    /** A freshly set-up database: every table empty. */
    constructor ()
      ensures State() == Tables([], [], [], [], [], [], [], [], [])
      ensures Valid()
    {
      students, coordinators, mentors := [], [], [];
      contests, registrations, teams, members := [], [], [], [];
      chats, messages := [], [];
    }
  }
}
