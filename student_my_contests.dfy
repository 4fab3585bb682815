/**
 * The student's "My Contests" page: a status per registration, the all/active/completed
 * tabs with their counts, and the team shown beside a team-based registration. It shows the
 * rows of GET /api/registrations/my (a registration with its contest) and of GET
 * /api/teams/my/all (`Teams.MyTeam`).
 */
module StudentMyContestsPage {
  import opened Wrappers
  import opened Seqs
  import opened Schema
  import opened ClientStatus
  import opened Teams

  /** A registration as the page receives it, with its contest's columns. */
  type Row = (Registration, Contest)

  datatype Status = Status(caption: string, cssClass: string)

  const RegistrationOpen := Status("Registration Open", "status-open")
  const InProgress := Status("Ongoing", "status-ongoing")
  const Completed := Status("Completed", "status-completed")

  function RowPhase(now: int): Row -> Phase {
    (r: Row) => PhaseAt(now, r.1.registrationDeadline, r.1.submissionDeadline)
  }

  /** `getContestStatus`: one of three statuses, by strict comparison with both deadlines. */
  function GetContestStatus(r: Row, now: int): (s: Status)
    ensures s in {RegistrationOpen, InProgress, Completed}
    ensures s.cssClass == "status-open" <==> now < r.1.registrationDeadline
    ensures s.cssClass == "status-ongoing" <==> r.1.registrationDeadline <= now < r.1.submissionDeadline
    ensures s.cssClass == "status-completed" <==> r.1.registrationDeadline <= now && r.1.submissionDeadline <= now
  {
    match RowPhase(now)(r)
    case Open => RegistrationOpen
    case Ongoing => InProgress
    case Ended => Completed
  }

  function InTab(filter: string, now: int): Row -> bool {
    (r: Row) =>
      if filter == "all" then true
      else if filter == "active" then
        GetContestStatus(r, now).cssClass == "status-open" || GetContestStatus(r, now).cssClass == "status-ongoing"
      else if filter == "completed" then GetContestStatus(r, now).cssClass == "status-completed"
      else true
  }

  /**
   * `filteredRegistrations`: 'active' keeps the registrations whose contest is open or
   * ongoing, 'completed' those whose contest is over, and 'all' or any other tab keeps them all.
   */
  function FilteredRegistrations(regs: seq<Row>, filter: string, now: int): (r: seq<Row>)
    ensures filter != "active" && filter != "completed" ==> r == regs
    ensures filter == "active" ==> forall x :: x in r <==>
      x in regs && (now < x.1.registrationDeadline || now < x.1.submissionDeadline)
    ensures filter == "completed" ==> forall x :: x in r <==>
      x in regs && x.1.registrationDeadline <= now && x.1.submissionDeadline <= now
    ensures multiset(r) <= multiset(regs)
  {
    if filter != "active" && filter != "completed" then
      FilterAll(regs, InTab(filter, now));
      Filter(regs, InTab(filter, now))
    else Filter(regs, InTab(filter, now))
  }

  function NotCompleted(now: int): Row -> bool {
    (r: Row) => GetContestStatus(r, now).cssClass != "status-completed"
  }

  function IsCompleted(now: int): Row -> bool {
    (r: Row) => GetContestStatus(r, now).cssClass == "status-completed"
  }

  /** The counts on the three tab buttons. */
  datatype Counts = Counts(all: nat, active: nat, completed: nat)

  /** The tab counts: every registration is either active or completed, never both. */
  function TabCounts(regs: seq<Row>, now: int): (c: Counts)
    ensures c.all == |regs|
    ensures c.active + c.completed == c.all
  {
    FilterPartition(regs, NotCompleted(now), IsCompleted(now));
    Counts(|regs|, |Filter(regs, NotCompleted(now))|, |Filter(regs, IsCompleted(now))|)
  }

  /** Each tab's count is the number of registrations that tab then lists. */
  lemma CountsMatchTabs(regs: seq<Row>, now: int)
    ensures TabCounts(regs, now).all == |FilteredRegistrations(regs, "all", now)|
    ensures TabCounts(regs, now).active == |FilteredRegistrations(regs, "active", now)|
    ensures TabCounts(regs, now).completed == |FilteredRegistrations(regs, "completed", now)|
  {
    FilterExt(regs, NotCompleted(now), InTab("active", now));
    FilterExt(regs, IsCompleted(now), InTab("completed", now));
  }

  function TeamFor(contestId: int): MyTeam -> bool {
    (t: MyTeam) => t.team.contestId == contestId
  }

  /** `getTeamForContest`: the first of the caller's teams whose contest id matches. */
  function GetTeamForContest(teams: seq<MyTeam>, contestId: int): (r: Option<MyTeam>)
    ensures r.None? <==> forall t :: t in teams ==> t.team.contestId != contestId
    ensures r.Some? ==> r.value in teams && r.value.team.contestId == contestId
    ensures r.Some? ==> exists k :: 0 <= k < |teams| && teams[k] == r.value
                                    && forall j :: 0 <= j < k ==> teams[j].team.contestId != contestId
  {
    Find(teams, TeamFor(contestId))
  }

  /** The team shown on a registration's card: looked up only for a team-based contest. */
  function CardTeam(reg: Row, teams: seq<MyTeam>): (r: Option<MyTeam>)
    ensures !reg.1.isTeamBased ==> r.None?
    ensures r.Some? ==> r.value in teams && r.value.team.contestId == reg.0.contestId
    ensures reg.1.isTeamBased ==> r == GetTeamForContest(teams, reg.0.contestId)
  {
    if reg.1.isTeamBased then GetTeamForContest(teams, reg.0.contestId) else None
  }
}
