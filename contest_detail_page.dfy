/**
 * The contest detail page: the status badge, whether registration is open, which action
 * buttons and links the viewer sees, and the viewer's own registration and team for the
 * contest. The page shows GET /api/contests/:id (`Contests.ContestDetail`) and looks the
 * viewer up in GET /api/registrations/my and GET /api/teams/my/all.
 */
module ContestDetailPage {
  import opened Wrappers
  import opened Seqs
  import opened Schema
  import opened Contests
  import opened Teams
  import opened ContestListPage
  import opened StudentMyContestsPage

  const LoadingBadge := Badge("Loading", "badge-primary")
  const RegistrationOpenBadge := Badge("Registration Open", "badge-success")
  const ContestOngoingBadge := Badge("Contest Ongoing", "badge-warning")
  const ContestEndedBadge := Badge("Contest Ended", "badge-danger")

  /** `getStatus`: "Loading" until the contest has arrived, then the three-way split on its deadlines. */
  function DetailStatus(contest: Option<ContestDetail>, now: int): (b: Badge)
    ensures contest.None? <==> b == LoadingBadge
    ensures contest.Some? ==>
      var c := contest.value.contest;
      && (b == RegistrationOpenBadge <==> now < c.registrationDeadline)
      && (b == ContestOngoingBadge <==> c.registrationDeadline <= now < c.submissionDeadline)
      && (b == ContestEndedBadge <==> c.registrationDeadline <= now && c.submissionDeadline <= now)
  {
    match contest
    case None => LoadingBadge
    case Some(d) =>
      if now < d.contest.registrationDeadline then RegistrationOpenBadge
      else if now < d.contest.submissionDeadline then ContestOngoingBadge
      else ContestEndedBadge
  }

  /** `isRegistrationOpen`: false until the contest has arrived, then strictly before its registration deadline. */
  function IsRegistrationOpen(contest: Option<ContestDetail>, now: int): (b: bool)
    ensures b <==> contest.Some? && now < contest.value.contest.registrationDeadline
    ensures b ==> DetailStatus(contest, now) == RegistrationOpenBadge
  {
    contest.Some? && now < contest.value.contest.registrationDeadline
  }

  predicate IsStudent(role: Option<string>) {
    role == Some(StudentRole)
  }

  /** The action button above the description. */
  datatype Action = NoAction | CreateTeam | RegisterNow

  /**
   * A student sees an action only while registration is open and while they hold neither a
   * registration nor a team for the contest; the action is "Create Team" for a team-based
   * contest and "Register Now" otherwise.
   */
  function ActionFor(role: Option<string>, contest: Option<ContestDetail>, myRegistration: Option<Row>,
                     myTeam: Option<MyTeam>, now: int): (a: Action)
    ensures a != NoAction <==>
      IsStudent(role) && IsRegistrationOpen(contest, now) && myRegistration.None? && myTeam.None?
    ensures a == CreateTeam ==> contest.Some? && contest.value.contest.isTeamBased
    ensures a == RegisterNow ==> contest.Some? && !contest.value.contest.isTeamBased
  {
    if IsStudent(role) && IsRegistrationOpen(contest, now) && myRegistration.None? && myTeam.None? then
      if contest.value.contest.isTeamBased then CreateTeam else RegisterNow
    else NoAction
  }

  /** The "Registered" badge: shown when the viewer has a registration or a team for the contest. */
  predicate RegisteredBadge(myRegistration: Option<Row>, myTeam: Option<MyTeam>) {
    myRegistration.Some? || myTeam.Some?
  }

  /** A viewer never sees both the "Registered" badge and an action button. */
  lemma BadgeExcludesAction(role: Option<string>, contest: Option<ContestDetail>, myRegistration: Option<Row>,
                            myTeam: Option<MyTeam>, now: int)
    ensures RegisteredBadge(myRegistration, myTeam) ==> ActionFor(role, contest, myRegistration, myTeam, now) == NoAction
  {
  }

  /**
   * "Register Now" is offered only when the server's registration route would get past its
   * deadline and team-based checks.
   */
  lemma RegisterOfferedOnlyWhenAccepted(role: Option<string>, contest: Option<ContestDetail>, now: int)
    ensures ActionFor(role, contest, None, None, now) == RegisterNow ==>
      now <= contest.value.contest.registrationDeadline && !contest.value.contest.isTeamBased
  {
  }

  /**
   * At the registration deadline itself the server still accepts a registration (it refuses
   * only after the deadline) but the page no longer offers one.
   */
  lemma DeadlineInstantNotOffered(role: Option<string>, d: ContestDetail)
    ensures ActionFor(role, Some(d), None, None, d.contest.registrationDeadline) == NoAction
    ensures !(d.contest.registrationDeadline > d.contest.registrationDeadline)
  {
  }

  /**
   * The "Join Team" button on a listed team: only for a student, while registration is open,
   * without a team of their own, and only on a team below the contest's size limit.
   */
  function JoinShown(role: Option<string>, contest: Option<ContestDetail>, myTeam: Option<MyTeam>,
                     team: TeamSummary, now: int): (b: bool)
    ensures b ==> contest.Some? && team.memberCount < contest.value.contest.maxTeamSize
    ensures b ==> IsStudent(role) && myTeam.None? && now < contest.value.contest.registrationDeadline
    ensures (IsStudent(role) && IsRegistrationOpen(contest, now) && myTeam.None?
             && team.memberCount < contest.value.contest.maxTeamSize) ==> b
  {
    IsStudent(role) && IsRegistrationOpen(contest, now) && myTeam.None?
    && team.memberCount < contest.value.contest.maxTeamSize
  }

  /** The chat link: for a registered student, a student in a team, or any viewer who is not a student. */
  function ChatLinkShown(role: Option<string>, myRegistration: Option<Row>, myTeam: Option<MyTeam>): (b: bool)
    ensures !IsStudent(role) ==> b
    ensures IsStudent(role) ==> (b <==> RegisteredBadge(myRegistration, myTeam))
  {
    myRegistration.Some? || myTeam.Some? || role != Some(StudentRole)
  }

  function RegistrationFor(contestId: int): Row -> bool {
    (r: Row) => r.0.contestId == contestId
  }

  /**
   * `checkRegistration`: the viewer's first registration and first team whose contest id is
   * the page's contest id, each absent when there is none.
   */
  function CheckRegistration(regs: seq<Row>, teams: seq<MyTeam>, contestId: int): (r: (Option<Row>, Option<MyTeam>))
    ensures r.0.None? <==> forall x :: x in regs ==> x.0.contestId != contestId
    ensures r.0.Some? ==> r.0.value in regs && r.0.value.0.contestId == contestId
    ensures r.0.Some? ==> exists k :: 0 <= k < |regs| && regs[k] == r.0.value
                                      && forall j :: 0 <= j < k ==> regs[j].0.contestId != contestId
    ensures r.1.None? <==> forall t :: t in teams ==> t.team.contestId != contestId
    ensures r.1.Some? ==> r.1.value in teams && r.1.value.team.contestId == contestId
    ensures r.1.Some? ==> exists k :: 0 <= k < |teams| && teams[k] == r.1.value
                                      && forall j :: 0 <= j < k ==> teams[j].team.contestId != contestId
  {
    (Find(regs, RegistrationFor(contestId)), GetTeamForContest(teams, contestId))
  }

  /**
   * A student listed as registered for the contest, or in one of its teams, is shown the
   * "Registered" badge and offered no action.
   */
  lemma EnrolledStudentNotOffered(regs: seq<Row>, teams: seq<MyTeam>, contest: ContestDetail, now: int)
    requires (exists x :: x in regs && x.0.contestId == contest.contest.contestId)
          || (exists t :: t in teams && t.team.contestId == contest.contest.contestId)
    ensures var mine := CheckRegistration(regs, teams, contest.contest.contestId);
      && RegisteredBadge(mine.0, mine.1)
      && ActionFor(Some(StudentRole), Some(contest), mine.0, mine.1, now) == NoAction
  {
  }
}
