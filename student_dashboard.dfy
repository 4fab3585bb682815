/**
 * The student dashboard: the statistics cards, a preview of the student's registrations,
 * and up to five contests still open for registration.
 */
module StudentDashboardPage {
  import opened Seqs
  import opened Contests
  import opened Teams
  import StudentHomePage

  type Row = StudentHomePage.Row

  const PreviewSize: nat := 5

  /**
   * `upcoming`: the contests whose registration deadline is ahead, filtered in list order
   * and cut to the first five.
   */
  function Upcoming(contests: seq<ContestSummary>, now: int): (r: seq<ContestSummary>)
    ensures forall c :: c in r ==> c in contests && c.contest.registrationDeadline > now
    ensures |r| <= PreviewSize
    ensures r <= StudentHomePage.OpenContests(contests, now)
    ensures |StudentHomePage.OpenContests(contests, now)| >= PreviewSize ==> |r| == PreviewSize
    ensures |StudentHomePage.OpenContests(contests, now)| < PreviewSize ==> r == StudentHomePage.OpenContests(contests, now)
  {
    Take(StudentHomePage.OpenContests(contests, now), PreviewSize)
  }

  /** The "My Contests" card: the first five registrations. */
  function RegistrationPreview(regs: seq<Row>): (r: seq<Row>)
    ensures r <= regs
    ensures |r| == if |regs| < PreviewSize then |regs| else PreviewSize
  {
    Take(regs, PreviewSize)
  }

  datatype Stats = Stats(registrations: nat, teams: nat, upcoming: nat)

  /** The three stat cards: the numbers of registrations, teams and upcoming contests shown. */
  function DashboardStats(regs: seq<Row>, teams: seq<MyTeam>, contests: seq<ContestSummary>, now: int): (s: Stats)
    ensures s.registrations == |regs| && s.teams == |teams|
    ensures s.upcoming == |Upcoming(contests, now)| <= PreviewSize
  {
    Stats(|regs|, |teams|, |Upcoming(contests, now)|)
  }
}
