/**
 * The student profile page: a status key per registration, the statistics cards, and the
 * three most recent registrations with their status badges.
 */
module StudentProfilePage {
  import opened Seqs
  import opened Teams
  import opened StudentMyContestsPage

  /** `getContestStatus`: 'open', 'ongoing' or 'completed', by strict comparison with both deadlines. */
  function StatusKey(r: Row, now: int): (k: string)
    ensures k in {"open", "ongoing", "completed"}
    ensures k == "open" <==> now < r.1.registrationDeadline
    ensures k == "ongoing" <==> r.1.registrationDeadline <= now < r.1.submissionDeadline
    ensures k == "completed" <==> r.1.registrationDeadline <= now && r.1.submissionDeadline <= now
  {
    if now < r.1.registrationDeadline then "open"
    else if now < r.1.submissionDeadline then "ongoing"
    else "completed"
  }

  function IsActive(now: int): Row -> bool {
    (r: Row) => StatusKey(r, now) == "open" || StatusKey(r, now) == "ongoing"
  }

  function IsDone(now: int): Row -> bool {
    (r: Row) => StatusKey(r, now) == "completed"
  }

  datatype Stats = Stats(total: nat, active: nat, completed: nat, teams: nat)

  /** The four cards: registrations, active ones, completed ones, and teams; active and completed make up the total. */
  function ProfileStats(regs: seq<Row>, teams: seq<MyTeam>, now: int): (s: Stats)
    ensures s.total == |regs| && s.teams == |teams|
    ensures s.active + s.completed == s.total
    ensures s.active == |Filter(regs, IsActive(now))| && s.completed == |Filter(regs, IsDone(now))|
  {
    FilterPartition(regs, IsActive(now), IsDone(now));
    Stats(|regs|, |Filter(regs, IsActive(now))|, |Filter(regs, IsDone(now))|, |teams|)
  }

  /** The profile's active and completed counts are the "My Contests" page's tab counts. */
  lemma StatsMatchMyContests(regs: seq<Row>, teams: seq<MyTeam>, now: int)
    ensures ProfileStats(regs, teams, now).active == TabCounts(regs, now).active
    ensures ProfileStats(regs, teams, now).completed == TabCounts(regs, now).completed
  {
    FilterExt(regs, IsActive(now), NotCompleted(now));
    FilterExt(regs, IsDone(now), IsCompleted(now));
  }

  /** `recentRegistrations`: the first three registrations, or all when there are fewer. */
  function Recent(regs: seq<Row>): (r: seq<Row>)
    ensures r <= regs
    ensures |r| <= 3
    ensures |regs| >= 3 ==> |r| == 3
    ensures |regs| < 3 ==> r == regs
  {
    Take(regs, 3)
  }

  /** The `statusMap` a recent registration's badge is looked up in. */
  const StatusMap: map<string, Status> :=
    map["open" := RegistrationOpen, "ongoing" := InProgress, "completed" := Completed]

  /**
   * Every key `getContestStatus` returns has an entry, and the badge found there is the one
   * the "My Contests" page shows for the same registration.
   */
  lemma StatusMapTotal(r: Row, now: int)
    ensures StatusKey(r, now) in StatusMap
    ensures StatusMap[StatusKey(r, now)] == GetContestStatus(r, now)
  {
  }
}
