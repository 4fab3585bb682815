/**
 * The coordinator dashboard: the coordinator's own contests, the statistics cards above
 * them, and the active/past tabs with a title search. It shows the rows of GET /api/contests.
 */
module CoordinatorDashboardPage {
  import opened Seqs
  import opened Text
  import opened Contests
  import opened ContestListPage

  function CreatedBy(coordinatorId: int): ContestSummary -> bool {
    (c: ContestSummary) => c.contest.createdBy == coordinatorId
  }

  /** `myContests`: the contests the signed-in coordinator created, in list order. */
  function MyContests(contests: seq<ContestSummary>, coordinatorId: int): (r: seq<ContestSummary>)
    ensures forall c :: c in r <==> c in contests && c.contest.createdBy == coordinatorId
    ensures multiset(r) <= multiset(contests)
  {
    Filter(contests, CreatedBy(coordinatorId))
  }

  function ActiveAt(now: int): ContestSummary -> bool {
    (c: ContestSummary) => c.contest.submissionDeadline > now
  }

  /** `reduce((sum, c) => sum + (c.registration_count || 0), 0)`: a count of 0 adds nothing. */
  function CountOrZero(c: ContestSummary): int {
    if c.registrationCount != 0 then c.registrationCount else 0
  }

  datatype Stats = Stats(total: nat, active: nat, participants: int)

  /**
   * The three cards: how many contests the coordinator owns, how many of them still accept
   * submissions, and the registrations summed over them.
   */
  function DashboardStats(mine: seq<ContestSummary>, now: int): (s: Stats)
    ensures s.total == |mine|
    ensures s.active <= s.total
    ensures s.active == |Filter(mine, ActiveAt(now))|
    ensures mine == [] ==> s.participants == 0
    ensures s.participants >= 0
    ensures forall c :: c in mine ==> c.registrationCount <= s.participants
  {
    assert forall c :: c in mine ==> CountOrZero(c) == c.registrationCount >= 0;
    SumNonNegative(mine, CountOrZero);
    Stats(|mine|, |Filter(mine, ActiveAt(now))|, Sum(mine, CountOrZero))
  }

  /** The participant count of a list grows by each added contest's registration count. */
  lemma ParticipantsAppend(mine: seq<ContestSummary>, c: ContestSummary, now: int)
    ensures DashboardStats(mine + [c], now).participants == DashboardStats(mine, now).participants + c.registrationCount
  {
    assert (mine + [c])[..|mine|] == mine;
  }

  function OnTab(tab: string, now: int): ContestSummary -> bool {
    (c: ContestSummary) => if tab == "active" then c.contest.submissionDeadline > now else c.contest.submissionDeadline <= now
  }

  function TitleMatches(query: string): ContestSummary -> bool {
    (c: ContestSummary) => Includes(ToLower(c.contest.title), ToLower(query))
  }

  /** The tab filter alone: 'active' keeps contests whose submission deadline is ahead, any other tab the rest. */
  function TabContests(mine: seq<ContestSummary>, tab: string, now: int): (r: seq<ContestSummary>)
    ensures tab == "active" ==> forall c :: c in r <==> c in mine && c.contest.submissionDeadline > now
    ensures tab != "active" ==> forall c :: c in r <==> c in mine && c.contest.submissionDeadline <= now
  {
    Filter(mine, OnTab(tab, now))
  }

  /** `filteredContests`: the tab filter, then the contests whose lower-cased title contains the lower-cased query. */
  function Visible(mine: seq<ContestSummary>, tab: string, query: string, now: int): (r: seq<ContestSummary>)
    ensures forall c :: c in r <==>
      && c in TabContests(mine, tab, now)
      && Includes(ToLower(c.contest.title), ToLower(query))
    ensures multiset(r) <= multiset(mine)
  {
    Filter(TabContests(mine, tab, now), TitleMatches(query))
  }

  /** The active tab and any other tab split the coordinator's contests; the active card counts the active tab. */
  lemma TabsPartition(mine: seq<ContestSummary>, other: string, now: int)
    requires other != "active"
    ensures |TabContests(mine, "active", now)| + |TabContests(mine, other, now)| == |mine|
    ensures DashboardStats(mine, now).active == |TabContests(mine, "active", now)|
  {
    FilterPartition(mine, OnTab("active", now), OnTab(other, now));
    FilterExt(mine, ActiveAt(now), OnTab("active", now));
  }

  /**
   * With deadlines in order, a contest is on the active tab exactly when its badge is not
   * "Ended".
   */
  lemma BadgeAgreesWithTab(c: ContestSummary, now: int)
    requires c.contest.registrationDeadline <= c.contest.submissionDeadline
    ensures GetStatus(c, now) != EndedBadge <==> OnTab("active", now)(c)
  {
  }

  /**
   * An update may leave the registration deadline after the submission deadline; such a
   * contest is on the past tab yet badged "Open" until its registration deadline.
   */
  lemma ReorderedContestOpenInPast(c: ContestSummary, now: int)
    requires c.contest.submissionDeadline <= now < c.contest.registrationDeadline
    ensures GetStatus(c, now) == OpenBadge
    ensures c in TabContests([c], "past", now)
  {
  }
}
