/**
 * The contest list page: a status badge per contest and the status filter the tabs apply.
 * The page shows the rows of GET /api/contests (`Contests.ContestSummary`).
 */
module ContestListPage {
  import opened Seqs
  import opened Text
  import opened ClientStatus
  import opened Contests

  datatype Badge = Badge(caption: string, cssClass: string)

  const OpenBadge := Badge("Open", "badge-success")
  const OngoingBadge := Badge("Ongoing", "badge-warning")
  const EndedBadge := Badge("Ended", "badge-danger")

  function ContestPhase(now: int): ContestSummary -> Phase {
    (c: ContestSummary) => PhaseAt(now, c.contest.registrationDeadline, c.contest.submissionDeadline)
  }

  /** `getStatus`: Open before the registration deadline, Ongoing before the submission deadline, Ended after both. */
  function GetStatus(c: ContestSummary, now: int): (b: Badge)
    ensures b in {OpenBadge, OngoingBadge, EndedBadge}
    ensures b == OpenBadge <==> now < c.contest.registrationDeadline
    ensures b == OngoingBadge <==> c.contest.registrationDeadline <= now < c.contest.submissionDeadline
    ensures b == EndedBadge <==> c.contest.registrationDeadline <= now && c.contest.submissionDeadline <= now
  {
    match ContestPhase(now)(c)
    case Open => OpenBadge
    case Ongoing => OngoingBadge
    case Ended => EndedBadge
  }

  function Shown(filter: string, now: int): ContestSummary -> bool {
    (c: ContestSummary) => filter == "all" || ToLower(GetStatus(c, now).caption) == filter
  }

  /**
   * `filteredContests`: the tab 'all' shows every contest; any other tab shows, in list order,
   * the contests whose lower-cased status label is the tab's name.
   */
  function Filtered(contests: seq<ContestSummary>, filter: string, now: int): (r: seq<ContestSummary>)
    ensures filter == "all" ==> r == contests
    ensures filter != "all" ==> forall c :: c in r <==> c in contests && ToLower(GetStatus(c, now).caption) == filter
    ensures multiset(r) <= multiset(contests)
  {
    if filter == "all" then FilterAll(contests, Shown(filter, now)); Filter(contests, Shown(filter, now))
    else Filter(contests, Shown(filter, now))
  }

  /** The three status labels lower-case to the three tab names. */
  lemma LoweredLabels()
    ensures ToLower(OpenBadge.caption) == "open"
    ensures ToLower(OngoingBadge.caption) == "ongoing"
    ensures ToLower(EndedBadge.caption) == "ended"
  {
    LowerOpen();
    LowerOngoing();
    LowerEnded();
  }

  lemma LowerOpen() ensures ToLower("Open") == "open" {
    assert ToLower("Open")[0] == 'o';
  }

  lemma LowerOngoing() ensures ToLower("Ongoing") == "ongoing" {
    var r := ToLower("Ongoing");
    assert r[0] == 'o' && r[1] == 'n' && r[2] == 'g' && r[3] == 'o' && r[4] == 'i' && r[5] == 'n' && r[6] == 'g';
  }

  lemma LowerEnded() ensures ToLower("Ended") == "ended" {
    assert ToLower("Ended")[0] == 'e';
  }

  /** The tab of one phase shows exactly the contests in that phase, in list order. */
  lemma TabIsPhase(contests: seq<ContestSummary>, now: int, p: Phase, tab: string)
    requires tab == (match p case Open => "open" case Ongoing => "ongoing" case Ended => "ended")
    ensures Filtered(contests, tab, now) == Filter(contests, IsPhase(ContestPhase(now), p))
  {
    LoweredLabels();
    FilterExt(contests, Shown(tab, now), IsPhase(ContestPhase(now), p));
  }

  /** The open, ongoing and ended tabs split the contest list: every contest is on exactly one. */
  lemma TabsPartition(contests: seq<ContestSummary>, now: int)
    ensures |Filtered(contests, "open", now)| + |Filtered(contests, "ongoing", now)|
          + |Filtered(contests, "ended", now)| == |contests|
  {
    TabIsPhase(contests, now, Open, "open");
    TabIsPhase(contests, now, Ongoing, "ongoing");
    TabIsPhase(contests, now, Ended, "ended");
    PhasesPartition(contests, ContestPhase(now));
  }

  /** A tab that names no status shows nothing. */
  lemma UnknownTabEmpty(contests: seq<ContestSummary>, filter: string, now: int)
    requires filter !in {"all", "open", "ongoing", "ended"}
    ensures Filtered(contests, filter, now) == []
  {
    LoweredLabels();
    forall c | c in contests ensures !Shown(filter, now)(c) {
      var b := GetStatus(c, now);
      assert b == OpenBadge || b == OngoingBadge || b == EndedBadge;
    }
    FilterNone(contests, Shown(filter, now));
  }
}
