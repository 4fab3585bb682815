/**
 * The student home page: the contests still open for registration, the active and
 * completed counts of the student's registrations, the search box, and the "time left"
 * caption of each contest card.
 */
module StudentHomePage {
  import opened Wrappers
  import opened Seqs
  import opened Text
  import opened Schema
  import opened Contests

  function OpenAt(now: int): ContestSummary -> bool {
    (c: ContestSummary) => c.contest.registrationDeadline > now
  }

  /** The contests the page loads: those whose registration deadline is still ahead, in list order. */
  function OpenContests(contests: seq<ContestSummary>, now: int): (r: seq<ContestSummary>)
    ensures forall c :: c in r <==> c in contests && c.contest.registrationDeadline > now
    ensures multiset(r) <= multiset(contests)
    ensures contests == [] ==> r == []
  {
    Filter(contests, OpenAt(now))
  }

  /**
   * The open contests of a longer list are those of the shorter one followed by the added
   * contest when it is open: together with the empty list's `[]`, the filter keeps list order.
   */
  lemma OpenContestsAppend(contests: seq<ContestSummary>, c: ContestSummary, now: int)
    ensures OpenContests(contests + [c], now)
         == OpenContests(contests, now) + (if c.contest.registrationDeadline > now then [c] else [])
  {
    FilterAppend(contests, OpenAt(now), c);
  }

  type Row = (Registration, Contest)

  function ActiveAt(now: int): Row -> bool {
    (r: Row) => r.1.submissionDeadline > now
  }

  function CompletedAt(now: int): Row -> bool {
    (r: Row) => r.1.submissionDeadline <= now
  }

  /**
   * `activeCount` and `completedCount`: registrations whose submission deadline is ahead,
   * and the rest; together they are all the registrations.
   */
  function RegistrationCounts(regs: seq<Row>, now: int): (counts: (nat, nat))
    ensures counts.0 + counts.1 == |regs|
    ensures counts.0 == |Filter(regs, ActiveAt(now))|
    ensures counts.1 == |Filter(regs, CompletedAt(now))|
  {
    FilterPartition(regs, ActiveAt(now), CompletedAt(now));
    (|Filter(regs, ActiveAt(now))|, |Filter(regs, CompletedAt(now))|)
  }

  /** A nullable text column matches when it is truthy and contains the query. */
  predicate ColumnMatches(column: Option<string>, query: string) {
    GivenText(column) && Includes(ToLower(column.value), ToLower(query))
  }

  function Matches(query: string): ContestSummary -> bool {
    (c: ContestSummary) =>
      Includes(ToLower(c.contest.title), ToLower(query))
      || ColumnMatches(c.contest.organizer, query) || ColumnMatches(c.contest.platform, query)
  }

  /**
   * The search box: a contest stays when the lower-cased query occurs in its lower-cased
   * title, organizer or platform; an empty query keeps every contest.
   */
  function Search(contests: seq<ContestSummary>, query: string): (r: seq<ContestSummary>)
    ensures forall c :: c in r <==>
      && c in contests
      && (|| Includes(ToLower(c.contest.title), ToLower(query))
          || ColumnMatches(c.contest.organizer, query)
          || ColumnMatches(c.contest.platform, query))
    ensures query == "" ==> r == contests
  {
    if query == "" then
      forall c | c in contests ensures Matches(query)(c) {
        IncludesEmpty(ToLower(c.contest.title));
      }
      FilterAll(contests, Matches(query));
      Filter(contests, Matches(query))
    else Filter(contests, Matches(query))
  }

  const Minute: int := 1000 * 60
  const Hour: int := 1000 * 60 * 60
  const Day: int := 1000 * 60 * 60 * 24

  /** The caption of `getTimeLeft`: "Closed", "<d>d <h>h left" or "<h>h <m>m left". */
  datatype TimeLeft = Closed | DaysHours(days: int, hours: int) | HoursMinutes(hours: int, minutes: int)

  /**
   * `getTimeLeft`: "Closed" once the deadline is reached; otherwise the whole days and the
   * remaining whole hours when at least a day is left, and else the whole hours and the
   * remaining whole minutes. The shown amounts never overstate the time left and fall short
   * of it by less than one unit of the smaller amount.
   */
  function GetTimeLeft(deadline: int, now: int): (t: TimeLeft)
    ensures t == Closed <==> deadline - now <= 0
    ensures t.DaysHours? <==> deadline - now >= Day
    ensures t.DaysHours? ==>
      && t.days > 0 && 0 <= t.hours < 24
      && t.days * Day + t.hours * Hour <= deadline - now < t.days * Day + (t.hours + 1) * Hour
    ensures t.HoursMinutes? ==>
      && 0 <= t.hours < 24 && 0 <= t.minutes < 60
      && t.hours * Hour + t.minutes * Minute <= deadline - now < t.hours * Hour + (t.minutes + 1) * Minute
  {
    var diff := deadline - now;
    if diff <= 0 then Closed
    else
      var days := diff / Day;
      var hours := (diff % Day) / Hour;
      if days > 0 then DaysHours(days, hours)
      else HoursMinutes(hours, (diff % Hour) / Minute)
  }
}
