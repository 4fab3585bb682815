/**
 * The contest routes: the public list and detail views, and the coordinator-only create,
 * update and delete. `caller` is the identity `authenticate` attaches, and the routes that
 * write sit behind `authorize('coordinator')`.
 */
module Contests {
  import opened Wrappers
  import opened Seqs
  import opened Schema
  import opened Store
  import Transitions
  import Teams

  /**
   * The body fields of a create. The create tests each field's truthiness before it binds
   * it, so a field that is absent, sent as `null`, or empty is `None` here. Dates are
   * timestamps; a date field is `None` when absent or empty.
   */
  datatype ContestFields = ContestFields(
    title: Option<string>, description: Option<string>, organizer: Option<string>,
    platform: Option<string>, location: Option<string>, department: Option<string>,
    registrationDeadline: Option<int>, submissionDeadline: Option<int>,
    isTeamBased: JsValue, maxTeamSize: Option<int>, imageUrl: Option<string>,
    externalRegLink: Option<string>, submissionLink: Option<string>, mentorId: Option<int>)

  /** `is_team_based === 'true' || is_team_based === true`: a form string or a JSON boolean. */
  predicate TeamBasedFlag(v: JsValue) {
    v == Str("true") || v == Bool(true)
  }

  /**
   * The image column of a create: the uploaded file's public path when a file came with the
   * request, otherwise the `image_url` field or NULL.
   */
  function ImageUrl(file: Option<string>, field: Option<string>): (r: Option<string>)
    ensures file.Some? ==> r == Some("/uploads/" + file.value)
    ensures file.None? ==> r == OrNull(field)
  {
    if file.Some? then Some("/uploads/" + file.value) else OrNull(field)
  }

  /** The row a create inserts, with the defaults of `||`: NULL for falsy text, 1 for a falsy size. */
  function NewContest(id: int, f: ContestFields, file: Option<string>, createdBy: int): (c: Contest)
    requires f.title.Some? && f.registrationDeadline.Some? && f.submissionDeadline.Some?
    ensures c.contestId == id && c.title == f.title.value && c.createdBy == createdBy
    ensures c.registrationDeadline == f.registrationDeadline.value && c.submissionDeadline == f.submissionDeadline.value
    ensures c.isTeamBased <==> TeamBasedFlag(f.isTeamBased)
    ensures c.maxTeamSize == (if GivenId(f.maxTeamSize) then f.maxTeamSize.value else 1)
    ensures c.mentorId == (if GivenId(f.mentorId) then f.mentorId else None)
  {
    Contest(
      id, f.title.value, OrNull(f.description), OrNull(f.organizer), OrNull(f.platform),
      OrNull(f.location), OrNull(f.department), f.registrationDeadline.value, f.submissionDeadline.value,
      TeamBasedFlag(f.isTeamBased), if GivenId(f.maxTeamSize) then f.maxTeamSize.value else 1,
      ImageUrl(file, f.imageUrl), OrNull(f.externalRegLink), OrNull(f.submissionLink), createdBy,
      if GivenId(f.mentorId) then f.mentorId else None)
  }

  /** The write of a create: the contest row, then one chat row for it. */
  method InsertContest(db: Db, c: Contest)
    requires db.Valid()
    requires forall x :: x in db.contests ==> x.contestId < c.contestId
    modifies db
    ensures db.Valid()
    ensures db.State() == old(db.State()).(
      contests := old(db.contests) + [c],
      chats := old(db.chats) + [Chat(NextKey(old(db.chats), ChatKey), c.contestId)])
  {
    Transitions.AddContest(db.State(), c);
    db.contests := db.contests + [c];
    var chat := Chat(NextKey(db.chats, ChatKey), c.contestId);
    Transitions.AddChat(db.State(), chat);
    db.chats := db.chats + [chat];
  }

  /**
   * The checks of POST /api/contests, in order: an upload error is answered with its own
   * message; then title and both deadlines must be given; then the registration deadline
   * must be strictly before the submission deadline. `None` when the request passes.
   */
  function CreateError(f: ContestFields, uploadError: Option<string>): (r: Option<string>)
    ensures uploadError.Some? ==> r == uploadError
    ensures uploadError.None? && !(GivenText(f.title) && f.registrationDeadline.Some? && f.submissionDeadline.Some?) ==>
      r == Some("Title, registration deadline, and submission deadline are required")
    ensures uploadError.None? && GivenText(f.title) && f.registrationDeadline.Some? && f.submissionDeadline.Some? ==>
      (r.Some? <==> f.registrationDeadline.value >= f.submissionDeadline.value)
    ensures r.None? ==>
      && GivenText(f.title) && f.registrationDeadline.Some? && f.submissionDeadline.Some?
      && f.registrationDeadline.value < f.submissionDeadline.value
  {
    if uploadError.Some? then uploadError
    else if !GivenText(f.title) || f.registrationDeadline.None? || f.submissionDeadline.None? then
      Some("Title, registration deadline, and submission deadline are required")
    else if f.registrationDeadline.value >= f.submissionDeadline.value then
      Some("Registration deadline must be before submission deadline")
    else None
  }

  /**
   * POST /api/contests: a request that fails a check is answered 400 with that check's
   * message and changes nothing; otherwise the contest is inserted with the next id, owned
   * by the caller, together with exactly one chat for it.
   */
  method Create(db: Db, caller: Identity, f: ContestFields, file: Option<string>, uploadError: Option<string>)
    returns (reply: Reply<int>)
    requires db.Valid()
    modifies db
    ensures db.Valid()
    ensures CreateError(f, uploadError).Some? ==>
      && reply == Err(BadRequest, CreateError(f, uploadError).value)
      && db.State() == old(db.State())
    ensures CreateError(f, uploadError).None? ==>
      && reply == Ok(Created, NextKey(old(db.contests), ContestKey))
      && var c := NewContest(reply.body, f, file, caller.id);
      && c.registrationDeadline < c.submissionDeadline
      && db.State() == old(db.State()).(
           contests := old(db.contests) + [c],
           chats := old(db.chats) + [Chat(NextKey(old(db.chats), ChatKey), reply.body)])
  {
    var error := CreateError(f, uploadError);
    if error.Some? {
      return Err(BadRequest, error.value);
    }
    var id := NextKey(db.contests, ContestKey);
    var c := NewContest(id, f, file, caller.id);
    InsertContest(db, c);
    reply := Ok(Created, id);
  }

  /**
   * A field of a JSON update body as the handler destructures it: missing from the body
   * (`undefined`), sent as `null`, or sent with a value.
   */
  datatype BodyField<T> = Missing | NullValue | Given(value: T)

  /** The twelve fields an update reads from its body. */
  datatype UpdateFields = UpdateFields(
    title: BodyField<string>, description: BodyField<string>, location: BodyField<string>,
    department: BodyField<string>, registrationDeadline: BodyField<int>, submissionDeadline: BodyField<int>,
    isTeamBased: JsValue, maxTeamSize: BodyField<int>, imageUrl: BodyField<string>,
    externalRegLink: BodyField<string>, submissionLink: BodyField<string>, mentorId: BodyField<int>)

  /**
   * Every parameter of the UPDATE statement can be bound. The database layer hands the values
   * to sql.js as they are, and sql.js refuses to bind `undefined`: a field missing from the
   * body makes the statement throw.
   */
  predicate Bindable(f: UpdateFields) {
    && !f.title.Missing? && !f.description.Missing? && !f.location.Missing?
    && !f.department.Missing? && !f.registrationDeadline.Missing? && !f.submissionDeadline.Missing?
    && !f.isTeamBased.Undefined? && !f.maxTeamSize.Missing? && !f.imageUrl.Missing?
    && !f.externalRegLink.Missing? && !f.submissionLink.Missing? && !f.mentorId.Missing?
  }

  /** `COALESCE(?, column)` over a NOT NULL column: a value replaces the column, `null` keeps it. */
  function Coalesce<T>(field: BodyField<T>, column: T): (r: T)
    requires !field.Missing?
    ensures field.Given? ==> r == field.value
    ensures field.NullValue? ==> r == column
  {
    if field.Given? then field.value else column
  }

  /** `COALESCE(?, column)` over a nullable column. */
  function CoalesceNullable<T>(field: BodyField<T>, column: Option<T>): (r: Option<T>)
    requires !field.Missing?
    ensures field.Given? ==> r == Some(field.value)
    ensures field.NullValue? ==> r == column
  {
    if field.Given? then Some(field.value) else column
  }

  /**
   * The row an update leaves. Every column the statement names is COALESCEd with the old
   * value, except `mentor_id`, which takes the field as it is, `null` clearing it.
   * `is_team_based` is bound as 1 or 0 by truthiness, so `null` stores 0. Organizer, platform
   * and owner are not touched.
   */
  function Updated(c: Contest, f: UpdateFields): (r: Contest)
    requires Bindable(f)
    ensures r.contestId == c.contestId && r.organizer == c.organizer && r.platform == c.platform
    ensures r.createdBy == c.createdBy
    ensures r.mentorId == (if f.mentorId.Given? then Some(f.mentorId.value) else None)
    ensures r.title == (if f.title.Given? then f.title.value else c.title)
    ensures r.description == (if f.description.Given? then Some(f.description.value) else c.description)
    ensures r.location == (if f.location.Given? then Some(f.location.value) else c.location)
    ensures r.department == (if f.department.Given? then Some(f.department.value) else c.department)
    ensures r.registrationDeadline == (if f.registrationDeadline.Given? then f.registrationDeadline.value else c.registrationDeadline)
    ensures r.submissionDeadline == (if f.submissionDeadline.Given? then f.submissionDeadline.value else c.submissionDeadline)
    ensures r.maxTeamSize == (if f.maxTeamSize.Given? then f.maxTeamSize.value else c.maxTeamSize)
    ensures r.imageUrl == (if f.imageUrl.Given? then Some(f.imageUrl.value) else c.imageUrl)
    ensures r.externalRegLink == (if f.externalRegLink.Given? then Some(f.externalRegLink.value) else c.externalRegLink)
    ensures r.submissionLink == (if f.submissionLink.Given? then Some(f.submissionLink.value) else c.submissionLink)
    ensures r.isTeamBased == Truthy(f.isTeamBased)
  {
    c.(
      title := Coalesce(f.title, c.title),
      description := CoalesceNullable(f.description, c.description),
      location := CoalesceNullable(f.location, c.location),
      department := CoalesceNullable(f.department, c.department),
      registrationDeadline := Coalesce(f.registrationDeadline, c.registrationDeadline),
      submissionDeadline := Coalesce(f.submissionDeadline, c.submissionDeadline),
      isTeamBased := Truthy(f.isTeamBased),
      maxTeamSize := Coalesce(f.maxTeamSize, c.maxTeamSize),
      imageUrl := CoalesceNullable(f.imageUrl, c.imageUrl),
      externalRegLink := CoalesceNullable(f.externalRegLink, c.externalRegLink),
      submissionLink := CoalesceNullable(f.submissionLink, c.submissionLink),
      mentorId := if f.mentorId.Given? then Some(f.mentorId.value) else None)
  }

  /** The body field that sends a nullable column's current value back. */
  function Resent<T>(column: Option<T>): BodyField<T> {
    if column.Some? then Given(column.value) else NullValue
  }

  /**
   * The body that sends every column the update names back with its current value, as an
   * edit form submitted without changes does.
   */
  function Unchanged(c: Contest): (f: UpdateFields)
    ensures Bindable(f)
  {
    UpdateFields(
      Given(c.title), Resent(c.description), Resent(c.location), Resent(c.department),
      Given(c.registrationDeadline), Given(c.submissionDeadline), Bool(c.isTeamBased),
      Given(c.maxTeamSize), Resent(c.imageUrl), Resent(c.externalRegLink), Resent(c.submissionLink),
      Resent(c.mentorId))
  }

  /** Submitting a contest's own values leaves its row as it was. */
  lemma ResubmitKeepsContest(c: Contest)
    ensures Updated(c, Unchanged(c)) == c
  {
  }

  /**
   * A body whose twelve fields are all `null` still clears the mentor and stores 0 for
   * `is_team_based`, and changes nothing else.
   */
  lemma NullUpdateClearsMentorAndTeamFlag(c: Contest)
    ensures var f := UpdateFields(NullValue, NullValue, NullValue, NullValue, NullValue, NullValue,
                                  Null, NullValue, NullValue, NullValue, NullValue, NullValue);
      Updated(c, f) == c.(mentorId := None, isTeamBased := false)
  {
  }

  /** Nothing in an update re-checks the deadlines: an accepted update can leave them in either order. */
  lemma UpdateMayReorderDeadlines(c: Contest, sub: int)
    requires sub <= c.registrationDeadline
    ensures var f := Unchanged(c).(submissionDeadline := Given(sub));
      && Bindable(f)
      && Updated(c, f).submissionDeadline <= Updated(c, f).registrationDeadline
  {
  }

  /**
   * PUT /api/contests/:id: 404 for an unknown contest, 403 unless the caller created it, 500
   * with nothing written when a field is missing from the body, and otherwise that one row is
   * replaced by its update.
   */
  method Update(db: Db, caller: Identity, id: int, f: UpdateFields) returns (reply: Reply<string>)
    requires db.Valid()
    modifies db
    ensures db.Valid()
    ensures ContestById(old(db.contests), id).None? ==> reply == Err(NotFound, "Contest not found")
    ensures ContestById(old(db.contests), id).Some? ==>
      var c := ContestById(old(db.contests), id).value;
      && (c.createdBy != caller.id ==> reply == Err(Forbidden, "You can only edit your own contests"))
      && (c.createdBy == caller.id && !Bindable(f) ==> reply == Err(ServerError, "Failed to update contest"))
      && (c.createdBy == caller.id && Bindable(f) ==>
            && reply == Ok(OkStatus, "Contest updated successfully")
            && db.State() == old(db.State()).(contests := Replace(old(db.contests), ContestKey, id, Updated(c, f))))
    ensures reply.Err? ==> db.State() == old(db.State())
  {
    var found := ContestById(db.contests, id);
    if found.None? {
      return Err(NotFound, "Contest not found");
    }
    var c := found.value;
    if c.createdBy != caller.id {
      return Err(Forbidden, "You can only edit your own contests");
    }
    if !Bindable(f) {
      return Err(ServerError, "Failed to update contest");
    }
    var v := Updated(c, f);
    Transitions.ReplaceContest(db.State(), id, v);
    db.contests := Replace(db.contests, ContestKey, id, v);
    reply := Ok(OkStatus, "Contest updated successfully");
  }

  /**
   * The chat part of a contest's cascade: when the contest has a chat, the messages of the
   * chat its lookup finds, then all of the contest's chat rows.
   */
  ghost function WithoutChat(t: Tables, contestId: int): (r: Tables)
    ensures r.(messages := t.messages, chats := t.chats) == t
  {
    match ChatOf(t.chats, contestId)
    case None => t
    case Some(ch) => t.(messages := Filter(t.messages, MessageNotIn(ch.chatId)), chats := Filter(t.chats, ChatNotFor(contestId)))
  }

  /**
   * The tables after a contest's cascade: its chat part, then the membership rows of its
   * teams, its teams, its registrations and the contest row.
   */
  ghost function Cascade(t: Tables, contestId: int): Tables {
    WithoutChat(t, contestId).(
      members := Filter(t.members, NotInTeams(Transitions.TeamIdsOf(t.teams, contestId))),
      teams := Filter(t.teams, TeamNotFor(contestId)),
      registrations := Filter(t.registrations, RegistrationNotFor(contestId)),
      contests := Without(t.contests, ContestKey, contestId))
  }

  /** The cascade keeps the invariant. */
  lemma CascadeConsistent(t: Tables, contestId: int)
    requires Consistent(t)
    ensures Consistent(Cascade(t, contestId))
  {
    var t1 := t;
    var chat := ChatOf(t.chats, contestId);
    if chat.Some? {
      Transitions.RemoveContestChats(t, contestId, chat.value);
      t1 := t.(messages := Filter(t.messages, MessageNotIn(chat.value.chatId)), chats := Filter(t.chats, ChatNotFor(contestId)));
    }
    Transitions.RemoveContestTeams(t1, contestId);
    var ids := Transitions.TeamIdsOf(t.teams, contestId);
    var t2 := t1.(members := Filter(t.members, NotInTeams(ids)), teams := Filter(t.teams, TeamNotFor(contestId)));
    Transitions.FilterRegistrations(t2, RegistrationNotFor(contestId));
    var t3 := t2.(registrations := Filter(t.registrations, RegistrationNotFor(contestId)));
    Transitions.FilterContests(t3, KeyIsNot(ContestKey, contestId));
  }

  /**
   * The cascade is complete: nothing of the contest is left, no membership row of one of
   * its teams and no message of one of its chats.
   */
  lemma CascadeRemovesContest(t: Tables, contestId: int)
    requires Consistent(t)
    ensures var t' := Cascade(t, contestId);
      && ContestById(t'.contests, contestId).None?
      && (forall r :: r in t'.registrations ==> r.contestId != contestId)
      && (forall u :: u in t'.teams ==> u.contestId != contestId)
      && (forall ch :: ch in t'.chats ==> ch.contestId != contestId)
      && (forall m, u :: m in t'.members && u in t.teams && u.teamId == m.teamId ==> u.contestId != contestId)
      && (forall m, ch :: m in t'.messages && ch in t.chats && ch.chatId == m.chatId ==> ch.contestId != contestId)
  {
    var t' := Cascade(t, contestId);
    var first := ChatOf(t.chats, contestId);
    forall m, ch | m in t'.messages && ch in t.chats && ch.chatId == m.chatId
      ensures ch.contestId != contestId
    {
      ChatByIdFinds(t.chats, ch);
      assert InFirstChat(t.chats, m.chatId);
    }
  }

  /** The cascade leaves every row of every other contest where it was. */
  lemma CascadeKeepsOthers(t: Tables, contestId: int)
    requires Consistent(t)
    ensures var t' := Cascade(t, contestId);
      && (forall c :: c in t'.contests <==> c in t.contests && c.contestId != contestId)
      && (forall r :: r in t'.registrations <==> r in t.registrations && r.contestId != contestId)
      && (forall u :: u in t'.teams <==> u in t.teams && u.contestId != contestId)
      && (forall ch :: ch in t'.chats <==> ch in t.chats && ch.contestId != contestId)
      && (forall m, u :: m in t.members && u in t.teams && u.teamId == m.teamId && u.contestId != contestId ==> m in t'.members)
      && (forall m, ch :: m in t.messages && ch in t.chats && ch.chatId == m.chatId && ch.contestId != contestId ==> m in t'.messages)
      && t'.students == t.students && t'.coordinators == t.coordinators && t'.mentors == t.mentors
  {
    var t' := Cascade(t, contestId);
    var ids := Transitions.TeamIdsOf(t.teams, contestId);
    forall m, u | m in t.members && u in t.teams && u.teamId == m.teamId && u.contestId != contestId
      ensures m in t'.members
    {
      if m.teamId in ids {
        var w :| w in t.teams && w.contestId == contestId && w.teamId == m.teamId;
        TeamByIdFinds(t.teams, w);
        TeamByIdFinds(t.teams, u);
      }
    }
    forall m, ch | m in t.messages && ch in t.chats && ch.chatId == m.chatId && ch.contestId != contestId
      ensures m in t'.messages
    {
      var first := ChatOf(t.chats, contestId);
      if first.Some? && first.value.chatId == m.chatId {
        ChatByIdFinds(t.chats, ch);
        ChatByIdFinds(t.chats, first.value);
      }
    }
  }

  /** Deleting one more team's membership rows extends the set of deleted teams by one. */
  lemma RemoveMembersStep(members: seq<TeamMember>, ids: seq<int>, i: nat)
    requires i < |ids|
    ensures Filter(Filter(members, NotInTeams(ids[..i])), NotOfTeam(ids[i])) == Filter(members, NotInTeams(ids[..i + 1]))
  {
    assert ids[..i + 1] == ids[..i] + [ids[i]];
    FilterFilter(members, NotInTeams(ids[..i]), NotOfTeam(ids[i]), NotInTeams(ids[..i + 1]));
  }

  /** `DELETE FROM team_members WHERE team_id = ?` for each of the teams, one at a time. */
  method RemoveMembersOf(db: Db, ids: seq<int>)
    modifies db
    ensures db.State() == old(db.State()).(members := Filter(old(db.members), NotInTeams(ids)))
  {
    ghost var t := db.State();
    FilterAll(db.members, NotInTeams(ids[..0]));
    var i := 0;
    while i < |ids|
      invariant 0 <= i <= |ids|
      invariant db.members == Filter(t.members, NotInTeams(ids[..i]))
      invariant db.State() == t.(members := db.members)
    {
      RemoveMembersStep(t.members, ids, i);
      db.members := Filter(db.members, NotOfTeam(ids[i]));
      i := i + 1;
    }
    assert ids[..i] == ids;
  }

  /** The chat statements of a delete. */
  method RemoveChatOf(db: Db, contestId: int)
    modifies db
    ensures db.State() == WithoutChat(old(db.State()), contestId)
  {
    var chat := ChatOf(db.chats, contestId);
    if chat.Some? {
      db.messages := Filter(db.messages, MessageNotIn(chat.value.chatId));
      db.chats := Filter(db.chats, ChatNotFor(contestId));
    }
  }

  /**
   * The write of a delete, statement by statement: the chat part, the membership rows team
   * by team, then teams, registrations and the contest.
   */
  method RemoveContest(db: Db, contestId: int)
    requires db.Valid()
    modifies db
    ensures db.Valid()
    ensures db.State() == Cascade(old(db.State()), contestId)
  {
    CascadeConsistent(db.State(), contestId);
    RemoveChatOf(db, contestId);
    RemoveMembersOf(db, Transitions.TeamIdsOf(db.teams, contestId));
    RemoveContestRows(db, contestId);
  }

  /** The last three statements of a delete: the contest's teams, registrations and row. */
  method RemoveContestRows(db: Db, contestId: int)
    modifies db
    ensures db.State() == old(db.State()).(
      teams := Filter(old(db.teams), TeamNotFor(contestId)),
      registrations := Filter(old(db.registrations), RegistrationNotFor(contestId)),
      contests := Without(old(db.contests), ContestKey, contestId))
  {
    db.teams := Filter(db.teams, TeamNotFor(contestId));
    db.registrations := Filter(db.registrations, RegistrationNotFor(contestId));
    db.contests := Without(db.contests, ContestKey, contestId);
  }

  /**
   * DELETE /api/contests/:id: 404 for an unknown contest, 403 unless the caller created it,
   * and otherwise the cascade.
   */
  method Delete(db: Db, caller: Identity, id: int) returns (reply: Reply<string>)
    requires db.Valid()
    modifies db
    ensures db.Valid()
    ensures ContestById(old(db.contests), id).None? ==> reply == Err(NotFound, "Contest not found")
    ensures ContestById(old(db.contests), id).Some? ==>
      var c := ContestById(old(db.contests), id).value;
      && (c.createdBy != caller.id ==> reply == Err(Forbidden, "You can only delete your own contests"))
      && (c.createdBy == caller.id ==> reply == Ok(OkStatus, "Contest deleted successfully"))
    ensures reply.Err? ==> db.State() == old(db.State())
    ensures reply.Ok? ==> db.State() == Cascade(old(db.State()), id)
  {
    var found := ContestById(db.contests, id);
    if found.None? {
      return Err(NotFound, "Contest not found");
    }
    if found.value.createdBy != caller.id {
      return Err(Forbidden, "You can only delete your own contests");
    }
    RemoveContest(db, id);
    reply := Ok(OkStatus, "Contest deleted successfully");
  }

  /** A contest as the list returns it: the row, the two LEFT JOINed names, and its registration count. */
  datatype ContestSummary = ContestSummary(
    contest: Contest, coordinatorName: Option<string>, mentorName: Option<string>, registrationCount: nat)

  function CoordinatorName(coordinators: seq<Coordinator>, id: int): Option<string> {
    match CoordinatorById(coordinators, id)
    case None => None
    case Some(c) => Some(c.name)
  }

  function MentorName(mentors: seq<Mentor>, id: Option<int>): Option<string> {
    if id.None? then None
    else match MentorById(mentors, id.value)
      case None => None
      case Some(m) => Some(m.name)
  }

  function SummaryOf(t: Tables): Contest -> ContestSummary {
    (c: Contest) => ContestSummary(c, CoordinatorName(t.coordinators, c.createdBy),
      MentorName(t.mentors, c.mentorId), RegistrationCount(t.registrations, c.contestId))
  }

  function SummaryDeadline(e: ContestSummary): int { e.contest.registrationDeadline }

  /**
   * GET /api/contests: every contest once, with its registration count, latest registration
   * deadline first.
   */
  function List(t: Tables): (r: seq<ContestSummary>)
    ensures |r| == |t.contests|
    ensures SortedDesc(r, SummaryDeadline)
    ensures forall e :: e in r <==> e.contest in t.contests && e == SummaryOf(t)(e.contest)
  {
    var rows := Map(t.contests, SummaryOf(t));
    var r := SortDesc(rows, SummaryDeadline);
    SameElements(r, rows);
    forall e | e in rows ensures e.contest in t.contests && e == SummaryOf(t)(e.contest) {
      var i :| 0 <= i < |rows| && rows[i] == e;
    }
    r
  }

  /** A contest as the detail view returns it. */
  datatype ContestDetail = ContestDetail(
    contest: Contest, coordinator: Option<Coordinator>, mentorName: Option<string>,
    registrationCount: nat, teams: seq<Teams.TeamSummary>)

  /**
   * GET /api/contests/:id: 404 for an unknown contest; otherwise the contest with its
   * registration count, and, when it is team-based, each of its teams once with its member count.
   */
  function Detail(t: Tables, id: int): (r: Reply<ContestDetail>)
    ensures ContestById(t.contests, id).None? <==> r == Err(NotFound, "Contest not found")
    ensures r.Ok? ==>
      && r.code == OkStatus
      && Some(r.body.contest) == ContestById(t.contests, id)
      && r.body.registrationCount == RegistrationCount(t.registrations, id)
      && (!r.body.contest.isTeamBased ==> r.body.teams == [])
      && (r.body.contest.isTeamBased ==> forall e :: e in r.body.teams <==>
            e.team in t.teams && e.team.contestId == id && e.memberCount == MemberCount(t.members, e.team.teamId))
      && (Consistent(t) ==> forall i, j :: 0 <= i < j < |r.body.teams| ==> r.body.teams[i].team.teamId != r.body.teams[j].team.teamId)
  {
    match ContestById(t.contests, id)
    case None => Err(NotFound, "Contest not found")
    case Some(c) =>
      Ok(OkStatus, ContestDetail(
        c, CoordinatorById(t.coordinators, c.createdBy), MentorName(t.mentors, c.mentorId),
        RegistrationCount(t.registrations, id),
        if c.isTeamBased then Teams.TeamsForContest(t, id) else []))
  }
}
