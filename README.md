# KIOT-CONTEST business rules in Dafny

KIOT-CONTEST is a contest portal. Students register for contests, alone or as a team. Coordinators
create and own contests and assign mentors. Every contest has one group chat. This project models:

- the portal's Express route handlers: registrations, teams, chat, contests, mentors and accounts;
- the two request guards `authenticate` and `authorize`;
- the pure derivations the React pages compute from the server's replies: status badges, tab
  filters and their counts, search, the "time left" arithmetic, the action buttons of the contest
  page, the sign-up form's checks, and the chat page's client-side stores.

The SQL database is a value of nine tables (`Store.Tables`). Each table is a sequence of rows in
rowid order. The schema file is not part of this model. Each table is assumed to have a plain
`INTEGER PRIMARY KEY`, with no `AUTOINCREMENT` and no foreign-key constraints. The server does turn
foreign-key enforcement on (server/src/db/index.js:32), so a schema that declares such keys would
refuse some writes the model accepts (see "## Left out"). A fresh row then
takes the next rowid, one more than the largest so far. The live database is one object, `Store.Db`, whose fields are the nine
tables. Every write handler is a method that `modifies` it. The handler runs the source's guard
checks in the source's order and either answers with an error status, changing nothing, or makes
exactly the writes the source makes. Every handler keeps `Store.Consistent`, the store invariant:

- keys are strictly increasing, so they are unique;
- there is at most one registration per (contest, student);
- a student is in at most one team per contest;
- every message records exactly one sender;
- every message belongs to the first chat of its contest.

Read-only handlers are functions of the tables.

The client pages are pure functions over the replies' data. The one exception is the chat page's
local storage, a class whose two maps the page rewrites.

Time is an integer number of milliseconds (`now` is a parameter). Password hashing, password
comparison, token signing and token verification stand for bcrypt and JWT: they are function
parameters (`hash`, `matches`, `sign`, `verify`).

Module layout:

- `wrappers.dfy`, `seqs.dfy`, `text.dfy`: general vocabulary and its lemmas.
  - `seqs.dfy`: filter, find, map, an insertion sort by key, reverse, take.
  - `text.dfy`: trim, ASCII lower-casing, substring search.
- `schema.dfy`: the rows, the caller identity, replies and status codes.
- `store.dfy`: the tables, the store invariant and the lookups by key.
- `transitions.dfy`: one lemma per kind of write, proving the write keeps the invariant.
- One module per server route file:
  - `registrations.dfy`, `teams.dfy`, `chat.dfy`, `contests.dfy`, `mentors.dfy`, `auth_routes.dfy`;
  - `auth_middleware.dfy` for the guards.
- `client_status.dfy`: the three-way phase split that several pages share.
- One module per client page:
  - `contest_list.dfy`, `student_my_contests.dfy`, `student_home.dfy`;
  - `coordinator_dashboard.dfy`, `student_profile.dfy`, `student_dashboard.dfy`;
  - `contest_detail_page.dfy`, `register_page.dfy`, `contest_chat_page.dfy`.

The model follows the code as written. Some of that behaviour is easy to miss, and in each case
a lemma or a contract makes it visible:

- The server accepts a registration or a team action exactly at the registration deadline. It
  refuses only once `now > deadline`. The contest page offers the action only while
  `now < deadline`. See `ContestDetailPage.DeadlineInstantNotOffered`.
- `PUT /api/contests/:id` does not re-check the deadline order. An accepted update can leave the
  submission deadline before the registration deadline (`Contests.UpdateMayReorderDeadlines`).
  The coordinator dashboard can then list a contest under "past" while its badge says "Open"
  (`CoordinatorDashboardPage.ReorderedContestOpenInPast`).
- The same update binds all twelve body fields as they are. sql.js cannot bind `undefined`, so a
  body that leaves out any of the twelve is answered 500 and nothing is written (`Contests.Update`).
  A body that sends a field as `null` keeps that column, except two. `mentor_id` is always
  overwritten, so `null` clears it. `is_team_based` is bound as 1 or 0 by truthiness, so `null`
  stores 0. A body of twelve nulls therefore clears the mentor and the team flag
  (`Contests.NullUpdateClearsMentorAndTeamFlag`).
- A chat post from a role with no sender column is refused only after the chat thread has been
  created, so the refusal can leave a new chat behind (`Chat.Send`).
- Joining a team whose contest row is gone fails with status 500. The handler reads the
  contest's deadline without a null check. The same holds for cancelling a registration whose
  contest is gone (`Teams.Join`, `Registrations.Cancel`).

## Model

| member | source | states |
|---|---|---|
| AuthMiddleware.Authenticate | server/src/middleware/auth.js:6-22 | a missing header or one without the `Bearer ` prefix is answered 401 "Authorization token required" before any verification; otherwise the token is the header's second space-separated field, and the request goes on with the identity it verifies to, or is answered 401 "Invalid or expired token" |
| AuthMiddleware.BearerToken | server/src/middleware/auth.js:9-13 | for a token without spaces, `Bearer <token>` passes the prefix test and the extracted token is exactly that token |
| AuthMiddleware.Authorize | server/src/middleware/auth.js:25-40 | 401 when no user is attached, 403 "Access denied" with the message "This action requires one of: " and the listed roles when the role is not listed; the request goes on if and only if a user is attached and its role is listed, and it goes on with that user |
| AuthMiddleware.GuardAdmits | server/src/middleware/auth.js:6-40 | behind both guards a handler runs if and only if the bearer token verifies to an identity with a listed role, and it runs for that identity; every refusal is 401 or 403 |
| Auth.FindAccount | server/src/routes/auth.js:20-35 | login's lookup finds a row if and only if the requested role's own table holds the e-mail, and then the row comes from that table only |
| Auth.Login | server/src/routes/auth.js:9-65 | 400 unless e-mail, password and role are given; 400 for a role other than student, coordinator or mentor; 401 "Invalid credentials" for an e-mail unknown to that role's table and for a wrong password; otherwise the token signs the requested role and the row's key, and the reply's user is the row without its hash |
| Auth.LoginFailsUniformly | server/src/routes/auth.js:37-44 | an unknown e-mail and a wrong password get the identical 401 reply |
| Auth.LoginIdentity | server/src/routes/auth.js:46-59 | a successful login's token carries the requested role and the key of the row in that role's table |
| Auth.NewStudent | server/src/routes/auth.js:85-90 | a sign-up row holds the form's e-mail and register number, the hash of the password, and NULL for a falsy phone number |
| Auth.InsertStudent | server/src/routes/auth.js:87-90 | the sign-up write appends one student row and keeps the store invariant |
| Auth.Register | server/src/routes/auth.js:68-117 | 400 unless every field but `phone_no` is given; 409 when a student already has the e-mail or the register number; otherwise one student row with the next key, answered 201 with a token for role `student`; a refusal changes nothing |
| Auth.SignUpTakesEmail | server/src/routes/auth.js:76-83 | after a sign-up, another sign-up with the same e-mail or register number is refused |
| Auth.FindProfile | server/src/routes/auth.js:125-139 | the profile is looked up by key in the table of the token's role only, and no other role has one |
| Auth.Me | server/src/routes/auth.js:120-147 | 404 "User not found" if and only if the token's role table has no row with its key; otherwise the row without its hash and the role |
| Auth.StudentProfileFinds | server/src/routes/auth.js:125-139 | with unique keys, a student's own key finds that student's profile |
| Auth.CoordinatorProfileFinds | server/src/routes/auth.js:125-139 | with unique keys, a coordinator's own key finds that coordinator's profile |
| Auth.MentorProfileFinds | server/src/routes/auth.js:125-139 | with unique keys, a mentor's own key finds that mentor's profile |
| Auth.LoginThenMe | server/src/routes/auth.js:46-59 | the session a login opens leads `me` back to the same user the login answered with |
| Registrations.Register | server/src/routes/registrations.js:8-58 | checks in order: contest id given (400), contest exists (404), `now > deadline` refused (400), team-based refused (400), already registered (409); registering exactly at the deadline is accepted; success appends one row for (contest, caller) with the next id, answers 201 with it, and changes nothing else |
| Registrations.DeleteRegistration | server/src/routes/registrations.js:143 | the cancel write deletes the one row with the registration's id, so the table shrinks by one |
| Registrations.Cancel | server/src/routes/registrations.js:118-150 | checks in order: registration exists (404), it is the caller's (403), its contest's deadline not passed (400); success deletes exactly that row |
| Registrations.MyRegistrations | server/src/routes/registrations.js:61-88 | exactly the caller's registrations whose contest exists, joined with it, newest `registered_at` first; in a consistent store no registration appears twice, so the reply is a permutation of those rows |
| Registrations.ContestRegistrations | server/src/routes/registrations.js:91-115 | exactly the contest's registrations whose student exists, joined with the student, newest `registered_at` first; in a consistent store no registration appears twice |
| Registrations.CancelUndoesRegister | server/src/routes/registrations.js:46-48 | deleting the row a registration appended gives back the registrations as they were |
| Teams.EnsureRegistered | server/src/routes/teams.js:57-66 | after "register unless registered" the student is registered, and an existing registration leaves the rows unchanged |
| Teams.EnsureRegisteredAppends | server/src/routes/teams.js:57-66 | without a registration for the pair, exactly one row with a fresh id is appended |
| Teams.EnsureRegisteredIdempotent | server/src/routes/teams.js:121-130 | ensuring a registration twice is ensuring it once |
| Teams.EnsureRegisteredConsistent | server/src/routes/teams.js:57-66 | ensuring a registration keeps one registration per (contest, student) and the rest of the invariant |
| Teams.CreateConsistent | server/src/routes/teams.js:35-66 | the writes of a create keep the invariant, including one team per student per contest, when the caller is in no team of the contest |
| Teams.JoinConsistent | server/src/routes/teams.js:98-130 | the writes of a join keep the invariant when the caller is in no team of the contest |
| Teams.AddTeam | server/src/routes/teams.js:46-66 | the create writes: the team row, the leader's membership row, the leader's registration unless one exists |
| Teams.AddMember | server/src/routes/teams.js:119-130 | the join writes: one membership row, the member's registration unless one exists |
| Teams.Create | server/src/routes/teams.js:8-76 | checks in order: contest id and name given (400), contest exists (404), team-based (400), deadline not passed (400), caller in no team of the contest (409); success adds a team led by the caller whose only member is the caller, and registers the caller unless registered |
| Teams.Join | server/src/routes/teams.js:79-137 | checks in order: team exists (404), a missing contest fails with 500, deadline not passed (400), caller in no team of the contest (409), member count below `max_team_size` (400 "Team is full"); it succeeds if and only if every check passes, and success adds one membership row and registers the caller unless registered |
| Teams.RemoveMember | server/src/routes/teams.js:256 | the leave write deletes the member's membership row of the team and nothing else |
| Teams.Leave | server/src/routes/teams.js:231-263 | checks in order: team exists (404), caller is not the leader (400), caller is a member (404); success deletes only that membership row, and the registration stays |
| Teams.TeamsForContest | server/src/routes/teams.js:140-162 | exactly the contest's teams, each with its number of membership rows; in a consistent store each team appears once |
| Teams.StudentRowsDistinct | server/src/routes/teams.js:212-222 | in a consistent store the caller's membership rows, joined with their teams and contests, name pairwise different teams |
| Teams.MyTeamRows | server/src/routes/teams.js:212-222 | the caller's membership rows whose team and contest exist, joined with them; in a consistent store each team appears once |
| Teams.MyTeamsFromRows | server/src/routes/teams.js:209-228 | the entries built from the caller's rows are exactly the caller's memberships whose team and contest exist, each team once in a consistent store |
| Teams.MyTeams | server/src/routes/teams.js:209-228 | one entry per membership of the caller whose team and contest exist, with the member count: exactly those teams, and in a consistent store each once |
| Teams.TeamRowsDistinct | server/src/routes/teams.js:190-199 | in a consistent store a team's membership rows, joined with their students, name pairwise different students |
| Teams.TeamDetails | server/src/routes/teams.js:165-206 | 404 "Team not found" if and only if the team is unknown; otherwise the team, its contest when it exists, and exactly its membership rows whose student exists, each student once in a consistent store |
| Teams.JoinRespectsCapacity | server/src/routes/teams.js:109-119 | a join accepted below capacity leaves the team with at most `max_team_size` members |
| Chat.EnsureChat | server/src/routes/chat.js:44-50 | after get-or-create the contest has a chat, and an existing chat leaves the chats unchanged |
| Chat.EnsureChatCreates | server/src/routes/chat.js:44-50 | without a chat, exactly one is appended with a fresh id, and later lookups find it |
| Chat.EnsureChatIdempotent | server/src/routes/chat.js:105-110 | repeated accesses create no more chats |
| Chat.GetOrCreateChat | server/src/routes/chat.js:44-50 | returns the contest's existing chat, or the one it inserts, and keeps the invariant |
| Chat.Candidates | server/src/routes/chat.js:62-74 | a page draws from exactly the chat's messages, those below `before` when it is given |
| Chat.LimitCount | server/src/routes/chat.js:41 | `LIMIT n` keeps `n` rows when there are more, all of them otherwise, and a negative limit keeps all |
| Chat.Page | server/src/routes/chat.js:53-85 | a page is in ascending `sent_at` order, holds at most `limit` messages, and only candidates |
| Chat.PageIsNewestPrefix | server/src/routes/chat.js:76-85 | a page holds exactly the messages of the first `limit` candidates, newest first |
| Chat.PageKeepsNewest | server/src/routes/chat.js:69-85 | every candidate left off a page was sent no later than every message on it; a page the limit does not cut holds all candidates |
| Chat.ReadThread | server/src/routes/chat.js:38-91 | reading creates the chat when missing (the contest is not looked up) and returns one page with the default limit 50 |
| Chat.NewMessage | server/src/routes/chat.js:113-131 | a new message has exactly one sender column set, the one of the poster's role, holding the poster's id |
| Chat.InsertMessage | server/src/routes/chat.js:128-131 | the post write appends one message and keeps the invariant |
| Chat.Send | server/src/routes/chat.js:94-147 | missing or whitespace-only text is refused (400) before anything else; a role with no sender column is refused (400) only after the chat was created; otherwise the trimmed text is stored with the next id and the caller's sender column, answered 201 |
| Chat.OnlySenderMayDelete | server/src/routes/chat.js:161-173 | a posted message may be deleted by its poster, and by no caller with another id or another role |
| Chat.RemoveMessage | server/src/routes/chat.js:179 | the delete write removes exactly that message |
| Chat.Delete | server/src/routes/chat.js:150-186 | 404 for an unknown message, 403 unless the caller's sender column holds the caller's id, and otherwise exactly that message is removed |
| Chat.SenderRole | server/src/routes/chat.js:56-60 | `sender_role` is the first non-null of student, mentor and coordinator, in that order, and NULL when all are null |
| Chat.SenderRoleOfPosted | server/src/routes/chat.js:56-60 | a posted message reads back with the poster's role |
| Chat.ContestOfChat | server/src/routes/chat.js:22-24 | the contest row whose id is the chat's `contest_id`; none exactly when the chat or that contest does not exist |
| Chat.SentRows | server/src/routes/chat.js:20-26 | exactly the caller's messages in the caller's sender column joined with their chats' contests |
| Chat.LastSent | server/src/routes/chat.js:27 | the latest `sent_at` among a contest's rows: no row is later, and some row has it |
| Chat.MyGroups | server/src/routes/chat.js:8-35 | nothing for a role with no sender column; otherwise exactly the contests whose chat holds a message of the caller's, each once, most recently active first |
| Chat.GroupsOfRows | server/src/routes/chat.js:20-26 | grouping the rows yields each contest with a message of the caller's, and each once |
| Chat.SortedGroups | server/src/routes/chat.js:20-28 | ordering the groups by recency keeps exactly those contests, each once |
| Contests.ImageUrl | server/src/routes/contests.js:143 | the image column is the uploaded file's `/uploads/` path when a file came, otherwise the `image_url` field or NULL |
| Contests.NewContest | server/src/routes/contests.js:161-182 | a new contest is owned by the caller, team-based only for `true` or `'true'`, has `max_team_size` 1 unless given, and the given title and deadlines |
| Contests.InsertContest | server/src/routes/contests.js:161-185 | the create writes: the contest row, then exactly one chat for it |
| Contests.CreateError | server/src/routes/contests.js:120-159 | the create checks in order: an upload error is answered with its own message; then title and both deadlines must be given; then the request is refused if and only if the registration deadline is not strictly before the submission deadline; a request that passes has both deadlines, in order |
| Contests.Create | server/src/routes/contests.js:119-196 | a request failing a check is answered 400 with that check's message and changes nothing; otherwise the contest is inserted with the next id, owned by the caller, with registration deadline strictly before submission deadline, together with exactly one chat |
| Contests.Coalesce | server/src/routes/contests.js:232-245 | `COALESCE(?, column)` over a NOT NULL column: a value replaces the column, `null` keeps it |
| Contests.CoalesceNullable | server/src/routes/contests.js:232-245 | `COALESCE(?, column)` over a nullable column: a value replaces the column, `null` keeps it |
| Contests.Updated | server/src/routes/contests.js:230-258 | for a body that carries all twelve fields: a `null` field keeps its column and a value replaces it; `mentor_id` is always overwritten, `null` clearing it; `is_team_based` becomes the field's truthiness, `null` giving false; id, organizer, platform and owner are left alone |
| Contests.ResubmitKeepsContest | server/src/routes/contests.js:230-258 | resending a contest's own values leaves its row unchanged |
| Contests.NullUpdateClearsMentorAndTeamFlag | server/src/routes/contests.js:230-258 | a body of twelve nulls clears the mentor, stores false for `is_team_based`, and changes nothing else |
| Contests.UpdateMayReorderDeadlines | server/src/routes/contests.js:230-258 | an update that resends every value but a new submission deadline can be bound, and it can put the submission deadline at or before the registration deadline |
| Contests.Update | server/src/routes/contests.js:199-266 | 404 for an unknown contest; 403 unless the caller created it; 500 "Failed to update contest" with nothing written when a field is missing from the body, since sql.js cannot bind `undefined`; otherwise exactly that row is replaced by its update |
| Contests.WithoutChat | server/src/routes/contests.js:285-290 | the chat part of a delete touches only messages and chats |
| Contests.CascadeConsistent | server/src/routes/contests.js:285-298 | the delete cascade keeps the store invariant |
| Contests.CascadeRemovesContest | server/src/routes/contests.js:285-298 | after the cascade nothing of the contest is left: no contest row, registration, team, chat, membership of its teams or message of its chats |
| Contests.CascadeKeepsOthers | server/src/routes/contests.js:285-298 | the cascade keeps every row of every other contest, and the user tables |
| Contests.RemoveMembersOf | server/src/routes/contests.js:293-295 | the loop over the contest's teams deletes exactly their membership rows |
| Contests.RemoveChatOf | server/src/routes/contests.js:285-290 | the chat statements of a delete are the chat part of the cascade |
| Contests.RemoveContest | server/src/routes/contests.js:285-298 | the delete statements, one by one, are the cascade |
| Contests.Delete | server/src/routes/contests.js:269-305 | 404 for an unknown contest, 403 unless the caller created it, otherwise the cascade |
| Contests.List | server/src/routes/contests.js:43-62 | every contest exactly once with its coordinator's and mentor's names and its registration count, latest registration deadline first |
| Contests.Detail | server/src/routes/contests.js:65-116 | 404 if and only if the contest is unknown; otherwise the contest, its registration count, no teams unless it is team-based, and then exactly its teams, each once in a consistent store, with its member count |
| Mentors.ViewOf | server/src/routes/mentors.js:46-51 | a mentor as the list shows it: every column but the password hash |
| Mentors.InsertMentor | server/src/routes/mentors.js:25-28 | the create write appends one mentor and keeps the invariant |
| Mentors.Create | server/src/routes/mentors.js:9-43 | 400 unless name, e-mail, password and department are given; 409 for a taken e-mail; otherwise one mentor with the next id and the hashed password, answered 201 with the new id, name, e-mail and department only |
| Mentors.SecondCreateConflicts | server/src/routes/mentors.js:17-21 | after a create, a second create with the same e-mail is refused |
| Mentors.List | server/src/routes/mentors.js:46-58 | every mentor, in table order, without the password hash |
| Mentors.MyContests | server/src/routes/mentors.js:61-75 | exactly the contests assigned to the mentor, latest registration deadline first |
| Mentors.MyTeams | server/src/routes/mentors.js:78-97 | exactly the mentor's teams whose contest exists, with the contest title, the leader's name and the member count; in a consistent store each team appears once |
| Mentors.AssignContest | server/src/routes/mentors.js:100-127 | checks in order: both ids given (400), contest exists (404), mentor exists (404); success sets that contest's mentor and changes nothing else |
| Mentors.SetContestMentor | server/src/routes/mentors.js:120 | the assignment write replaces that contest's row and keeps the invariant |
| Mentors.AssignChangesOnlyMentor | server/src/routes/mentors.js:120 | an assignment changes only the mentor column of the one contest it names |
| Mentors.SetTeamMentor | server/src/routes/mentors.js:150 | the assignment write replaces that team's row and keeps the invariant |
| Mentors.AssignTeam | server/src/routes/mentors.js:130-157 | checks in order: both ids given (400), team exists (404), mentor exists (404); success sets that team's mentor and changes nothing else |
| Store.MembershipsUnique | server/src/routes/teams.js:30-43 | when every membership row has a team and a student is in at most one team per contest, no (team, student) pair has two rows |
| Store.MemberCount | server/src/routes/teams.js:109-116 | a team's member count is at most the number of membership rows, and zero exactly when none is the team's |
| Store.MemberCountAppend | server/src/routes/teams.js:109-116 | one more membership row adds one to its own team's count and nothing to any other's, so with the empty table's 0 the count is the number of the team's rows |
| Store.RegistrationCount | server/src/routes/contests.js:50 | a contest's registration count is at most the number of registrations, and zero exactly when none is the contest's |
| Store.RegistrationCountAppend | server/src/routes/contests.js:50 | one more registration adds one to its own contest's count and nothing to any other's, so with the empty table's 0 the count is the number of the contest's rows |
| ClientStatus.PhaseAt | client/src/pages/ContestList.jsx:27-35 | Open exactly when `now < registration deadline`, Ongoing exactly when between the deadlines, Ended exactly when both have passed |
| ClientStatus.PhasesPartition | client/src/pages/ContestList.jsx:27-51 | the three phases split any list: their filtered lengths sum to its length |
| ContestListPage.GetStatus | client/src/pages/ContestList.jsx:27-35 | exactly one of the three badges, chosen by strict comparison with both deadlines |
| ContestListPage.Filtered | client/src/pages/ContestList.jsx:47-51 | 'all' gives the list unchanged; any other filter gives an order-preserving sub-list of exactly the contests whose lower-cased label equals the filter |
| ContestListPage.LoweredLabels | client/src/pages/ContestList.jsx:47-51 | the lower-cased labels are 'open', 'ongoing' and 'ended' |
| ContestListPage.TabIsPhase | client/src/pages/ContestList.jsx:47-51 | each tab shows exactly the contests in that phase |
| ContestListPage.TabsPartition | client/src/pages/ContestList.jsx:27-51 | the open, ongoing and ended tabs partition the list |
| ContestListPage.UnknownTabEmpty | client/src/pages/ContestList.jsx:47-51 | a filter other than the four tabs shows nothing |
| StudentMyContestsPage.GetContestStatus | client/src/pages/StudentMyContests.jsx:32-40 | exactly one of open, ongoing or completed, by strict comparison with both deadlines |
| StudentMyContestsPage.FilteredRegistrations | client/src/pages/StudentMyContests.jsx:50-56 | 'active' keeps the rows not yet completed, 'completed' the rows past both deadlines, and 'all' or any unknown tab keeps all rows unchanged |
| StudentMyContestsPage.TabCounts | client/src/pages/StudentMyContests.jsx:71-75 | the 'all' count is the number of registrations, and active plus completed equals it |
| StudentMyContestsPage.CountsMatchTabs | client/src/pages/StudentMyContests.jsx:50-75 | each tab's count is the length of the list that tab shows |
| StudentMyContestsPage.GetTeamForContest | client/src/pages/StudentMyContests.jsx:59-61 | the first of the student's teams for the contest, and none exactly when no team is for it |
| StudentMyContestsPage.CardTeam | client/src/pages/StudentMyContests.jsx:121 | a team is shown only for team-based contests |
| StudentHomePage.OpenContests | client/src/pages/StudentHome.jsx:27-29 | exactly the contests whose registration deadline is after now, none for an empty list |
| StudentHomePage.OpenContestsAppend | client/src/pages/StudentHome.jsx:27-29 | adding a contest at the end adds it at the end of the open list when it is open, and nothing otherwise, so the open contests keep list order |
| StudentHomePage.RegistrationCounts | client/src/pages/StudentHome.jsx:41-42 | the active and completed counts sum to the number of registrations |
| StudentHomePage.Search | client/src/pages/StudentHome.jsx:44-48 | a contest is kept exactly when the lower-cased query occurs in its title, organizer or platform; an empty query keeps all |
| StudentHomePage.GetTimeLeft | client/src/pages/StudentHome.jsx:50-60 | 'Closed' exactly when the deadline is not after now; the days-and-hours form exactly when at least a day is left; the parts reconstruct the time left, with 0 <= hours < 24 and 0 <= minutes < 60 |
| CoordinatorDashboardPage.MyContests | client/src/pages/CoordinatorDashboard.jsx:57 | exactly the contests the coordinator created |
| CoordinatorDashboardPage.DashboardStats | client/src/pages/CoordinatorDashboard.jsx:62-74 | total is the number of own contests; active counts those with submission deadline after now and is at most total; participants is 0 for no contests, non-negative and at least each contest's count; with ParticipantsAppend it is the sum of the counts |
| CoordinatorDashboardPage.ParticipantsAppend | client/src/pages/CoordinatorDashboard.jsx:68 | participants is additive: one more contest adds its count |
| CoordinatorDashboardPage.TabContests | client/src/pages/CoordinatorDashboard.jsx:109-118 | the active tab keeps exactly the contests whose submission deadline is after now, the other tab the rest |
| CoordinatorDashboardPage.Visible | client/src/pages/CoordinatorDashboard.jsx:109-119 | the visible contests are those on the tab whose lower-cased title contains the query |
| CoordinatorDashboardPage.TabsPartition | client/src/pages/CoordinatorDashboard.jsx:63-118 | the two tabs partition the own contests, and the active stat is the active tab's length |
| CoordinatorDashboardPage.BadgeAgreesWithTab | client/src/pages/CoordinatorDashboard.jsx:90-118 | for a contest with ordered deadlines, its badge is not Ended exactly when it is on the active tab |
| CoordinatorDashboardPage.ReorderedContestOpenInPast | client/src/pages/CoordinatorDashboard.jsx:90-118 | a contest whose update reordered the deadlines can show the Open badge on the past tab |
| StudentProfilePage.StatusKey | client/src/pages/StudentProfile.jsx:31-39 | exactly one of 'open', 'ongoing' or 'completed', by strict comparison with both deadlines |
| StudentProfilePage.ProfileStats | client/src/pages/StudentProfile.jsx:41-46 | active plus completed equals total |
| StudentProfilePage.StatsMatchMyContests | client/src/pages/StudentProfile.jsx:41-46 | the profile's counts are those of the My Contests tabs |
| StudentProfilePage.Recent | client/src/pages/StudentProfile.jsx:71 | a prefix of the registrations of length at most 3 |
| StudentProfilePage.StatusMapTotal | client/src/pages/StudentProfile.jsx:139-145 | the status map has an entry for every status the page computes, matching the status badge |
| StudentDashboardPage.Upcoming | client/src/pages/StudentDashboard.jsx:29-33 | a prefix of at most 5 of the open contests, which keep list order (OpenContestsAppend), all of them when fewer, each with registration deadline after now |
| StudentDashboardPage.RegistrationPreview | client/src/pages/StudentDashboard.jsx:126 | a prefix of at most 5 registrations |
| StudentDashboardPage.DashboardStats | client/src/pages/StudentDashboard.jsx:76-98 | the cards show the numbers of registrations, teams and upcoming contests |
| ContestDetailPage.DetailStatus | client/src/pages/ContestDetail.jsx:112-121 | 'Loading' with no contest; otherwise the three-way split on the two deadlines |
| ContestDetailPage.IsRegistrationOpen | client/src/pages/ContestDetail.jsx:134-137 | false with no contest; otherwise true exactly when now is strictly before the registration deadline |
| ContestDetailPage.ActionFor | client/src/pages/ContestDetail.jsx:171-190 | an action is offered exactly to a student while registration is open with no registration and no team; Create Team for team contests, Register otherwise |
| ContestDetailPage.BadgeExcludesAction | client/src/pages/ContestDetail.jsx:171-192 | the page never shows both the registered badge and an action |
| ContestDetailPage.RegisterOfferedOnlyWhenAccepted | client/src/pages/ContestDetail.jsx:171-190 | the Register button is offered only when the server would accept: deadline not passed and not team-based |
| ContestDetailPage.DeadlineInstantNotOffered | client/src/pages/ContestDetail.jsx:134-137 | exactly at the deadline the page offers no action though the server still accepts |
| ContestDetailPage.JoinShown | client/src/pages/ContestDetail.jsx:366-377 | Join is shown exactly to a student while open, with no team, for a team below capacity |
| ContestDetailPage.ChatLinkShown | client/src/pages/ContestDetail.jsx:385 | the chat link is shown exactly when the viewer is registered, in a team, or not a student |
| ContestDetailPage.CheckRegistration | client/src/pages/ContestDetail.jsx:46-50 | picks a registration and a team exactly when one for the contest exists, each the first in list order whose contest id matches |
| ContestDetailPage.EnrolledStudentNotOffered | client/src/pages/ContestDetail.jsx:46-50 | a student the lookup finds registered is not offered an action |
| RegisterPage.LeadingDigits | client/src/pages/Register.jsx:52 | the digits `parseInt` reads: a prefix of the text, all digits |
| RegisterPage.ParseInt | client/src/pages/Register.jsx:52 | `parseInt` of the year field: a number is kept, a text gives the value of its maximal run of leading decimal digits, and no digits give NaN |
| RegisterPage.ParseYearOption | client/src/pages/Register.jsx:52 | the year select's values '1' to '4' parse to 1 to 4 |
| RegisterPage.Payload | client/src/pages/Register.jsx:47-56 | the payload carries every field but the confirmation, with the year parsed |
| RegisterPage.HandleSubmit | client/src/pages/Register.jsx:34-56 | mismatched passwords are refused first, then a password shorter than 6; otherwise the payload is sent |
| RegisterPage.DefaultsPassServerCheck | client/src/pages/Register.jsx:6-56 | a form sent from the defaults with the text fields filled passes the server's completeness check |
| ContestChatPage.IsMyMessage | client/src/pages/ContestChat.jsx:126-133 | only the viewer role's sender column is compared with the viewer's id; false for another role |
| ContestChatPage.MineIffDeletable | client/src/pages/ContestChat.jsx:126-133 | the page marks a message as the viewer's exactly when the server lets the viewer delete it |
| ContestChatPage.PostedIsMine | client/src/pages/ContestChat.jsx:126-133 | a message the viewer posted is marked as the viewer's |
| ContestChatPage.RoleColor | client/src/pages/ContestChat.jsx:118-124 | amber for coordinators, emerald for mentors, teal for everyone else |
| ContestChatPage.ColourOfPosted | client/src/pages/ContestChat.jsx:118-124 | a posted message is coloured by its poster's role |
| ContestChatPage.HandleSend | client/src/pages/ContestChat.jsx:88-94 | nothing happens for whitespace-only text or while a send is in flight; otherwise the trimmed text is sent |
| ContestChatPage.PostedTextAccepted | client/src/pages/ContestChat.jsx:88-94 | what the page sends is accepted by the server's text check and stored unchanged |
| ContestChatPage.ShowDate | client/src/pages/ContestChat.jsx:215-216 | a separator before the first message and exactly where the formatted day differs from the previous message's |
| ContestChatPage.OneDayOneSeparator | client/src/pages/ContestChat.jsx:215-216 | messages of one formatted day get one separator |
| ContestChatPage.WithDismissed | client/src/pages/ContestChat.jsx:49-58 | the dismissed list afterwards holds the id, keeps the old entries in order, gains nothing else, and stays free of duplicates |
| ContestChatPage.DismissIdempotent | client/src/pages/ContestChat.jsx:49-58 | dismissing twice is dismissing once |
| ContestChatPage.SeenAfter | client/src/pages/ContestChat.jsx:39-46 | with messages, the contest's seen entry is the last message's id and other entries are kept; without, nothing changes |
| ContestChatPage.LocalStore.constructor | client/src/pages/ContestChat.jsx:49-58 | storage starts empty and consistent |
| ContestChatPage.LocalStore.RemoveGroup | client/src/pages/ContestChat.jsx:49-58 | removing a group rewrites only the viewer's dismissed list, as `WithDismissed` describes |
| ContestChatPage.LocalStore.MarkSeen | client/src/pages/ContestChat.jsx:39-46 | the seen effect rewrites only the viewer's seen map, as `SeenAfter` describes, and only when a user is signed in |

## Left out

- Password hashing and comparison (bcrypt) and token signing and verification (JWT) are function parameters. The model holds nothing about them beyond what the handlers do with their results.
- File upload storage, file-name generation and the image mimetype filter are left out. The uploaded file's name and an upload error are parameters of `Contests.Create`.
- Dates are integer milliseconds. Parsing date strings, invalid dates (NaN) and every locale-dependent display (`toLocaleDateString`, `toLocaleTimeString`) are left out.
- StudentHomePage.GetTimeLeft: returns the numbers of days and hours or hours and minutes, not the caption text built from them.
- ContestChatPage.ShowDate: takes the day format as a function parameter. Whether that format includes the year is a locale matter the model does not fix.
- Concurrency is left out: the model runs one handler at a time. The source's check-then-insert sequences would race under concurrent requests.
- Display-only joined names are carried as plain values, or dropped where no property depends on them. These are `coordinator_name`, `mentor_name`, `leader_name`, `sender_name` and the like.
- Status 500 answers are left out except for three that follow from the code's own logic. Two are the join and the cancel whose contest row is gone. The third is the contest update whose body leaves out a field. Other 500s come from database or library failures.
- Seqs.NextKey, Chat.ReadThread, Chat.Send, Contests.Create, Contests.Update: the database schema is not part of this model. Every table is assumed to have a plain `INTEGER PRIMARY KEY`, with no `AUTOINCREMENT` and no foreign-key constraints, although the server runs `PRAGMA foreign_keys = ON` (server/src/db/index.js:32) and deletes a contest's rows children first (server/src/routes/contests.js:268-305), which suggests the schema declares them. With `AUTOINCREMENT`, the id of a deleted newest row would not be reused. With a foreign key from chats to contests, reading or posting to an unknown contest's chat would fail with 500 instead of creating a chat. With a foreign key from contests to mentors, Contests.Create and Contests.Update with a `mentor_id` naming no mentor would fail with 500 instead of answering 201 or 200.
- Chat.ReadThread: `limit` and `before` are integer parameters. A non-numeric `?limit=` (where `parseInt` gives NaN) or `?before=` string is not modelled.
- `parseInt`'s handling of signs, leading whitespace and other radixes is left out. RegisterPage.ParseInt reads only unsigned decimal digits, which is all the year select can send.
- `Number(id)` on a non-numeric route parameter (NaN) is left out. Ids are integers.
- The chat page's local-storage keys are a `UserKey` value, by id or by e-mail, not the concatenated key string. The JSON encoding of the stored values is left out.
- The chat page's polling timer, scrolling and focus handling are left out.
- String lengths are counted in characters, not in UTF-16 code units. Lower-casing is ASCII only.
- Rows that tie on an `ORDER BY` key keep table order (a stable sort). SQLite does not promise any particular order among ties.
- CoordinatorDashboardPage.DashboardStats: the `registration_count || 0` fallback is modelled on a count that is always present, because the list reply always carries one.
- Contests.NewContest: the form-string truthiness of `max_team_size` and `mentor_id` is modelled on integers, with 0 falsy. Form strings are not parsed.
- The remaining client pages are rendering and navigation only: the login page, the mentor dashboard, the contest creation form and the navigation bar.
- The HTTP client, the route table and the server start-up are also left out. The database wrapper's persistence to disk and the demo seed data are left out as well.
