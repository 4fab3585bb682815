/**
 * How each kind of write the route handlers perform keeps the store's invariant: inserting a
 * row with the next rowid, deleting rows by a WHERE clause, and updating rows in place.
 * Each lemma names the guard a handler must have checked before the write.
 */
module Transitions {
  import opened Wrappers
  import opened Seqs
  import opened Schema
  import opened Store

  /** A registration for a (contest, student) pair that has none keeps the pairs unique. */
  lemma AddRegistration(t: Tables, r: Registration)
    requires Consistent(t)
    requires forall x :: x in t.registrations ==> x.registrationId < r.registrationId
    requires !HasRegistration(t.registrations, r.contestId, r.studentId)
    ensures Consistent(t.(registrations := t.registrations + [r]))
  {
    AppendIncreasing(t.registrations, RegistrationKey, r);
    PairwiseAppend(t.registrations, DistinctPairs, r);
  }

  /** Deleting registrations never breaks the invariant. */
  lemma FilterRegistrations(t: Tables, p: Registration -> bool)
    requires Consistent(t)
    ensures Consistent(t.(registrations := Filter(t.registrations, p)))
  {
    FilterIncreasing(t.registrations, p, RegistrationKey);
    FilterPairwise(t.registrations, p, DistinctPairs);
  }

  /** Appending a team and its leader's row keeps every row's team present. */
  lemma AddTeamKeepsMembers(teams: seq<Team>, members: seq<TeamMember>, team: Team, row: TeamMember)
    requires MembersHaveTeams(teams, members) && LeadersAreMembers(teams, members)
    requires row.teamId == team.teamId && row.studentId == team.teamLeaderId
    ensures MembersHaveTeams(teams + [team], members + [row])
    ensures LeadersAreMembers(teams + [team], members + [row])
  {
    var teams', members' := teams + [team], members + [row];
    assert forall u :: u in teams' <==> u in teams || u == team;
    assert forall m :: m in members' <==> m in members || m == row;
  }

  /**
   * A new team and its leader's row keep every student in at most one team per contest,
   * provided the leader is not yet in a team of that contest.
   */
  lemma AddTeamKeepsExclusive(teams: seq<Team>, members: seq<TeamMember>, team: Team, row: TeamMember)
    requires MembersHaveTeams(teams, members) && TeamsExclusive(teams, members)
    requires forall u :: u in teams ==> u.teamId < team.teamId
    requires row.teamId == team.teamId && row.studentId == team.teamLeaderId
    requires !InTeamFor(teams, members, team.contestId, team.teamLeaderId)
    ensures TeamsExclusive(teams + [team], members + [row])
  {
    var teams', members' := teams + [team], members + [row];
    forall i, j | 0 <= i < j < |members'| ensures Compatible(teams', members'[i], members'[j]) {
      var x, y := members'[i], members'[j];
      assert x == members[i] && x in members;
      var w :| w in teams && w.teamId == x.teamId;
      if x.studentId == y.studentId {
        forall a, b | a in teams' && b in teams' && a.teamId == x.teamId && b.teamId == y.teamId
          ensures a.contestId != b.contestId
        {
          assert a in teams;
          if j < |members| {
            assert y == members[j] && y in members;
            var w' :| w' in teams && w'.teamId == y.teamId;
            assert b in teams;
            assert Compatible(teams, members[i], members[j]);
          } else {
            assert b == team;
          }
        }
      }
    }
  }

  /** A new team created with its leader as its only member keeps the invariant. */
  lemma AddTeam(t: Tables, team: Team, row: TeamMember)
    requires Consistent(t)
    requires forall u :: u in t.teams ==> u.teamId < team.teamId
    requires row.teamId == team.teamId && row.studentId == team.teamLeaderId
    requires !InTeamFor(t.teams, t.members, team.contestId, team.teamLeaderId)
    ensures Consistent(t.(teams := t.teams + [team], members := t.members + [row]))
  {
    AppendIncreasing(t.teams, TeamKey, team);
    AddTeamKeepsMembers(t.teams, t.members, team, row);
    AddTeamKeepsExclusive(t.teams, t.members, team, row);
  }

  /** A student not yet in a team of the team's contest may join it. */
  lemma AddMemberKeepsExclusive(teams: seq<Team>, members: seq<TeamMember>, team: Team, row: TeamMember)
    requires Increasing(teams, TeamKey) && TeamsExclusive(teams, members)
    requires team in teams && row.teamId == team.teamId
    requires !InTeamFor(teams, members, team.contestId, row.studentId)
    ensures TeamsExclusive(teams, members + [row])
  {
    var members' := members + [row];
    forall i, j | 0 <= i < j < |members'| ensures Compatible(teams, members'[i], members'[j]) {
      var x, y := members'[i], members'[j];
      assert x == members[i] && x in members;
      if j < |members| {
        assert y == members[j];
      } else if x.studentId == y.studentId {
        forall a, b | a in teams && b in teams && a.teamId == x.teamId && b.teamId == y.teamId
          ensures a.contestId != b.contestId
        {
          TeamByIdFinds(teams, b);
          TeamByIdFinds(teams, team);
          assert a in teams && x in members && a.teamId == x.teamId && x.studentId == row.studentId;
          assert a.contestId != team.contestId;
        }
      }
    }
  }

  lemma AddMember(t: Tables, team: Team, row: TeamMember)
    requires Consistent(t) && team in t.teams && row.teamId == team.teamId
    requires !InTeamFor(t.teams, t.members, team.contestId, row.studentId)
    ensures Consistent(t.(members := t.members + [row]))
  {
    AddMemberKeepsExclusive(t.teams, t.members, team, row);
    var members' := t.members + [row];
    assert forall m :: m in members' <==> m in t.members || m == row;
  }

  /** Deleting membership rows keeps every student in at most one team per contest. */
  lemma FilterKeepsExclusive(teams: seq<Team>, members: seq<TeamMember>, p: TeamMember -> bool)
    requires TeamsExclusive(teams, members)
    ensures TeamsExclusive(teams, Filter(members, p))
  {
    var rel := (x: TeamMember, y: TeamMember) => Compatible(teams, x, y);
    assert Pairwise(members, rel);
    FilterPairwise(members, p, rel);
    var members' := Filter(members, p);
    assert forall i, j :: 0 <= i < j < |members'| ==> rel(members'[i], members'[j]);
  }

  /** Deleting membership rows keeps the invariant as long as no team's leader row goes. */
  lemma FilterMembers(t: Tables, p: TeamMember -> bool)
    requires Consistent(t)
    requires forall u, m :: u in t.teams && m in t.members && m.teamId == u.teamId && m.studentId == u.teamLeaderId ==> p(m)
    ensures Consistent(t.(members := Filter(t.members, p)))
  {
    FilterKeepsExclusive(t.teams, t.members, p);
  }

  /** The (id, contest, leader) triples of a team table: what the team invariants look at. */
  function TeamShapes(teams: seq<Team>): set<(int, int, int)> {
    set u | u in teams :: (u.teamId, u.contestId, u.teamLeaderId)
  }

  /** Teams drawn from ones with the same ids, contests and leaders keep students exclusive. */
  lemma CoveredKeepsExclusive(teams: seq<Team>, other: seq<Team>, members: seq<TeamMember>)
    requires TeamsExclusive(other, members) && TeamShapes(teams) <= TeamShapes(other)
    ensures TeamsExclusive(teams, members)
  {
    forall i, j | 0 <= i < j < |members| ensures Compatible(teams, members[i], members[j]) {
      var x, y := members[i], members[j];
      if x.studentId == y.studentId {
        forall a, b | a in teams && b in teams && a.teamId == x.teamId && b.teamId == y.teamId
          ensures a.contestId != b.contestId
        {
          assert (a.teamId, a.contestId, a.teamLeaderId) in TeamShapes(other);
          assert (b.teamId, b.contestId, b.teamLeaderId) in TeamShapes(other);
          var a' :| a' in other && (a'.teamId, a'.contestId, a'.teamLeaderId) == (a.teamId, a.contestId, a.teamLeaderId);
          var b' :| b' in other && (b'.teamId, b'.contestId, b'.teamLeaderId) == (b.teamId, b.contestId, b.teamLeaderId);
          assert Compatible(other, x, y);
        }
      }
    }
  }

  /** Teams with the same ids, contests and leaders keep every row's team and every leader's row. */
  lemma CoveredKeepsMembers(teams: seq<Team>, other: seq<Team>, members: seq<TeamMember>)
    requires MembersHaveTeams(other, members) && LeadersAreMembers(other, members)
    requires TeamShapes(teams) == TeamShapes(other)
    ensures MembersHaveTeams(teams, members) && LeadersAreMembers(teams, members)
  {
    forall m | m in members ensures m.teamId in TeamIds(teams) {
      var u :| u in other && u.teamId == m.teamId;
      assert (u.teamId, u.contestId, u.teamLeaderId) in TeamShapes(teams);
      var v :| v in teams && (v.teamId, v.contestId, v.teamLeaderId) == (u.teamId, u.contestId, u.teamLeaderId);
    }
    forall u | u in teams ensures (u.teamId, u.teamLeaderId) in Memberships(members) {
      assert (u.teamId, u.contestId, u.teamLeaderId) in TeamShapes(other);
      var v :| v in other && (v.teamId, v.contestId, v.teamLeaderId) == (u.teamId, u.contestId, u.teamLeaderId);
    }
  }

  /** Rewriting teams without touching their ids, contests or leaders keeps the invariant. */
  lemma SameShapeTeams(t: Tables, teams: seq<Team>)
    requires Consistent(t) && Increasing(teams, TeamKey)
    requires TeamShapes(teams) == TeamShapes(t.teams)
    ensures Consistent(t.(teams := teams))
  {
    CoveredKeepsExclusive(teams, t.teams, t.members);
    CoveredKeepsMembers(teams, t.teams, t.members);
  }

  /** Replacing a team by a row with the same id, contest and leader keeps the team shapes. */
  lemma ReplaceKeepsShapes(teams: seq<Team>, id: int, v: Team)
    requires v.teamId == id
    requires forall u :: u in teams && u.teamId == id ==> u.contestId == v.contestId && u.teamLeaderId == v.teamLeaderId
    ensures TeamShapes(Replace(teams, TeamKey, id, v)) == TeamShapes(teams)
  {
    var r := Replace(teams, TeamKey, id, v);
    forall u | u in r ensures (u.teamId, u.contestId, u.teamLeaderId) in TeamShapes(teams) {
      var k :| 0 <= k < |r| && r[k] == u;
      assert teams[k] in teams;
    }
    forall w | w in teams ensures (w.teamId, w.contestId, w.teamLeaderId) in TeamShapes(r) {
      var k :| 0 <= k < |teams| && teams[k] == w;
      assert r[k] in r;
    }
  }

  /** `UPDATE teams SET ... WHERE team_id = id` with a row that keeps the id, contest and leader. */
  lemma ReplaceTeam(t: Tables, id: int, v: Team)
    requires Consistent(t) && v.teamId == id
    requires forall u :: u in t.teams && u.teamId == id ==> u.contestId == v.contestId && u.teamLeaderId == v.teamLeaderId
    ensures Consistent(t.(teams := Replace(t.teams, TeamKey, id, v)))
  {
    ReplaceIncreasing(t.teams, TeamKey, id, v);
    ReplaceKeepsShapes(t.teams, id, v);
    SameShapeTeams(t, Replace(t.teams, TeamKey, id, v));
  }

  /** The ids of the teams of a contest (`SELECT team_id FROM teams WHERE contest_id = ?`). */
  function TeamIdsOf(teams: seq<Team>, contestId: int): (ids: seq<int>)
    ensures forall id :: id in ids <==> exists u :: u in teams && u.contestId == contestId && u.teamId == id
  {
    if |teams| == 0 then []
    else
      var rest := TeamIdsOf(teams[1..], contestId);
      assert forall u :: u in teams ==> u == teams[0] || u in teams[1..];
      if teams[0].contestId == contestId then [teams[0].teamId] + rest else rest
  }

  /** Deleting a contest's teams and their membership rows leaves every row's team and every leader's row. */
  lemma RemoveTeamsKeepsMembers(teams: seq<Team>, members: seq<TeamMember>, contestId: int)
    requires Increasing(teams, TeamKey)
    requires MembersHaveTeams(teams, members) && LeadersAreMembers(teams, members)
    ensures var ids := TeamIdsOf(teams, contestId);
      var members', teams' := Filter(members, NotInTeams(ids)), Filter(teams, TeamNotFor(contestId));
      MembersHaveTeams(teams', members') && LeadersAreMembers(teams', members')
  {
    var ids := TeamIdsOf(teams, contestId);
    var p := NotInTeams(ids);
    var q := TeamNotFor(contestId);
    var members', teams' := Filter(members, p), Filter(teams, q);
    forall m | m in members' ensures m.teamId in TeamIds(teams') {
      var u :| u in teams && u.teamId == m.teamId;
      assert q(u);
    }
    forall u | u in teams' ensures (u.teamId, u.teamLeaderId) in Memberships(members') {
      var m :| m in members && (m.teamId, m.studentId) == (u.teamId, u.teamLeaderId);
      if m.teamId in ids {
        var w :| w in teams && w.contestId == contestId && w.teamId == m.teamId;
        TeamByIdFinds(teams, w);
        TeamByIdFinds(teams, u);
      }
      assert p(m);
    }
  }

  /** Deleting a contest's teams together with all their membership rows keeps the invariant. */
  lemma RemoveContestTeams(t: Tables, contestId: int)
    requires Consistent(t)
    ensures var ids := TeamIdsOf(t.teams, contestId);
      Consistent(t.(members := Filter(t.members, NotInTeams(ids)), teams := Filter(t.teams, TeamNotFor(contestId))))
  {
    var ids := TeamIdsOf(t.teams, contestId);
    var p := NotInTeams(ids);
    var q := TeamNotFor(contestId);
    var members, teams := Filter(t.members, p), Filter(t.teams, q);
    RemoveTeamsKeepsMembers(t.teams, t.members, contestId);
    FilterKeepsExclusive(t.teams, t.members, p);
    FilterIncreasing(t.teams, q, TeamKey);
    CoveredKeepsExclusive(teams, t.teams, members);
  }

  /** A message with exactly one sender column set and the next id keeps the invariant. */
  lemma AddMessage(t: Tables, m: Message)
    requires Consistent(t) && OneSender(m) && InFirstChat(t.chats, m.chatId)
    requires forall x :: x in t.messages ==> x.messageId < m.messageId
    ensures Consistent(t.(messages := t.messages + [m]))
  {
    AppendIncreasing(t.messages, MessageKey, m);
  }

  lemma FilterMessages(t: Tables, p: Message -> bool)
    requires Consistent(t)
    ensures Consistent(t.(messages := Filter(t.messages, p)))
  {
    FilterIncreasing(t.messages, p, MessageKey);
  }

  /** Appending a chat changes no lookup that already succeeds. */
  lemma AddChatKeepsFirst(chats: seq<Chat>, c: Chat, chatId: int)
    requires InFirstChat(chats, chatId)
    ensures InFirstChat(chats + [c], chatId)
  {
    var ch := ChatById(chats, chatId).value;
    FindAppend(chats, ChatIdIs(chatId), c);
    FindAppend(chats, ChatFor(ch.contestId), c);
  }

  lemma AddChat(t: Tables, c: Chat)
    requires Consistent(t)
    requires forall x :: x in t.chats ==> x.chatId < c.chatId
    ensures Consistent(t.(chats := t.chats + [c]))
  {
    AppendIncreasing(t.chats, ChatKey, c);
    forall m | m in t.messages
      ensures InFirstChat(t.chats + [c], m.chatId)
    {
      AddChatKeepsFirst(t.chats, c, m.chatId);
    }
  }

  /**
   * Deleting a contest's chats, and the messages of the chat its lookup finds, keeps every
   * other message in the first chat of its own contest.
   */
  lemma RemoveChatKeepsFirst(chats: seq<Chat>, contestId: int, first: Chat, chatId: int)
    requires Increasing(chats, ChatKey)
    requires ChatOf(chats, contestId) == Some(first)
    requires InFirstChat(chats, chatId) && chatId != first.chatId
    ensures InFirstChat(Filter(chats, ChatNotFor(contestId)), chatId)
  {
    var ch := ChatById(chats, chatId).value;
    assert ch.contestId != contestId;
    forall x | x in chats && ChatIdIs(chatId)(x)
      ensures ChatNotFor(contestId)(x)
    {
      ChatByIdFinds(chats, x);
    }
    FindFilter(chats, ChatIdIs(chatId), ChatNotFor(contestId));
    FindFilter(chats, ChatFor(ch.contestId), ChatNotFor(contestId));
  }

  lemma RemoveContestChats(t: Tables, contestId: int, first: Chat)
    requires Consistent(t)
    requires ChatOf(t.chats, contestId) == Some(first)
    ensures Consistent(t.(messages := Filter(t.messages, MessageNotIn(first.chatId)), chats := Filter(t.chats, ChatNotFor(contestId))))
  {
    FilterIncreasing(t.messages, MessageNotIn(first.chatId), MessageKey);
    FilterIncreasing(t.chats, ChatNotFor(contestId), ChatKey);
    forall m | m in Filter(t.messages, MessageNotIn(first.chatId))
      ensures InFirstChat(Filter(t.chats, ChatNotFor(contestId)), m.chatId)
    {
      RemoveChatKeepsFirst(t.chats, contestId, first, m.chatId);
    }
  }

  lemma AddContest(t: Tables, c: Contest)
    requires Consistent(t)
    requires forall x :: x in t.contests ==> x.contestId < c.contestId
    ensures Consistent(t.(contests := t.contests + [c]))
  {
    AppendIncreasing(t.contests, ContestKey, c);
  }

  lemma ReplaceContest(t: Tables, id: int, v: Contest)
    requires Consistent(t) && v.contestId == id
    ensures Consistent(t.(contests := Replace(t.contests, ContestKey, id, v)))
  {
    ReplaceIncreasing(t.contests, ContestKey, id, v);
  }

  lemma FilterContests(t: Tables, p: Contest -> bool)
    requires Consistent(t)
    ensures Consistent(t.(contests := Filter(t.contests, p)))
  {
    FilterIncreasing(t.contests, p, ContestKey);
  }

  /** A student whose e-mail and register number are both unused keeps sign-up data unique. */
  lemma AddStudent(t: Tables, s: Student)
    requires Consistent(t)
    requires forall x :: x in t.students ==> x.studentId < s.studentId
    requires forall x :: x in t.students ==> x.email != s.email && x.registerNo != s.registerNo
    ensures Consistent(t.(students := t.students + [s]))
  {
    AppendIncreasing(t.students, StudentKey, s);
    PairwiseAppend(t.students, DistinctStudents, s);
  }

  /** A mentor whose e-mail is unused keeps mentor e-mails unique. */
  lemma AddMentor(t: Tables, m: Mentor)
    requires Consistent(t)
    requires forall x :: x in t.mentors ==> x.mentorId < m.mentorId
    requires forall x :: x in t.mentors ==> x.email != m.email
    ensures Consistent(t.(mentors := t.mentors + [m]))
  {
    AppendIncreasing(t.mentors, MentorKey, m);
    PairwiseAppend(t.mentors, DistinctMentors, m);
  }
}
