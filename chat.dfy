/**
 * The contest chat routes. Each contest has a chat thread that is created the first time
 * anyone reads or posts to it; a message records exactly one sender, in the column of the
 * poster's role; only the sender may delete a message; and a read returns the newest
 * messages of the thread, oldest first.
 */
module Chat {
  import opened Wrappers
  import opened Seqs
  import opened Schema
  import opened Store
  import opened Text
  import Transitions

  /**
   * The chats after "get or create the contest's chat": unchanged when the contest has a
   * chat, otherwise one chat with the next rowid appended.
   */
  function EnsureChat(chats: seq<Chat>, contestId: int): (r: seq<Chat>)
    requires Increasing(chats, ChatKey)
    ensures ChatOf(r, contestId).Some?
    ensures ChatOf(chats, contestId).Some? ==> r == chats
  {
    if ChatOf(chats, contestId).Some? then chats
    else
      var c := Chat(NextKey(chats, ChatKey), contestId);
      assert c in chats + [c];
      chats + [c]
  }

  /**
   * Without a chat for the contest, exactly one is appended; it has a fresh rowid and it is
   * the chat every later lookup of the contest finds.
   */
  lemma EnsureChatCreates(chats: seq<Chat>, contestId: int)
    requires Increasing(chats, ChatKey) && ChatOf(chats, contestId).None?
    ensures var r := EnsureChat(chats, contestId);
      && |r| == |chats| + 1 && r[..|chats|] == chats
      && ChatOf(r, contestId) == Some(r[|chats|])
      && r[|chats|].contestId == contestId
      && forall c :: c in chats ==> c.chatId < r[|chats|].chatId
  {
    var r := EnsureChat(chats, contestId);
    assert r[..|chats|] == chats;
  }

  /** Repeated accesses create no more chats: get-or-create is idempotent. */
  lemma EnsureChatIdempotent(chats: seq<Chat>, contestId: int)
    requires Increasing(chats, ChatKey)
    ensures Increasing(EnsureChat(chats, contestId), ChatKey)
    ensures EnsureChat(EnsureChat(chats, contestId), contestId) == EnsureChat(chats, contestId)
  {
    if ChatOf(chats, contestId).None? {
      AppendIncreasing(chats, ChatKey, Chat(NextKey(chats, ChatKey), contestId));
    }
  }

  /** Get-or-create: the contest's chat, inserted first when there is none. */
  method GetOrCreateChat(db: Db, contestId: int) returns (chat: Chat)
    requires db.Valid()
    modifies db
    ensures db.Valid()
    ensures db.State() == old(db.State()).(chats := EnsureChat(old(db.chats), contestId))
    ensures ChatOf(db.chats, contestId) == Some(chat)
    ensures ChatOf(old(db.chats), contestId).Some? ==> chat == ChatOf(old(db.chats), contestId).value
  {
    var found := ChatOf(db.chats, contestId);
    if found.Some? {
      return found.value;
    }
    chat := Chat(NextKey(db.chats, ChatKey), contestId);
    Transitions.AddChat(db.State(), chat);
    EnsureChatCreates(db.chats, contestId);
    db.chats := db.chats + [chat];
  }

  function SentAt(m: Message): int { m.sentAt }

  /** The messages a read may return: those of the chat, below `before` when it is given. */
  function Candidates(messages: seq<Message>, chatId: int, before: Option<int>): (r: seq<Message>)
    ensures forall m :: m in r <==> m in messages && m.chatId == chatId && (before.Some? ==> m.messageId < before.value)
  {
    Filter(messages, (m: Message) => m.chatId == chatId && (before.Some? ==> m.messageId < before.value))
  }

  /** `LIMIT n` keeps the first `n` rows; SQLite reads a negative limit as no limit. */
  function LimitCount(limit: int, n: nat): (k: nat)
    ensures k <= n
    ensures limit >= 0 ==> k <= limit
    ensures limit < 0 || limit >= n ==> k == n
    ensures 0 <= limit < n ==> k == limit
  {
    if limit < 0 || limit > n then n else limit
  }

  /**
   * One page of a thread: the candidates by `sent_at` newest first, cut to `limit`, then
   * reversed into chronological order.
   */
  function Page(messages: seq<Message>, chatId: int, limit: int, before: Option<int>): (r: seq<Message>)
    ensures SortedAsc(r, SentAt)
    ensures limit >= 0 ==> |r| <= limit
    ensures multiset(r) <= multiset(Candidates(messages, chatId, before))
  {
    var sorted := SortDesc(Candidates(messages, chatId, before), SentAt);
    var k := LimitCount(limit, |sorted|);
    SplitMultiset(sorted, k);
    PrefixSortedDesc(sorted, SentAt, k);
    ReverseDesc(sorted[..k], SentAt);
    Reverse(sorted[..k])
  }

  /** A page holds the same messages as the first `limit` candidates newest first. */
  lemma PageIsNewestPrefix(messages: seq<Message>, chatId: int, limit: int, before: Option<int>)
    ensures var sorted := SortDesc(Candidates(messages, chatId, before), SentAt);
      multiset(Page(messages, chatId, limit, before)) == multiset(sorted[..LimitCount(limit, |sorted|)])
  {
    var sorted := SortDesc(Candidates(messages, chatId, before), SentAt);
    ReverseMultiset(sorted[..LimitCount(limit, |sorted|)]);
  }

  /**
   * A page holds the newest candidates: every candidate left off the page was sent no later
   * than every message on it; and with no limit, or a limit the candidates fit in, the page
   * is all the candidates.
   */
  lemma PageKeepsNewest(messages: seq<Message>, chatId: int, limit: int, before: Option<int>)
    ensures var cands, r := Candidates(messages, chatId, before), Page(messages, chatId, limit, before);
      && (forall x, m :: x in multiset(cands) - multiset(r) && m in r ==> SentAt(x) <= SentAt(m))
      && (limit < 0 || |cands| <= limit ==> multiset(r) == multiset(cands))
  {
    var cands := Candidates(messages, chatId, before);
    var sorted := SortDesc(cands, SentAt);
    var k := LimitCount(limit, |sorted|);
    PageIsNewestPrefix(messages, chatId, limit, before);
    PrefixKeepsLargest(sorted, SentAt, k, Page(messages, chatId, limit, before));
    if limit < 0 || |cands| <= limit {
      assert sorted[..k] == sorted;
    }
  }

  /** The JSON a read returns: the thread's ids and one page of its messages. */
  datatype Thread = Thread(chatId: int, contestId: int, messages: seq<Message>)

  /**
   * GET /api/chat/:contestId. The contest's chat is fetched or created (the contest itself is
   * not looked up), then one page of its messages is returned; `limit` defaults to 50.
   */
  method ReadThread(db: Db, contestId: int, limit: Option<int>, before: Option<int>) returns (thread: Thread)
    requires db.Valid()
    modifies db
    ensures db.Valid()
    ensures db.State() == old(db.State()).(chats := EnsureChat(old(db.chats), contestId))
    ensures ChatOf(db.chats, contestId) == Some(Chat(thread.chatId, contestId))
    ensures thread.contestId == contestId
    ensures thread.messages == Page(db.messages, thread.chatId, limit.GetOr(50), before)
  {
    var chat := GetOrCreateChat(db, contestId);
    thread := Thread(chat.chatId, contestId, Page(db.messages, chat.chatId, limit.GetOr(50), before));
  }

  /** A new message row: the one sender column of `kind` holds the sender's id. */
  function NewMessage(id: int, chatId: int, kind: Sender, senderId: int, text: string, now: int): (m: Message)
    ensures OneSender(m)
    ensures SenderColumn(m, kind) == Some(senderId)
    ensures forall other :: other != kind ==> SenderColumn(m, other).None?
    ensures m.messageId == id && m.chatId == chatId && m.messageText == text && m.sentAt == now
  {
    match kind
    case StudentSender => Message(id, chatId, Some(senderId), None, None, text, now)
    case MentorSender => Message(id, chatId, None, Some(senderId), None, text, now)
    case CoordinatorSender => Message(id, chatId, None, None, Some(senderId), text, now)
  }

  /** The write of a post: one message row appended. */
  method InsertMessage(db: Db, m: Message)
    requires db.Valid() && OneSender(m) && InFirstChat(db.chats, m.chatId)
    requires forall x :: x in db.messages ==> x.messageId < m.messageId
    modifies db
    ensures db.Valid()
    ensures db.State() == old(db.State()).(messages := old(db.messages) + [m])
  {
    Transitions.AddMessage(db.State(), m);
    db.messages := db.messages + [m];
  }

  /**
   * POST /api/chat/:contestId. Missing or whitespace-only text is refused (400) before
   * anything else. Then the chat is fetched or created, and only after that is a role with no
   * sender column refused (400), so that refusal can leave a new chat behind. Otherwise the
   * trimmed text is stored with the caller's id in the sender column of the caller's role.
   */
  method Send(db: Db, caller: Identity, contestId: int, text: Option<string>, now: int) returns (reply: Reply<Message>)
    requires db.Valid()
    modifies db
    ensures db.Valid()
    ensures text.None? || Trim(text.value) == "" ==>
      reply == Err(BadRequest, "Message text is required") && db.State() == old(db.State())
    ensures text.Some? && Trim(text.value) != "" && SenderOf(caller.role).None? ==>
      && reply == Err(BadRequest, "Invalid sender role")
      && db.State() == old(db.State()).(chats := EnsureChat(old(db.chats), contestId))
    ensures text.Some? && Trim(text.value) != "" && SenderOf(caller.role).Some? ==>
      && reply.Ok? && reply.code == Created
      && var m := reply.body;
      && ChatOf(db.chats, contestId) == Some(Chat(m.chatId, contestId))
      && m == NewMessage(NextKey(old(db.messages), MessageKey), m.chatId, SenderOf(caller.role).value, caller.id, Trim(text.value), now)
      && db.State() == old(db.State()).(chats := EnsureChat(old(db.chats), contestId), messages := old(db.messages) + [m])
  {
    if text.None? || Trim(text.value) == "" {
      return Err(BadRequest, "Message text is required");
    }
    var chat := GetOrCreateChat(db, contestId);
    var kind := SenderOf(caller.role);
    if kind.None? {
      return Err(BadRequest, "Invalid sender role");
    }
    var m := NewMessage(NextKey(db.messages, MessageKey), chat.chatId, kind.value, caller.id, Trim(text.value), now);
    ChatByIdFinds(db.chats, chat);
    InsertMessage(db, m);
    reply := Ok(Created, m);
  }

  /** The ownership check of a delete: the caller role's sender column holds the caller's id. */
  predicate SentBy(m: Message, caller: Identity) {
    match SenderOf(caller.role)
    case None => false
    case Some(kind) => SenderColumn(m, kind) == Some(caller.id)
  }

  /**
   * A message posted by a caller may be deleted by that caller, and by no one with another
   * id or another role.
   */
  lemma OnlySenderMayDelete(id: int, chatId: int, caller: Identity, text: string, now: int, other: Identity)
    requires IsKnownRole(caller.role)
    ensures var m := NewMessage(id, chatId, SenderOf(caller.role).value, caller.id, text, now);
      && SentBy(m, caller)
      && (SentBy(m, other) ==> other.id == caller.id && other.role == caller.role)
  {
    var kind := SenderOf(caller.role).value;
    var m := NewMessage(id, chatId, kind, caller.id, text, now);
    if SentBy(m, other) {
      var otherKind := SenderOf(other.role).value;
      assert otherKind == kind;
    }
  }

  /** The write of a delete: the one message row with the id is removed. */
  method RemoveMessage(db: Db, m: Message)
    requires db.Valid() && m in db.messages
    modifies db
    ensures db.Valid()
    ensures |db.messages| == |old(db.messages)| - 1
    ensures db.State() == old(db.State()).(messages := Without(old(db.messages), MessageKey, m.messageId))
  {
    ghost var t := db.State();
    ghost var k :| 0 <= k < |t.messages| && t.messages[k] == m;
    WithoutPresent(t.messages, MessageKey, k);
    Transitions.FilterMessages(t, KeyIsNot(MessageKey, m.messageId));
    db.messages := Without(db.messages, MessageKey, m.messageId);
    assert db.State() == t.(messages := Filter(t.messages, KeyIsNot(MessageKey, m.messageId)));
  }

  /**
   * DELETE /api/chat/message/:messageId: 404 for an unknown message, 403 unless the caller
   * sent it, and otherwise exactly that message row is deleted.
   */
  method Delete(db: Db, caller: Identity, messageId: int) returns (reply: Reply<string>)
    requires db.Valid()
    modifies db
    ensures db.Valid()
    ensures MessageById(old(db.messages), messageId).None? ==> reply == Err(NotFound, "Message not found")
    ensures MessageById(old(db.messages), messageId).Some? ==>
      var m := MessageById(old(db.messages), messageId).value;
      && (!SentBy(m, caller) ==> reply == Err(Forbidden, "You can only delete your own messages"))
      && (SentBy(m, caller) ==> reply == Ok(OkStatus, "Message deleted successfully"))
    ensures reply.Err? ==> db.State() == old(db.State())
    ensures reply.Ok? ==>
      && |db.messages| == |old(db.messages)| - 1
      && db.State() == old(db.State()).(messages := Without(old(db.messages), MessageKey, messageId))
  {
    var found := MessageById(db.messages, messageId);
    if found.None? {
      return Err(NotFound, "Message not found");
    }
    if !SentBy(found.value, caller) {
      return Err(Forbidden, "You can only delete your own messages");
    }
    RemoveMessage(db, found.value);
    reply := Ok(OkStatus, "Message deleted successfully");
  }

  /**
   * The `sender_role` column of a read: the role of the first non-null sender column, in the
   * order student, mentor, coordinator; NULL when all three are null.
   */
  function SenderRole(m: Message): (r: Option<string>)
    ensures r == Some(StudentRole) <==> m.senderStudentId.Some?
    ensures r == Some(MentorRole) <==> m.senderStudentId.None? && m.senderMentorId.Some?
    ensures r == Some(CoordinatorRole) <==>
      m.senderStudentId.None? && m.senderMentorId.None? && m.senderCoordinatorId.Some?
    ensures r.None? <==> m.senderStudentId.None? && m.senderMentorId.None? && m.senderCoordinatorId.None?
  {
    if m.senderStudentId.Some? then Some(StudentRole)
    else if m.senderMentorId.Some? then Some(MentorRole)
    else if m.senderCoordinatorId.Some? then Some(CoordinatorRole)
    else None
  }

  /** A posted message reads back with the poster's role. */
  lemma SenderRoleOfPosted(id: int, chatId: int, role: string, senderId: int, text: string, now: int)
    requires IsKnownRole(role)
    ensures SenderRole(NewMessage(id, chatId, SenderOf(role).value, senderId, text, now)) == Some(role)
  {
  }

  /** A message of the caller's with the contest its chat belongs to. */
  type SentRow = (Message, Contest)

  /** The contest a chat thread belongs to, when both rows exist. */
  function ContestOfChat(t: Tables, chatId: int): (r: Option<Contest>)
    ensures r.Some? ==> r.value in t.contests
    ensures r.Some? ==> ChatById(t.chats, chatId).Some?
                        && r.value.contestId == ChatById(t.chats, chatId).value.contestId
    ensures r.None? <==> ChatById(t.chats, chatId).None?
                         || ContestById(t.contests, ChatById(t.chats, chatId).value.contestId).None?
  {
    match ChatById(t.chats, chatId)
    case None => None
    case Some(chat) => ContestById(t.contests, chat.contestId)
  }

  function SentWith(kind: Sender, id: int): Message -> bool {
    (m: Message) => SenderColumn(m, kind) == Some(id)
  }

  /** The rows the my-groups query groups: the caller's messages joined with their contests. */
  function SentRows(t: Tables, kind: Sender, id: int): (r: seq<SentRow>)
    ensures forall p :: p in r <==>
      p.0 in t.messages && SenderColumn(p.0, kind) == Some(id) && ContestOfChat(t, p.0.chatId) == Some(p.1)
  {
    Seqs.Join(Filter(t.messages, SentWith(kind, id)), (m: Message) => ContestOfChat(t, m.chatId))
  }

  /** The latest `sent_at` among the rows of one contest; `MAX(m.sent_at)` of its group. */
  function LastSent(rows: seq<SentRow>, contestId: int): (r: int)
    ensures forall p :: p in rows && p.1.contestId == contestId ==> p.0.sentAt <= r
    ensures (exists p :: p in rows && p.1.contestId == contestId) ==>
      exists p :: p in rows && p.1.contestId == contestId && p.0.sentAt == r
  {
    if |rows| == 0 then 0
    else
      var init, last := rows[..|rows| - 1], rows[|rows| - 1];
      assert rows == init + [last];
      var m := LastSent(init, contestId);
      if last.1.contestId != contestId then m
      else if !(exists p :: p in init && p.1.contestId == contestId) || last.0.sentAt > m then last.0.sentAt
      else m
  }

  function RowContest(p: SentRow): Contest { p.1 }

  /** A group of the caller's chat list: the contest id and title. */
  datatype Group = Group(contestId: int, title: string)

  function GroupOf(c: Contest): Group { Group(c.contestId, c.title) }

  function Recency(rows: seq<SentRow>): Group -> int {
    (g: Group) => LastSent(rows, g.contestId)
  }

  /** The contests of a list of rows, as groups. */
  function Groups(rows: seq<SentRow>): (r: set<Group>) {
    set p | p in rows :: GroupOf(p.1)
  }

  /**
   * GET /api/chat/my-groups: nothing for a role with no sender column; otherwise one entry per
   * contest in whose chat the caller has sent a message, the most recently active first.
   */
  function MyGroups(t: Tables, caller: Identity): (r: seq<Group>)
    requires Increasing(t.contests, ContestKey)
    ensures SenderOf(caller.role).None? ==> r == []
    ensures SenderOf(caller.role).Some? ==>
      var rows := SentRows(t, SenderOf(caller.role).value, caller.id);
      && (forall g :: g in r <==> g in Groups(rows))
      && (forall i, j :: 0 <= i < j < |r| ==> r[i].contestId != r[j].contestId)
      && SortedDesc(r, Recency(rows))
  {
    match SenderOf(caller.role)
    case None => []
    case Some(kind) =>
      var rows := SentRows(t, kind, caller.id);
      SortedGroups(t, rows, Recency(rows));
      SortDesc(Map(Distinct(Map(rows, RowContest)), GroupOf), Recency(rows))
  }

  function GroupId(g: Group): int { g.contestId }

  /** The groups of rows over one contest table: one per contest, each contest once. */
  lemma GroupsOfRows(t: Tables, rows: seq<SentRow>, groups: seq<Group>)
    requires Increasing(t.contests, ContestKey)
    requires forall p :: p in rows ==> p.1 in t.contests
    requires groups == Map(Distinct(Map(rows, RowContest)), GroupOf)
    ensures forall g :: g in groups <==> g in Groups(rows)
    ensures forall a, b :: 0 <= a < b < |groups| ==> GroupId(groups[a]) != GroupId(groups[b])
  {
    GroupsOfRowsMembers(rows, groups);
    GroupsOfRowsDistinct(t, rows, groups);
  }

  lemma GroupsOfRowsMembers(rows: seq<SentRow>, groups: seq<Group>)
    requires groups == Map(Distinct(Map(rows, RowContest)), GroupOf)
    ensures forall g :: g in groups <==> g in Groups(rows)
  {
    var contests := Distinct(Map(rows, RowContest));
    forall g ensures g in groups <==> g in Groups(rows) {
      if g in groups {
        var i :| 0 <= i < |groups| && groups[i] == g;
        assert contests[i] in Map(rows, RowContest);
        var k :| 0 <= k < |rows| && Map(rows, RowContest)[k] == contests[i];
        assert rows[k] in rows;
      }
      if g in Groups(rows) {
        var p :| p in rows && GroupOf(p.1) == g;
        assert RowContest(p) in Map(rows, RowContest);
        assert p.1 in contests;
      }
    }
  }

  lemma GroupsOfRowsDistinct(t: Tables, rows: seq<SentRow>, groups: seq<Group>)
    requires Increasing(t.contests, ContestKey)
    requires forall p :: p in rows ==> p.1 in t.contests
    requires groups == Map(Distinct(Map(rows, RowContest)), GroupOf)
    ensures forall a, b :: 0 <= a < b < |groups| ==> GroupId(groups[a]) != GroupId(groups[b])
  {
    var contests := Distinct(Map(rows, RowContest));
    forall a, b | 0 <= a < b < |groups| ensures GroupId(groups[a]) != GroupId(groups[b]) {
      if GroupId(groups[a]) == GroupId(groups[b]) {
        assert contests[a] in Map(rows, RowContest) && contests[b] in Map(rows, RowContest);
        var ka :| 0 <= ka < |rows| && Map(rows, RowContest)[ka] == contests[a];
        var kb :| 0 <= kb < |rows| && Map(rows, RowContest)[kb] == contests[b];
        assert rows[ka] in rows && rows[kb] in rows;
        ContestKeyUnique(t.contests, contests[a], contests[b]);
      }
    }
  }


  /** Sorting the groups by recency keeps one group per contest. */
  lemma SortedGroups(t: Tables, rows: seq<SentRow>, key: Group -> int)
    requires Increasing(t.contests, ContestKey)
    requires forall p :: p in rows ==> p.1 in t.contests
    ensures var r := SortDesc(Map(Distinct(Map(rows, RowContest)), GroupOf), key);
      && (forall g :: g in r <==> g in Groups(rows))
      && (forall i, j :: 0 <= i < j < |r| ==> GroupId(r[i]) != GroupId(r[j]))
  {
    var groups := Map(Distinct(Map(rows, RowContest)), GroupOf);
    GroupsOfRows(t, rows, groups);
    SortKeepsDistinctKeys(groups, key, GroupId);
  }
}
