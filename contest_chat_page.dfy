/**
 * The contest chat page: which messages are drawn as the viewer's own, the colour of a
 * sender's role, the send guard, the date separators, and the two records the page keeps in
 * the browser's local storage per user: the contests whose group the user removed from their
 * list ("dismissed"), and the last message id seen in each contest's chat ("seen").
 */
module ContestChatPage {
  import opened Wrappers
  import opened Seqs
  import opened Text
  import opened Schema
  import Chat

  /** The signed-in user as the page holds it: a role and the id column of that role. */
  datatype Viewer = Viewer(
    id: Option<int>, email: string, role: string,
    studentId: Option<int>, mentorId: Option<int>, coordinatorId: Option<int>)

  function ViewerColumn(v: Viewer, kind: Sender): Option<int> {
    match kind
    case StudentSender => v.studentId
    case MentorSender => v.mentorId
    case CoordinatorSender => v.coordinatorId
  }

  /**
   * `isMyMessage`: the sender column of the viewer's role holds the viewer's id of that role
   * (a null column never equals an id); false for any other role.
   */
  function IsMyMessage(v: Viewer, m: Message): (b: bool)
    ensures !IsKnownRole(v.role) ==> !b
    ensures IsKnownRole(v.role) ==>
      var kind := SenderOf(v.role).value;
      (b <==> SenderColumn(m, kind).Some? && SenderColumn(m, kind) == ViewerColumn(v, kind))
  {
    match SenderOf(v.role)
    case None => false
    case Some(kind) => SenderColumn(m, kind).Some? && SenderColumn(m, kind) == ViewerColumn(v, kind)
  }

  /**
   * A message is drawn as the viewer's own exactly when the server would let the viewer
   * delete it, given the viewer's id of their role.
   */
  lemma MineIffDeletable(v: Viewer, m: Message, caller: Identity)
    requires IsKnownRole(v.role) && caller.role == v.role
    requires ViewerColumn(v, SenderOf(v.role).value) == Some(caller.id)
    ensures IsMyMessage(v, m) <==> Chat.SentBy(m, caller)
  {
  }

  /** A message the viewer posted is drawn as theirs, and as nobody's in another role. */
  lemma PostedIsMine(v: Viewer, other: Viewer, id: int, chatId: int, senderId: int, text: string, now: int)
    requires IsKnownRole(v.role) && ViewerColumn(v, SenderOf(v.role).value) == Some(senderId)
    requires other.role != v.role
    ensures var m := Chat.NewMessage(id, chatId, SenderOf(v.role).value, senderId, text, now);
      IsMyMessage(v, m) && !IsMyMessage(other, m)
  {
    var m := Chat.NewMessage(id, chatId, SenderOf(v.role).value, senderId, text, now);
    if IsKnownRole(other.role) {
      assert SenderOf(other.role).value != SenderOf(v.role).value;
    }
  }

  const Amber: string := "text-amber-600"
  const Emerald: string := "text-emerald-600"
  const Teal: string := "text-teal-600"

  /** `getRoleColor`: amber for a coordinator, emerald for a mentor, teal for anything else. */
  function RoleColor(role: Option<string>): (c: string)
    ensures c == Amber <==> role == Some(CoordinatorRole)
    ensures c == Emerald <==> role == Some(MentorRole)
    ensures c == Teal <==> role != Some(CoordinatorRole) && role != Some(MentorRole)
  {
    if role == Some(CoordinatorRole) then Amber
    else if role == Some(MentorRole) then Emerald
    else Teal
  }

  /** A posted message is coloured by its poster's role. */
  lemma ColourOfPosted(id: int, chatId: int, role: string, senderId: int, text: string, now: int)
    requires IsKnownRole(role)
    ensures var c := RoleColor(Chat.SenderRole(Chat.NewMessage(id, chatId, SenderOf(role).value, senderId, text, now)));
      && (role == CoordinatorRole ==> c == Amber)
      && (role == MentorRole ==> c == Emerald)
      && (role == StudentRole ==> c == Teal)
  {
    Chat.SenderRoleOfPosted(id, chatId, role, senderId, text, now);
  }

  /** What submitting the message box does. */
  datatype SendAction = Ignore | Post(text: string)

  /** `handleSend`: nothing while a send is in flight or when the box holds only spaces; otherwise the trimmed text is posted. */
  function HandleSend(input: string, sending: bool): (a: SendAction)
    ensures a.Post? <==> Trim(input) != "" && !sending
    ensures a.Post? ==> a.text == Trim(input)
  {
    if Trim(input) == "" || sending then Ignore else Post(Trim(input))
  }

  /** A posted text passes the server's own text check and is stored as posted. */
  lemma PostedTextAccepted(input: string, sending: bool)
    requires HandleSend(input, sending).Post?
    ensures var t := HandleSend(input, sending).text;
      Trim(t) != "" && Trim(t) == t
  {
    TrimIdempotent(input);
  }

  /**
   * The date separator before message `i`: shown for the first message and for any message
   * whose formatted date differs from the previous message's. `format` is the locale's
   * day-and-month rendering of a timestamp.
   */
  function ShowDate(messages: seq<Message>, i: nat, format: int -> string): (b: bool)
    requires i < |messages|
    ensures i == 0 ==> b
    ensures i > 0 ==> (b <==> format(messages[i].sentAt) != format(messages[i - 1].sentAt))
  {
    i == 0 || format(messages[i].sentAt) != format(messages[i - 1].sentAt)
  }

  /** Messages whose dates all format alike get a single separator, above the first. */
  lemma OneDayOneSeparator(messages: seq<Message>, format: int -> string)
    requires forall i :: 0 <= i < |messages| ==> format(messages[i].sentAt) == format(messages[0].sentAt)
    ensures forall i :: 0 <= i < |messages| ==> (ShowDate(messages, i, format) <==> i == 0)
  {
  }

  /** The key a user's records are stored under: `user.id`, or the email when the id is falsy. */
  datatype UserKey = ById(id: int) | ByEmail(email: string)

  function KeyOf(v: Viewer): UserKey {
    if GivenId(v.id) then ById(v.id.value) else ByEmail(v.email)
  }

  predicate NoDuplicates(s: seq<int>) {
    forall i, j :: 0 <= i < j < |s| ==> s[i] != s[j]
  }

  /** The dismissed list after removing a group: the contest id appended unless already listed. */
  function WithDismissed(list: seq<int>, contestId: int): (r: seq<int>)
    ensures contestId in r
    ensures list <= r && |r| <= |list| + 1
    ensures forall x :: x in r <==> x in list || x == contestId
    ensures NoDuplicates(list) ==> NoDuplicates(r)
  {
    if contestId in list then list else list + [contestId]
  }

  /** Removing the same group twice is removing it once. */
  lemma DismissIdempotent(list: seq<int>, contestId: int)
    ensures WithDismissed(WithDismissed(list, contestId), contestId) == WithDismissed(list, contestId)
  {
  }

  /**
   * The seen map after the chat shows `messages`: with at least one message and a signed-in
   * user, the contest's entry becomes the last message's id; nothing else changes.
   */
  function SeenAfter(seen: map<int, int>, contestId: int, messages: seq<Message>): (r: map<int, int>)
    ensures |messages| == 0 ==> r == seen
    ensures |messages| > 0 ==> contestId in r && r[contestId] == messages[|messages| - 1].messageId
    ensures forall k :: k != contestId ==> (k in r <==> k in seen) && (k in seen ==> r[k] == seen[k])
  {
    if |messages| == 0 then seen else seen[contestId := messages[|messages| - 1].messageId]
  }

  /** The page's local-storage records, per user key. */
  class LocalStore {
    var dismissed: map<UserKey, seq<int>>
    var seen: map<UserKey, map<int, int>>

    /** Every stored dismissed list lists each contest once. */
    ghost predicate Valid()
      reads this
    {
      forall k :: k in dismissed ==> NoDuplicates(dismissed[k])
    }

    constructor()
      ensures Valid()
      ensures dismissed == map[] && seen == map[]
    {
      dismissed := map[];
      seen := map[];
    }

    /** `JSON.parse(getItem(key) || '[]')`. */
    function DismissedOf(key: UserKey): seq<int>
      reads this
    {
      if key in dismissed then dismissed[key] else []
    }

    /** `JSON.parse(getItem(key) || '{}')`. */
    function SeenOf(key: UserKey): map<int, int>
      reads this
    {
      if key in seen then seen[key] else map[]
    }

    /**
     * `handleRemoveGroup`: reads the user's dismissed list, and writes it back with the
     * contest id appended only when the id is not listed yet.
     */
    method RemoveGroup(v: Viewer, contestId: int)
      requires Valid()
      modifies this
      ensures Valid()
      ensures contestId in old(DismissedOf(KeyOf(v))) ==> dismissed == old(dismissed)
      ensures contestId !in old(DismissedOf(KeyOf(v))) ==>
        dismissed == old(dismissed)[KeyOf(v) := old(DismissedOf(KeyOf(v))) + [contestId]]
      ensures DismissedOf(KeyOf(v)) == WithDismissed(old(DismissedOf(KeyOf(v))), contestId)
      ensures seen == old(seen)
    {
      var key := KeyOf(v);
      var list := DismissedOf(key);
      if contestId !in list {
        list := list + [contestId];
        dismissed := dismissed[key := list];
      }
    }

    /**
     * The seen effect: with a signed-in user and at least one message, the user's seen map is
     * read and written back with the contest's entry set to the last message's id.
     */
    method MarkSeen(user: Option<Viewer>, contestId: int, messages: seq<Message>)
      requires Valid()
      modifies this
      ensures Valid()
      ensures dismissed == old(dismissed)
      ensures |messages| == 0 || user.None? ==> seen == old(seen)
      ensures |messages| > 0 && user.Some? ==>
        seen == old(seen)[KeyOf(user.value) := SeenAfter(old(SeenOf(KeyOf(user.value))), contestId, messages)]
    {
      if |messages| > 0 && user.Some? {
        var key := KeyOf(user.value);
        var last := messages[|messages| - 1];
        var record := SeenOf(key);
        record := record[contestId := last.messageId];
        seen := seen[key := record];
      }
    }
  }
}
