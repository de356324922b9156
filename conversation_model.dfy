/**
 * The Conversation model of the chat server: participant rows, member
 * roles with 'member' as the default, the admin list, the group lookup
 * and the per-user conversation list with its display names.
 */
module ConversationModel {
  import opened Common
  import opened Strings
  import opened Store
  import opened Ordering
  import MessageModel

  // ---------------------------------------------------------------------------
  // participants

  /** INSERT INTO conversation_participants; a store error is passed on. */
  method AddParticipant(db: Db, c: ConvId, u: UserId) returns (err: Option<StoreError>)
    requires db.Valid()
    modifies db
    ensures db.Valid()
    ensures err.None? <==> c in old(db.conversations) && (c, u) !in old(db.participants)
    ensures err.None? ==> db.State() == old(db.State()).(participants := old(db.participants) + [(c, u)])
    ensures err.Some? ==> db.State() == old(db.State())
  {
    err := db.InsertParticipant(c, u);
  }

  /** DELETE FROM conversation_participants WHERE conversation_id = c AND user_id = u. */
  method RemoveParticipant(db: Db, c: ConvId, u: UserId)
    requires db.Valid()
    modifies db
    ensures db.Valid()
    ensures db.State() == old(db.State()).(participants := Without(old(db.participants), (c, u)))
  {
    WithoutNoDuplicates(db.participants, (c, u));
    var kept := Without(db.participants, (c, u));
    assert forall i :: 0 <= i < |kept| ==> kept[i] in db.participants;
    db.participants := kept;
  }

  predicate IsParticipant(t: Tables, c: ConvId, u: UserId)
  {
    (c, u) in t.participants
  }

  /** Adding (c, u) makes u a participant of c and changes no other membership. */
  lemma AddThenIsParticipant(t: Tables, c: ConvId, u: UserId, c': ConvId, u': UserId)
    ensures IsParticipant(t.(participants := t.participants + [(c, u)]), c', u')
        <==> (c', u') == (c, u) || IsParticipant(t, c', u')
  {
  }

  /** Removing (c, u) ends exactly that membership. */
  lemma RemoveThenNotParticipant(t: Tables, c: ConvId, u: UserId, c': ConvId, u': UserId)
    ensures IsParticipant(t.(participants := Without(t.participants, (c, u))), c', u')
        <==> (c', u') != (c, u) && IsParticipant(t, c', u')
  {
  }

  // ---------------------------------------------------------------------------
  // roles

  /** INSERT ... ON DUPLICATE KEY UPDATE role: an upsert of the (c, u) row. */
  method SetRole(db: Db, c: ConvId, u: UserId, role: string)
    requires db.Valid()
    modifies db
    ensures db.Valid()
    ensures db.State() == old(db.State()).(roles := old(db.roles)[(c, u) := role])
  {
    db.roles := db.roles[(c, u) := role];
  }

  /** `rows[0]?.role || 'member'`: the stored role unless it is missing or empty. */
  function GetRole(t: Tables, c: ConvId, u: UserId): (r: string)
    ensures (c, u) !in t.roles ==> r == "member"
    ensures r != ""
  {
    if (c, u) in t.roles && t.roles[(c, u)] != "" then t.roles[(c, u)] else "member"
  }

  /** After setRole(c, u, r), getRole(c, u) is r (an empty r reads back as 'member'); other rows keep theirs. */
  lemma GetRoleAfterSetRole(t: Tables, c: ConvId, u: UserId, role: string, c': ConvId, u': UserId)
    ensures GetRole(t.(roles := t.roles[(c, u) := role]), c, u) == (if role != "" then role else "member")
    ensures (c', u') != (c, u) ==> GetRole(t.(roles := t.roles[(c, u) := role]), c', u') == GetRole(t, c', u')
  {
  }

  predicate IsAdminRole(role: string) { role == "owner" || role == "admin" }

  /** The users holding an 'owner' or 'admin' row in c (JOIN with users). */
  function GetAdmins(t: Tables, c: ConvId): (r: set<UserId>)
    ensures forall u :: u in r ==> u in t.users
  {
    set p | p in t.roles && p.0 == c && p.1 in t.users && IsAdminRole(t.roles[p]) :: p.1
  }

  /** getAdmins(c) holds exactly the existing users whose role in c is owner or admin. */
  lemma GetAdminsExactly(t: Tables, c: ConvId, u: UserId)
    ensures u in GetAdmins(t, c) <==> u in t.users && IsAdminRole(GetRole(t, c, u))
  {
    if u in t.users && IsAdminRole(GetRole(t, c, u)) {
      assert (c, u) in t.roles;
    }
  }

  // ---------------------------------------------------------------------------
  // findById

  /** The participants of c that have a user row (the inner JOIN with users). */
  function JoinedMembers(t: Tables, c: ConvId): (r: seq<UserId>)
    ensures forall u :: u in r <==> (c, u) in t.participants && u in t.users
  {
    Filter(MembersOf(t.participants, c), t.users)
  }

  function Filter(us: seq<UserId>, users: map<UserId, UserRow>): (r: seq<UserId>)
    ensures forall u :: u in r <==> u in us && u in users
  {
    if us == [] then [] else (if us[0] in users then [us[0]] else []) + Filter(us[1..], users)
  }

  function Usernames(us: seq<UserId>, users: map<UserId, UserRow>): (r: seq<string>)
    requires forall i :: 0 <= i < |us| ==> us[i] in users
    ensures |r| == |us|
    ensures forall i :: 0 <= i < |us| ==> r[i] == users[us[i]].username
  {
    if us == [] then [] else [users[us[0]].username] + Usernames(us[1..], users)
  }

  /** A conversation with the GROUP_CONCAT(DISTINCT ...) columns of its members. */
  datatype ConversationInfo = ConversationInfo(
    id: ConvId,
    row: ConversationRow,
    participants: seq<string>,
    participantIds: seq<UserId>)

  function Info(t: Tables, c: ConvId): (r: ConversationInfo)
    requires c in t.conversations
  {
    var members := JoinedMembers(t, c);
    ConversationInfo(c, t.conversations[c], Distinct(Usernames(members, t.users)), Distinct(members))
  }

  /**
   * `Conversation.findById`: the conversation with its members, or nothing
   * when it does not exist or none of its participants has a user row.
   */
  function FindById(t: Tables, c: ConvId): (r: Option<ConversationInfo>)
    ensures r.Some? <==> c in t.conversations && exists u :: (c, u) in t.participants && u in t.users
    ensures r.Some? ==> r.value.id == c && r.value.row == t.conversations[c]
  {
    if c in t.conversations && JoinedMembers(t, c) != [] then
      var w := JoinedMembers(t, c)[0];
      assert w in JoinedMembers(t, c);
      assert (c, w) in t.participants && w in t.users;
      Some(Info(t, c))
    else None
  }

  // ---------------------------------------------------------------------------
  // getUserConversations

  /** `names.find(name => name !== own)`. */
  function FirstOther(names: seq<string>, own: string): (r: Option<string>)
    ensures r.Some? ==> r.value in names && r.value != own
    ensures r.None? ==> forall n :: n in names ==> n == own
  {
    if names == [] then None
    else if names[0] != own then Some(names[0])
    else
      assert names == [names[0]] + names[1..];
      FirstOther(names[1..], own)
  }

  const UnknownUser: string := "未知用户"
  const NoSuchUser: string := "用户不存在"

  /**
   * displayName: for a private conversation the first member name, from the
   * comma-joined list, other than the caller's, unless it is missing or
   * empty; for any other kind the conversation name.
   */
  function DisplayName(kind: string, name: Option<string>, members: seq<string>, own: string): (r: Option<string>)
  {
    if kind == "private" then
      var joined := if members == [] then "" else Join(members, ',');
      var found := FirstOther(Split(joined, ','), own);
      Some(if found.Some? && found.value != "" then found.value else UnknownUser)
    else name
  }

  lemma {:induction false} FirstOtherRemoveAll(names: seq<string>, own: string)
    ensures FirstOther(RemoveAll(names, own), own) == FirstOther(names, own)
  {
    if names != [] {
      FirstOtherRemoveAll(names[1..], own);
      var r := RemoveAll(names, own);
      if names[0] == own {
        assert r == RemoveAll(names[1..], own);
      } else {
        assert r[0] == names[0];
      }
    }
  }

  /** Keeping only first occurrences does not change which name comes first after one's own. */
  lemma {:induction false} FirstOtherDistinct(names: seq<string>, own: string)
    ensures FirstOther(Distinct(names), own) == FirstOther(names, own)
    decreases |names|
  {
    if names != [] && names[0] == own {
      var rest := RemoveAll(names[1..], own);
      FirstOtherDistinct(rest, own);
      FirstOtherRemoveAll(names[1..], own);
    }
  }

  /**
   * When no member name contains a comma, a private conversation is
   * displayed under the first member name other than the caller's, or
   * '未知用户' when there is none or it is empty.
   */
  lemma DisplayNameOfPrivate(name: Option<string>, members: seq<string>, own: string)
    requires members != []
    requires forall i :: 0 <= i < |members| ==> ',' !in members[i]
    ensures DisplayName("private", name, Distinct(members), own)
         == Some(var f := FirstOther(members, own); if f.Some? && f.value != "" then f.value else UnknownUser)
  {
    var d := Distinct(members);
    assert d != [] by { assert members[0] in d; }
    forall i | 0 <= i < |d| ensures ',' !in d[i] {
      assert d[i] in members;
    }
    SplitJoin(d, ',');
    FirstOtherDistinct(members, own);
  }

  /** One row of `getUserConversations`. */
  datatype UserConversation = UserConversation(
    info: ConversationInfo,
    lastMessage: Option<MessageRow>,
    lastMessageTime: Time,
    displayName: Option<string>)

  function Describe(t: Tables, c: ConvId, own: string): (r: UserConversation)
    requires c in t.conversations
  {
    var info := Info(t, c);
    var last := MessageModel.LatestIn(t.messages, c, false);
    UserConversation(
      info, last,
      if last.Some? then last.value.createdAt else info.row.createdAt,
      DisplayName(info.row.kind, info.row.name, info.participants, own))
  }

  /** The conversations of cs that exist and have at least one member with a user row. */
  function DescribeAll(t: Tables, cs: seq<ConvId>, own: string): (r: seq<UserConversation>)
    ensures forall x :: x in r ==> x.info.id in cs && FindById(t, x.info.id).Some?
                                    && x == Describe(t, x.info.id, own)
    ensures forall c :: c in cs && FindById(t, c).Some? ==> Describe(t, c, own) in r
  {
    if cs == [] then []
    else
      (if FindById(t, cs[0]).Some? then [Describe(t, cs[0], own)] else [])
      + DescribeAll(t, cs[1..], own)
  }

  function ActivityKey(x: UserConversation): int { -x.lastMessageTime }

  /**
   * `getUserConversations(u)`: an error for an unknown user; otherwise the
   * conversations u takes part in, latest non-recalled message first
   * (creation time when there is none).
   */
  function GetUserConversations(t: Tables, u: UserId): (r: Result<seq<UserConversation>>)
    ensures r.Err? <==> u !in t.users
    ensures r.Err? ==> r.error == NoSuchUser
    ensures r.Ok? ==> forall x :: x in r.value ==>
      (IsParticipant(t, x.info.id, u) && x.info.id in t.conversations
       && x == Describe(t, x.info.id, t.users[u].username))
    ensures r.Ok? ==> forall c :: IsParticipant(t, c, u) && c in t.conversations ==>
      Describe(t, c, t.users[u].username) in r.value
    ensures r.Ok? ==> SortedBy(r.value, ActivityKey)
  {
    if u !in t.users then Err(NoSuchUser)
    else
      var own := t.users[u].username;
      var rows := DescribeAll(t, ConversationsOf(t.participants, u), own);
      assert forall c :: IsParticipant(t, c, u) && c in t.conversations ==> FindById(t, c).Some?;
      SortByMembers(rows, ActivityKey);
      Ok(SortBy(rows, ActivityKey))
  }

  /** The last message shown in the list is never a recalled one. */
  lemma UserConversationsSkipRecalled(t: Tables, u: UserId, x: UserConversation)
    requires GetUserConversations(t, u).Ok? && x in GetUserConversations(t, u).value
    ensures x.lastMessage.Some? ==>
      (!x.lastMessage.value.isDeleted && x.lastMessage.value.conversationId == x.info.id)
  {
  }
}
