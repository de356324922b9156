/**
 * The relational store shared by the chat server and the admin backend:
 * one field per table, with rows as datatypes. Primary keys become map
 * keys; tables whose row order the queries expose (participants,
 * messages) are sequences in insertion order.
 *
 * The schema itself is not part of this model. The keys the code relies on
 * are: a unique (conversation, user) pair in conversation_participants,
 * (message, user) in message_reads and (conversation, user) in
 * conversation_member_roles (both written with ON DUPLICATE KEY UPDATE),
 * (user, friend) in friendships (the friend route tests for ER_DUP_ENTRY),
 * and user_id in user_settings. Inserting a participant or a message is
 * taken to need an existing conversation, which is the dependency order the
 * admin cascade delete follows.
 */
module Store {
  import opened Common

  datatype UserRow = UserRow(
    username: string,
    password: Option<string>,  // the stored bcrypt hash; NULL for a row the admin backend inserted
    nickname: Option<string>,
    phone: Option<string>,
    email: Option<string>,
    address: Option<string>,
    avatar: Option<string>,
    gender: Option<string>,
    age: Option<int>,
    isOnline: int,
    lastSeen: Option<Time>,
    createdAt: Time)

  datatype ConversationRow = ConversationRow(
    name: Option<string>,
    kind: string,              // 'private' or 'group'
    ownerId: Option<UserId>,
    createdAt: Time,
    updatedAt: Time)

  datatype MessageRow = MessageRow(
    id: MsgId,
    conversationId: ConvId,
    senderId: UserId,
    content: string,
    kind: string,              // 'text', 'file', 'audio', ...
    isDeleted: bool,
    createdAt: Time)

  /** The columns of a user_settings row that differ from the column defaults. */
  type Settings = map<string, string>

  /** A (conversation, user) row of conversation_participants. */
  type Participant = (ConvId, UserId)

  datatype Tables = Tables(
    users: map<UserId, UserRow>,
    conversations: map<ConvId, ConversationRow>,
    participants: seq<Participant>,
    roles: map<Participant, string>,
    messages: seq<MessageRow>,
    receipts: map<(MsgId, UserId), Time>,
    friendships: set<(UserId, UserId)>,
    settings: map<UserId, Settings>,
    nextUserId: int,
    nextConvId: int,
    nextMsgId: int)

  /** Message ids grow with insertion order, as AUTO_INCREMENT hands them out. */
  predicate IdsIncreasing(ms: seq<MessageRow>)
  {
    forall i, j :: 0 <= i < j < |ms| ==> ms[i].id < ms[j].id
  }

  /** What the store guarantees about its own tables. */
  predicate Consistent(t: Tables)
  {
    && 1 <= t.nextUserId
    && (forall u :: u in t.users ==> 1 <= u < t.nextUserId)
    && (forall c :: c in t.conversations ==> c < t.nextConvId)
    && (forall i :: 0 <= i < |t.messages| ==> t.messages[i].id < t.nextMsgId)
    && IdsIncreasing(t.messages)
    && NoDuplicates(t.participants)
    && (forall i :: 0 <= i < |t.participants| ==> t.participants[i].0 in t.conversations)
    && (forall i :: 0 <= i < |t.messages| ==> t.messages[i].conversationId in t.conversations)
  }

  const EmptyTables: Tables :=
    Tables(map[], map[], [], map[], [], map[], {}, map[], 1, 1, 1)

  /** Rolling a transaction back restores every table but not the AUTO_INCREMENT counters. */
  function RolledBack(snapshot: Tables, current: Tables): (r: Tables)
    ensures r.users == snapshot.users && r.messages == snapshot.messages
    ensures r.nextMsgId == current.nextMsgId
  {
    snapshot.(nextUserId := current.nextUserId, nextConvId := current.nextConvId,
              nextMsgId := current.nextMsgId)
  }

  lemma RollbackKeepsConsistent(snapshot: Tables, current: Tables)
    requires Consistent(snapshot)
    requires snapshot.nextUserId <= current.nextUserId
    requires snapshot.nextConvId <= current.nextConvId
    requires snapshot.nextMsgId <= current.nextMsgId
    ensures Consistent(RolledBack(snapshot, current))
  {
  }

  /** The participant rows of conversation c, in table order. */
  function MembersOf(ps: seq<Participant>, c: ConvId): (us: seq<UserId>)
    ensures forall u :: u in us <==> (c, u) in ps
  {
    if ps == [] then []
    else (if ps[0].0 == c then [ps[0].1] else []) + MembersOf(ps[1..], c)
  }

  lemma {:induction false} MembersOfNoDuplicates(ps: seq<Participant>, c: ConvId)
    requires NoDuplicates(ps)
    ensures NoDuplicates(MembersOf(ps, c))
  {
    if ps != [] {
      MembersOfNoDuplicates(ps[1..], c);
      if ps[0].0 == c {
        assert ps[0] !in ps[1..];
      }
    }
  }

  /** The conversations user u has a participant row in, in table order. */
  function ConversationsOf(ps: seq<Participant>, u: UserId): (cs: seq<ConvId>)
    ensures forall c :: c in cs <==> (c, u) in ps
  {
    if ps == [] then []
    else (if ps[0].1 == u then [ps[0].0] else []) + ConversationsOf(ps[1..], u)
  }

  lemma {:induction false} ConversationsOfNoDuplicates(ps: seq<Participant>, u: UserId)
    requires NoDuplicates(ps)
    ensures NoDuplicates(ConversationsOf(ps, u))
  {
    if ps != [] {
      ConversationsOfNoDuplicates(ps[1..], u);
      if ps[0].1 == u {
        assert ps[0] !in ps[1..];
      }
    }
  }

  /** The rows of ps other than p. */
  function Without(ps: seq<Participant>, p: Participant): (r: seq<Participant>)
    ensures forall q :: q in r <==> q in ps && q != p
    ensures |r| <= |ps|
  {
    if ps == [] then []
    else (if ps[0] == p then [] else [ps[0]]) + Without(ps[1..], p)
  }

  lemma {:induction false} WithoutNoDuplicates(ps: seq<Participant>, p: Participant)
    requires NoDuplicates(ps)
    ensures NoDuplicates(Without(ps, p))
  {
    if ps != [] {
      WithoutNoDuplicates(ps[1..], p);
      assert ps[0] !in ps[1..];
    }
  }

  /** The index of the message with id m, if the table has one. */
  function IndexOfMessage(ms: seq<MessageRow>, m: MsgId): (r: Option<nat>)
    ensures r.Some? ==> r.value < |ms| && ms[r.value].id == m
    ensures r.None? ==> forall i :: 0 <= i < |ms| ==> ms[i].id != m
    ensures r.Some? ==> forall i :: 0 <= i < r.value ==> ms[i].id != m
  {
    if ms == [] then None
    else if ms[0].id == m then Some(0)
    else
      var r := IndexOfMessage(ms[1..], m);
      if r.Some? then Some(r.value + 1) else None
  }

  /**
   * The store as one object: each table is a field the model operations
   * reassign, and State() is the value of all of them.
   */
  class Db {
    var users: map<UserId, UserRow>
    var conversations: map<ConvId, ConversationRow>
    var participants: seq<Participant>
    var roles: map<Participant, string>
    var messages: seq<MessageRow>
    var receipts: map<(MsgId, UserId), Time>
    var friendships: set<(UserId, UserId)>
    var settings: map<UserId, Settings>
    var nextUserId: int
    var nextConvId: int
    var nextMsgId: int

    function State(): Tables
      reads this
    {
      Tables(users, conversations, participants, roles, messages, receipts,
             friendships, settings, nextUserId, nextConvId, nextMsgId)
    }

    ghost predicate Valid()
      reads this
    {
      Consistent(State())
    }

    constructor ()
      ensures State() == EmptyTables && Valid()
    {
      users, conversations, participants, roles := map[], map[], [], map[];
      messages, receipts, friendships, settings := [], map[], {}, map[];
      nextUserId, nextConvId, nextMsgId := 1, 1, 1;
    }

    /** Replaces every table at once. */
    method Load(t: Tables)
      modifies this
      ensures State() == t
    {
      users, conversations, participants, roles := t.users, t.conversations, t.participants, t.roles;
      messages, receipts, friendships, settings := t.messages, t.receipts, t.friendships, t.settings;
      nextUserId, nextConvId, nextMsgId := t.nextUserId, t.nextConvId, t.nextMsgId;
    }

    /** ROLLBACK to the snapshot taken at BEGIN. */
    method Rollback(snapshot: Tables)
      modifies this
      ensures State() == RolledBack(snapshot, old(State()))
    {
      users, conversations, participants, roles := snapshot.users, snapshot.conversations, snapshot.participants, snapshot.roles;
      messages, receipts, friendships, settings := snapshot.messages, snapshot.receipts, snapshot.friendships, snapshot.settings;
    }

    /** INSERT INTO conversations; the new id is returned. */
    method InsertConversation(name: Option<string>, kind: string, ownerId: Option<UserId>, now: Time)
      returns (id: ConvId)
      requires Valid()
      modifies this
      ensures Valid()
      ensures id == old(nextConvId) && id !in old(conversations)
      ensures State() == old(State()).(
        conversations := old(conversations)[id := ConversationRow(name, kind, ownerId, now, now)],
        nextConvId := id + 1)
    {
      id := nextConvId;
      conversations := conversations[id := ConversationRow(name, kind, ownerId, now, now)];
      nextConvId := id + 1;
    }

    /**
     * INSERT INTO conversation_participants: DuplicateEntry if the pair is
     * already there, a failure if the conversation does not exist.
     */
    method InsertParticipant(c: ConvId, u: UserId) returns (err: Option<StoreError>)
      requires Valid()
      modifies this
      ensures Valid()
      ensures err == None <==> c in old(conversations) && (c, u) !in old(participants)
      ensures err == Some(DuplicateEntry) <==> c in old(conversations) && (c, u) in old(participants)
      ensures err.None? ==> State() == old(State()).(participants := old(participants) + [(c, u)])
      ensures err.Some? ==> State() == old(State())
    {
      if c !in conversations {
        err := Some(StoreFailure("foreign key: conversation"));
      } else if (c, u) in participants {
        err := Some(DuplicateEntry);
      } else {
        participants := participants + [(c, u)];
        err := None;
      }
    }
  }
}
