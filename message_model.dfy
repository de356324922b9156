/**
 * The Message model of the chat server: the transactional insert, the
 * per-conversation listing, the lookup that hides recalled messages, read
 * receipts and the unread count derived from them, the soft delete, and
 * the recency-ordered conversation list.
 */
module MessageModel {
  import opened Common
  import opened Store
  import opened Ordering

  // ---------------------------------------------------------------------------
  // create

  /** The `type` of a new message: 'text' when the caller gives none. */
  function KindOrText(kind: Option<string>): (k: string)
    ensures kind.None? ==> k == "text"
    ensures kind.Some? ==> k == kind.value
  {
    if kind.Some? then kind.value else "text"
  }

  /**
   * Inserts the message and bumps the conversation's updated_at in one
   * transaction. Either statement can fail (`insertFails`, `updateFails`
   * stand for a lost connection or any other store error; an unknown
   * conversation fails the insert); then both are rolled back and the
   * error is passed on. Only the AUTO_INCREMENT counter survives a
   * rollback.
   */
  method Create(db: Db, c: ConvId, sender: UserId, content: string, kind: Option<string>,
                now: Time, insertFails: bool, updateFails: bool)
    returns (r: Result<MsgId>)
    requires db.Valid()
    modifies db
    ensures db.Valid()
    ensures r.Ok? <==> c in old(db.conversations) && !insertFails && !updateFails
    ensures r.Ok? ==> r.value == old(db.nextMsgId)
    ensures r.Ok? ==> db.State() == old(db.State()).(
      messages := old(db.messages) + [MessageRow(r.value, c, sender, content, KindOrText(kind), false, now)],
      conversations := old(db.conversations)[c := old(db.conversations)[c].(updatedAt := now)],
      nextMsgId := r.value + 1)
    ensures r.Err? ==> db.State() == old(db.State()).(nextMsgId := db.nextMsgId)
    ensures db.nextMsgId >= old(db.nextMsgId)
  {
    var snapshot := db.State();
    var k := KindOrText(kind);
    // INSERT INTO messages
    if c !in db.conversations || insertFails {
      r := Err("insert into messages failed");
      return;
    }
    var id := db.nextMsgId;
    db.messages := db.messages + [MessageRow(id, c, sender, content, k, false, now)];
    db.nextMsgId := id + 1;
    // UPDATE conversations SET updated_at
    if updateFails {
      db.Rollback(snapshot);
      r := Err("update of conversations failed");
      return;
    }
    db.conversations := db.conversations[c := db.conversations[c].(updatedAt := now)];
    r := Ok(id);
  }

  // ---------------------------------------------------------------------------
  // getByConversationId

  function CreatedKey(m: MessageRow): int { m.createdAt }

  /** The rows of conversation c whose sender has a user row (the JOIN with users). */
  function InConversation(ms: seq<MessageRow>, users: map<UserId, UserRow>, c: ConvId): (r: seq<MessageRow>)
    ensures forall x :: x in r <==> x in ms && x.conversationId == c && x.senderId in users
  {
    if ms == [] then []
    else
      (if ms[0].conversationId == c && ms[0].senderId in users then [ms[0]] else [])
      + InConversation(ms[1..], users, c)
  }

  /**
   * All messages of c, recalled ones included, oldest first; rows with the
   * same created_at keep their table order.
   */
  function ByConversation(t: Tables, c: ConvId): (r: seq<MessageRow>)
    ensures forall x :: x in r <==> x in t.messages && x.conversationId == c && x.senderId in t.users
    ensures SortedBy(r, CreatedKey)
  {
    var rows := InConversation(t.messages, t.users, c);
    SortByMembers(rows, CreatedKey);
    SortBy(rows, CreatedKey)
  }

  // ---------------------------------------------------------------------------
  // findById

  /** The first row with id m that is not recalled. */
  function FindById(ms: seq<MessageRow>, m: MsgId): (r: Option<MessageRow>)
    ensures r.Some? ==> r.value in ms && r.value.id == m && !r.value.isDeleted
    ensures r.None? ==> forall x :: x in ms && x.id == m ==> x.isDeleted
  {
    if ms == [] then None
    else if ms[0].id == m && !ms[0].isDeleted then Some(ms[0])
    else FindById(ms[1..], m)
  }

  /** Ids are unique, so a live message with id m is the one findById returns. */
  lemma FindByIdUnique(ms: seq<MessageRow>, m: MsgId, x: MessageRow)
    requires IdsIncreasing(ms)
    requires x in ms && x.id == m && !x.isDeleted
    ensures FindById(ms, m) == Some(x)
  {
    var r := FindById(ms, m);
    var i :| 0 <= i < |ms| && ms[i] == x;
    var j :| 0 <= j < |ms| && ms[j] == r.value;
    assert !(i < j) && !(j < i);
  }

  // ---------------------------------------------------------------------------
  // markAsRead

  /** INSERT ... ON DUPLICATE KEY UPDATE read_at: one receipt per (message, user). */
  function MarkRead(receipts: map<(MsgId, UserId), Time>, m: MsgId, u: UserId, now: Time)
    : (r: map<(MsgId, UserId), Time>)
    ensures r.Keys == receipts.Keys + {(m, u)}
    ensures r[(m, u)] == now
    ensures forall k :: k in receipts && k != (m, u) ==> r[k] == receipts[k]
  {
    receipts[(m, u):= now]
  }

  method MarkAsRead(db: Db, m: MsgId, u: UserId, now: Time)
    requires db.Valid()
    modifies db
    ensures db.Valid()
    ensures db.State() == old(db.State()).(receipts := MarkRead(old(db.receipts), m, u, now))
  {
    db.receipts := db.receipts[(m, u) := now];
  }

  /** Marking twice leaves the same receipt rows as marking once; only the time moves. */
  lemma MarkReadIdempotent(receipts: map<(MsgId, UserId), Time>, m: MsgId, u: UserId, t1: Time, t2: Time)
    ensures MarkRead(MarkRead(receipts, m, u, t1), m, u, t2) == MarkRead(receipts, m, u, t2)
    ensures MarkRead(MarkRead(receipts, m, u, t1), m, u, t2).Keys == MarkRead(receipts, m, u, t1).Keys
  {
  }

  // ---------------------------------------------------------------------------
  // getUnreadCount

  /** A message of c that u did not send, is not recalled and has no receipt from u. */
  predicate IsUnread(x: MessageRow, receipts: map<(MsgId, UserId), Time>, c: ConvId, u: UserId)
  {
    x.conversationId == c && x.senderId != u && !x.isDeleted && (x.id, u) !in receipts
  }

  function CountUnread(ms: seq<MessageRow>, receipts: map<(MsgId, UserId), Time>, c: ConvId, u: UserId)
    : (n: nat)
    ensures n <= |ms|
    ensures n == 0 <==> forall i :: 0 <= i < |ms| ==> !IsUnread(ms[i], receipts, c, u)
  {
    if ms == [] then 0
    else
      (if IsUnread(ms[0], receipts, c, u) then 1 else 0) + CountUnread(ms[1..], receipts, c, u)
  }

  function UnreadCount(t: Tables, c: ConvId, u: UserId): nat
  {
    CountUnread(t.messages, t.receipts, c, u)
  }

  lemma {:induction false} CountUnreadAppend(ms: seq<MessageRow>, x: MessageRow,
                                             receipts: map<(MsgId, UserId), Time>, c: ConvId, u: UserId)
    ensures CountUnread(ms + [x], receipts, c, u)
         == CountUnread(ms, receipts, c, u) + (if IsUnread(x, receipts, c, u) then 1 else 0)
  {
    if ms != [] {
      assert (ms + [x])[1..] == ms[1..] + [x];
      CountUnreadAppend(ms[1..], x, receipts, c, u);
    }
  }

  /**
   * A newly created message adds one to the unread count of every other
   * user in the conversation and nothing to its sender's.
   */
  lemma UnreadAfterCreate(t: Tables, row: MessageRow, u: UserId)
    requires !row.isDeleted && (row.id, u) !in t.receipts
    ensures UnreadCount(t.(messages := t.messages + [row]), row.conversationId, u)
         == UnreadCount(t, row.conversationId, u) + (if row.senderId != u then 1 else 0)
  {
    CountUnreadAppend(t.messages, row, t.receipts, row.conversationId, u);
  }

  /** Whether the row with id m in ms is unread for u in c. */
  predicate UnreadId(ms: seq<MessageRow>, m: MsgId, receipts: map<(MsgId, UserId), Time>, c: ConvId, u: UserId)
  {
    exists i :: 0 <= i < |ms| && ms[i].id == m && IsUnread(ms[i], receipts, c, u)
  }

  /**
   * A receipt from u for message m takes m out of u's unread count, and
   * nothing else; a receipt from another user changes nothing.
   */
  lemma {:induction false} UnreadAfterMarkRead(ms: seq<MessageRow>, receipts: map<(MsgId, UserId), Time>,
                                               m: MsgId, reader: UserId, now: Time, c: ConvId, u: UserId)
    requires IdsIncreasing(ms)
    ensures reader == u ==>
      CountUnread(ms, MarkRead(receipts, m, reader, now), c, u)
      + (if UnreadId(ms, m, receipts, c, u) then 1 else 0)
      == CountUnread(ms, receipts, c, u)
    ensures reader != u ==>
      CountUnread(ms, MarkRead(receipts, m, reader, now), c, u) == CountUnread(ms, receipts, c, u)
  {
    if ms != [] {
      var rest := ms[1..];
      assert IdsIncreasing(rest);
      UnreadAfterMarkRead(rest, receipts, m, reader, now, c, u);
      if reader == u && ms[0].id == m {
        forall i | 0 <= i < |rest| ensures rest[i].id != m {
          assert ms[0].id < ms[i + 1].id;
        }
        assert !UnreadId(rest, m, receipts, c, u);
      }
      if UnreadId(ms, m, receipts, c, u) && ms[0].id != m {
        var i :| 0 <= i < |ms| && ms[i].id == m && IsUnread(ms[i], receipts, c, u);
        assert rest[i - 1] == ms[i];
      }
      if reader == u && UnreadId(rest, m, receipts, c, u) {
        var i :| 0 <= i < |rest| && rest[i].id == m && IsUnread(rest[i], receipts, c, u);
        assert ms[i + 1] == rest[i];
      }
    }
  }

  /**
   * Once u holds a receipt for every message of ms, u has nothing unread
   * in any conversation.
   */
  lemma AllReadNoneUnread(ms: seq<MessageRow>, receipts: map<(MsgId, UserId), Time>, c: ConvId, u: UserId)
    requires forall i :: 0 <= i < |ms| ==> (ms[i].id, u) in receipts
    ensures CountUnread(ms, receipts, c, u) == 0
  {
  }

  // ---------------------------------------------------------------------------
  // deleteMessage

  /** UPDATE messages SET is_deleted = 1 WHERE id = m. */
  function SoftDelete(ms: seq<MessageRow>, m: MsgId): (r: seq<MessageRow>)
    ensures |r| == |ms|
    ensures forall i :: 0 <= i < |ms| ==> r[i] == (if ms[i].id == m then ms[i].(isDeleted := true) else ms[i])
  {
    if ms == [] then []
    else [if ms[0].id == m then ms[0].(isDeleted := true) else ms[0]] + SoftDelete(ms[1..], m)
  }

  method DeleteMessage(db: Db, m: MsgId)
    requires db.Valid()
    modifies db
    ensures db.Valid()
    ensures db.State() == old(db.State()).(messages := SoftDelete(old(db.messages), m))
  {
    db.messages := SoftDelete(db.messages, m);
  }

  /** After a recall the message is hidden from findById but still listed for its conversation. */
  lemma DeleteHidesMessage(t: Tables, m: MsgId, i: nat)
    requires i < |t.messages| && t.messages[i].id == m && t.messages[i].senderId in t.users
    ensures FindById(SoftDelete(t.messages, m), m).None?
    ensures t.messages[i].(isDeleted := true) in ByConversation(t.(messages := SoftDelete(t.messages, m)), t.messages[i].conversationId)
  {
    var ms := SoftDelete(t.messages, m);
    assert ms[i] == t.messages[i].(isDeleted := true);
  }

  /** Recalling a message takes it out of every unread count; nothing is added. */
  lemma {:induction false} UnreadAfterDelete(ms: seq<MessageRow>, m: MsgId, receipts: map<(MsgId, UserId), Time>, c: ConvId, u: UserId)
    ensures CountUnread(SoftDelete(ms, m), receipts, c, u) <= CountUnread(ms, receipts, c, u)
    ensures UnreadId(ms, m, receipts, c, u) ==> CountUnread(SoftDelete(ms, m), receipts, c, u) < CountUnread(ms, receipts, c, u)
  {
    if ms != [] {
      var r := SoftDelete(ms, m);
      assert r[1..] == SoftDelete(ms[1..], m);
      UnreadAfterDelete(ms[1..], m, receipts, c, u);
      if UnreadId(ms, m, receipts, c, u) && !(ms[0].id == m && IsUnread(ms[0], receipts, c, u)) {
        var i :| 0 <= i < |ms| && ms[i].id == m && IsUnread(ms[i], receipts, c, u);
        assert ms[1..][i - 1] == ms[i];
      }
    }
  }

  // ---------------------------------------------------------------------------
  // getConversations

  /**
   * The last message of c, by created_at (LIMIT 1 of ORDER BY created_at
   * DESC); among equal times the later row. Recalled messages take part
   * only when `withDeleted` holds.
   */
  function LatestIn(ms: seq<MessageRow>, c: ConvId, withDeleted: bool): (r: Option<MessageRow>)
    ensures r.Some? ==> r.value in ms && r.value.conversationId == c && (withDeleted || !r.value.isDeleted)
    ensures r.Some? ==> forall x :: x in ms && x.conversationId == c && (withDeleted || !x.isDeleted)
                                   ==> x.createdAt <= r.value.createdAt
    ensures r.None? ==> forall x :: x in ms ==> !(x.conversationId == c && (withDeleted || !x.isDeleted))
  {
    if ms == [] then None
    else
      var init := ms[..|ms| - 1];
      var x := ms[|ms| - 1];
      assert ms == init + [x];
      var rest := LatestIn(init, c, withDeleted);
      if x.conversationId == c && (withDeleted || !x.isDeleted) && (rest.None? || rest.value.createdAt <= x.createdAt)
      then Some(x)
      else rest
  }

  /** One row of the conversation list the messages route returns. */
  datatype ConversationSummary = ConversationSummary(
    id: ConvId,
    name: Option<string>,
    kind: string,
    createdAt: Time,
    updatedAt: Time,
    lastMessage: string,
    lastMessageType: string,
    lastMessageTime: Time)

  function Summarize(t: Tables, c: ConvId): (s: ConversationSummary)
    requires c in t.conversations
  {
    var row := t.conversations[c];
    var last := LatestIn(t.messages, c, true);
    ConversationSummary(
      c, row.name, row.kind, row.createdAt, row.updatedAt,
      if last.Some? then last.value.content else "",
      if last.Some? then last.value.kind else "text",
      if last.Some? then last.value.createdAt else row.createdAt)
  }

  function SummariesOf(t: Tables, cs: seq<ConvId>): (r: seq<ConversationSummary>)
    ensures forall s :: s in r ==> s.id in cs && s.id in t.conversations && s == Summarize(t, s.id)
    ensures forall c :: c in cs && c in t.conversations ==> Summarize(t, c) in r
  {
    if cs == [] then []
    else
      (if cs[0] in t.conversations then [Summarize(t, cs[0])] else []) + SummariesOf(t, cs[1..])
  }

  function RecencyKey(s: ConversationSummary): int { -s.lastMessageTime }

  /**
   * The conversations u takes part in, each once, latest activity first:
   * the time of the last message (recalled ones count) or, with none, the
   * creation time.
   */
  function GetConversations(t: Tables, u: UserId): (r: seq<ConversationSummary>)
    ensures forall s :: s in r ==> (s.id, u) in t.participants && s.id in t.conversations
    ensures forall s :: s in r ==> s == Summarize(t, s.id)
    ensures forall c :: (c, u) in t.participants && c in t.conversations ==> Summarize(t, c) in r
    ensures SortedBy(r, RecencyKey)
  {
    var rows := SummariesOf(t, ConversationsOf(t.participants, u));
    SortByMembers(rows, RecencyKey);
    SortBy(rows, RecencyKey)
  }

  /** The preview columns fall back to '' and 'text' and the creation time when c has no message. */
  lemma SummaryOfEmptyConversation(t: Tables, c: ConvId)
    requires c in t.conversations
    requires forall i :: 0 <= i < |t.messages| ==> t.messages[i].conversationId != c
    ensures Summarize(t, c).lastMessage == "" && Summarize(t, c).lastMessageType == "text"
    ensures Summarize(t, c).lastMessageTime == t.conversations[c].createdAt
  {
    assert LatestIn(t.messages, c, true).None?;
  }

  /** The list time is never older than any message of the conversation. */
  lemma SummaryTimeIsLatest(t: Tables, c: ConvId, x: MessageRow)
    requires c in t.conversations && x in t.messages && x.conversationId == c
    ensures x.createdAt <= Summarize(t, c).lastMessageTime
  {
  }
}
