/**
 * The admin backend's user mapper: each SQL statement as a function on the
 * tables. A SELECT reads; a DELETE keeps exactly the rows its WHERE clause
 * does not match and leaves every other table as it was.
 */
module UserMapper {
  import opened Common
  import opened Store

  // ---------------------------------------------------------------------------
  // Row filters, in table order

  /** The messages whose conversation is not in cs. */
  function MessagesOutside(ms: seq<MessageRow>, cs: set<ConvId>): (r: seq<MessageRow>)
    ensures forall x :: x in r <==> x in ms && x.conversationId !in cs
    ensures |r| <= |ms|
  {
    if ms == [] then []
    else (if ms[0].conversationId in cs then [] else [ms[0]]) + MessagesOutside(ms[1..], cs)
  }

  /** The messages not sent by u. */
  function MessagesNotFrom(ms: seq<MessageRow>, u: UserId): (r: seq<MessageRow>)
    ensures forall x :: x in r <==> x in ms && x.senderId != u
    ensures |r| <= |ms|
  {
    if ms == [] then []
    else (if ms[0].senderId == u then [] else [ms[0]]) + MessagesNotFrom(ms[1..], u)
  }

  /** The participant rows whose conversation is not in cs. */
  function ParticipantsOutside(ps: seq<Participant>, cs: set<ConvId>): (r: seq<Participant>)
    ensures forall p :: p in r <==> p in ps && p.0 !in cs
    ensures |r| <= |ps|
  {
    if ps == [] then []
    else (if ps[0].0 in cs then [] else [ps[0]]) + ParticipantsOutside(ps[1..], cs)
  }

  /** The participant rows of users other than u. */
  function ParticipantsNotOf(ps: seq<Participant>, u: UserId): (r: seq<Participant>)
    ensures forall p :: p in r <==> p in ps && p.1 != u
    ensures |r| <= |ps|
  {
    if ps == [] then []
    else (if ps[0].1 == u then [] else [ps[0]]) + ParticipantsNotOf(ps[1..], u)
  }

  /** `SELECT id FROM messages WHERE conversation_id IN cs`. */
  function MessageIdsIn(ms: seq<MessageRow>, cs: set<ConvId>): set<MsgId>
  {
    set x | x in ms && x.conversationId in cs :: x.id
  }

  /** The read receipts whose message is not in ids. */
  function ReceiptsWithout(receipts: map<(MsgId, UserId), Time>, ids: set<MsgId>): (r: map<(MsgId, UserId), Time>)
    ensures forall k :: k in r <==> k in receipts && k.0 !in ids
    ensures forall k :: k in r ==> r[k] == receipts[k]
  {
    map k | k in receipts && k.0 !in ids :: receipts[k]
  }

  // ---------------------------------------------------------------------------
  // The statements

  /** `SELECT COUNT(*) FROM conversation_participants WHERE user_id = u`. */
  function CountUserConversations(ps: seq<Participant>, u: UserId): nat
  {
    |ConversationsOf(ps, u)|
  }

  /** The count is zero exactly when u has no participant row. */
  lemma CountZeroIffNoRow(ps: seq<Participant>, u: UserId)
    ensures CountUserConversations(ps, u) == 0 <==> forall p :: p in ps ==> p.1 != u
  {
    var cs := ConversationsOf(ps, u);
    if cs != [] {
      assert cs[0] in cs;
      assert (cs[0], u) in ps;
    } else {
      forall p | p in ps ensures p.1 != u {
        assert p.0 !in cs;
      }
    }
  }

  /** `SELECT id FROM conversations WHERE owner_id = u`. */
  function FindUserConversationIds(t: Tables, u: UserId): (cs: set<ConvId>)
    ensures forall c :: c in cs <==> c in t.conversations && t.conversations[c].ownerId == Some(u)
  {
    set c | c in t.conversations && t.conversations[c].ownerId == Some(u)
  }

  /** `DELETE FROM message_reads WHERE message_id IN (messages of c)`. */
  function DeleteMessageReadsByConversationId(t: Tables, c: ConvId): (t': Tables)
    ensures t' == t.(receipts := t'.receipts)
    ensures forall k :: k in t'.receipts <==> k in t.receipts && k.0 !in MessageIdsIn(t.messages, {c})
  {
    t.(receipts := ReceiptsWithout(t.receipts, MessageIdsIn(t.messages, {c})))
  }

  /** `DELETE FROM messages WHERE conversation_id = c`. */
  function DeleteMessagesByConversationId(t: Tables, c: ConvId): (t': Tables)
    ensures t' == t.(messages := t'.messages)
    ensures forall x :: x in t'.messages <==> x in t.messages && x.conversationId != c
  {
    t.(messages := MessagesOutside(t.messages, {c}))
  }

  /** `DELETE FROM message_reads WHERE user_id = u`. */
  function DeleteMessageReads(t: Tables, u: UserId): (t': Tables)
    ensures t' == t.(receipts := t'.receipts)
    ensures forall k :: k in t'.receipts <==> k in t.receipts && k.1 != u
  {
    t.(receipts := map k | k in t.receipts && k.1 != u :: t.receipts[k])
  }

  /** `DELETE FROM messages WHERE sender_id = u`. */
  function DeleteMessages(t: Tables, u: UserId): (t': Tables)
    ensures t' == t.(messages := t'.messages)
    ensures forall x :: x in t'.messages <==> x in t.messages && x.senderId != u
  {
    t.(messages := MessagesNotFrom(t.messages, u))
  }

  /** `DELETE FROM conversation_participants WHERE conversation_id = c`. */
  function DeleteConversationParticipantsByConversationId(t: Tables, c: ConvId): (t': Tables)
    ensures t' == t.(participants := t'.participants)
    ensures forall p :: p in t'.participants <==> p in t.participants && p.0 != c
  {
    t.(participants := ParticipantsOutside(t.participants, {c}))
  }

  /** `DELETE FROM conversation_participants WHERE user_id = u`. */
  function DeleteConversationParticipants(t: Tables, u: UserId): (t': Tables)
    ensures t' == t.(participants := t'.participants)
    ensures forall p :: p in t'.participants <==> p in t.participants && p.1 != u
  {
    t.(participants := ParticipantsNotOf(t.participants, u))
  }

  /** `DELETE FROM conversations WHERE id = c`. */
  function DeleteConversationById(t: Tables, c: ConvId): (t': Tables)
    ensures t' == t.(conversations := t'.conversations)
    ensures t'.conversations.Keys == t.conversations.Keys - {c}
  {
    t.(conversations := t.conversations - {c})
  }

  /** `DELETE FROM friendships WHERE user_id = u OR friend_id = u`. */
  function DeleteFriendships(t: Tables, u: UserId): (t': Tables)
    ensures t' == t.(friendships := t'.friendships)
    ensures forall f :: f in t'.friendships <==> f in t.friendships && f.0 != u && f.1 != u
  {
    t.(friendships := set f | f in t.friendships && f.0 != u && f.1 != u)
  }

  /** The four statements the cascade runs for one conversation c, in their order. */
  function DropConversation(t: Tables, c: ConvId): Tables
  {
    DeleteConversationById(
      DeleteConversationParticipantsByConversationId(
        DeleteMessagesByConversationId(
          DeleteMessageReadsByConversationId(t, c), c), c), c)
  }

  /** Every conversation of cs with its reads, messages and participant rows gone, at once. */
  function DropAll(t: Tables, cs: set<ConvId>): Tables
  {
    t.(receipts := ReceiptsWithout(t.receipts, MessageIdsIn(t.messages, cs)),
       messages := MessagesOutside(t.messages, cs),
       participants := ParticipantsOutside(t.participants, cs),
       conversations := map c | c in t.conversations && c !in cs :: t.conversations[c])
  }

  // ---------------------------------------------------------------------------
  // Properties

  lemma {:induction false} MessagesOutsideTwice(ms: seq<MessageRow>, cs: set<ConvId>, c: ConvId)
    ensures MessagesOutside(MessagesOutside(ms, cs), {c}) == MessagesOutside(ms, cs + {c})
  {
    if ms != [] {
      var x, tail := ms[0], ms[1..];
      MessagesOutsideTwice(tail, cs, c);
      if x.conversationId in cs {
        assert MessagesOutside(ms, cs) == MessagesOutside(tail, cs);
        assert MessagesOutside(ms, cs + {c}) == MessagesOutside(tail, cs + {c});
      } else {
        var l := [x] + MessagesOutside(tail, cs);
        assert MessagesOutside(ms, cs) == l;
        assert l[0] == x && l[1..] == MessagesOutside(tail, cs);
        assert MessagesOutside(l, {c}) == (if x.conversationId in {c} then [] else [x]) + MessagesOutside(l[1..], {c});
      }
    }
  }

  lemma {:induction false} ParticipantsOutsideTwice(ps: seq<Participant>, cs: set<ConvId>, c: ConvId)
    ensures ParticipantsOutside(ParticipantsOutside(ps, cs), {c}) == ParticipantsOutside(ps, cs + {c})
  {
    if ps != [] {
      var p, tail := ps[0], ps[1..];
      ParticipantsOutsideTwice(tail, cs, c);
      if p.0 in cs {
        assert ParticipantsOutside(ps, cs) == ParticipantsOutside(tail, cs);
        assert ParticipantsOutside(ps, cs + {c}) == ParticipantsOutside(tail, cs + {c});
      } else {
        var l := [p] + ParticipantsOutside(tail, cs);
        assert ParticipantsOutside(ps, cs) == l;
        assert l[0] == p && l[1..] == ParticipantsOutside(tail, cs);
        assert ParticipantsOutside(l, {c}) == (if p.0 in {c} then [] else [p]) + ParticipantsOutside(l[1..], {c});
      }
    }
  }

  /**
   * The loop over the owned conversations, one conversation at a time, ends
   * where dropping them all at once does, whatever the order the SELECT
   * returned them in.
   */
  lemma DropOneMore(t: Tables, cs: set<ConvId>, c: ConvId)
    requires c !in cs
    ensures DropConversation(DropAll(t, cs), c) == DropAll(t, cs + {c})
  {
    var d := DropAll(t, cs);
    var rhs := DropAll(t, cs + {c});
    var a1 := DeleteMessageReadsByConversationId(d, c);
    var a2 := DeleteMessagesByConversationId(a1, c);
    var a3 := DeleteConversationParticipantsByConversationId(a2, c);
    var a4 := DeleteConversationById(a3, c);
    MessageIdsStep(t.messages, cs, c);
    ReceiptsWithoutTwice(t.receipts, MessageIdsIn(t.messages, cs), MessageIdsIn(d.messages, {c}));
    assert a4.receipts == rhs.receipts;
    MessagesOutsideTwice(t.messages, cs, c);
    assert a4.messages == rhs.messages;
    ParticipantsOutsideTwice(t.participants, cs, c);
    assert a4.participants == rhs.participants;
    ConversationsStep(t.conversations, cs, c);
    assert a4.conversations == rhs.conversations;
  }

  lemma MessageIdsStep(ms: seq<MessageRow>, cs: set<ConvId>, c: ConvId)
    requires c !in cs
    ensures MessageIdsIn(ms, cs) + MessageIdsIn(MessagesOutside(ms, cs), {c}) == MessageIdsIn(ms, cs + {c})
  {
    var l := MessageIdsIn(ms, cs) + MessageIdsIn(MessagesOutside(ms, cs), {c});
    var r := MessageIdsIn(ms, cs + {c});
    forall i | i in r ensures i in l {
      var x :| x in ms && x.conversationId in cs + {c} && x.id == i;
      if x.conversationId in cs {
        assert i in MessageIdsIn(ms, cs);
      } else {
        assert x in MessagesOutside(ms, cs);
        assert i in MessageIdsIn(MessagesOutside(ms, cs), {c});
      }
    }
    forall i | i in l ensures i in r {
      if i in MessageIdsIn(ms, cs) {
        var x :| x in ms && x.conversationId in cs && x.id == i;
        assert x.conversationId in cs + {c};
      } else {
        var x :| x in MessagesOutside(ms, cs) && x.conversationId in {c} && x.id == i;
        assert x in ms && x.conversationId in cs + {c};
      }
    }
  }

  lemma ReceiptsWithoutTwice(receipts: map<(MsgId, UserId), Time>, a: set<MsgId>, b: set<MsgId>)
    ensures ReceiptsWithout(ReceiptsWithout(receipts, a), b) == ReceiptsWithout(receipts, a + b)
  {
    var l := ReceiptsWithout(ReceiptsWithout(receipts, a), b);
    var r := ReceiptsWithout(receipts, a + b);
    assert l.Keys == r.Keys;
  }

  lemma ConversationsStep(m: map<ConvId, ConversationRow>, cs: set<ConvId>, c: ConvId)
    ensures (map k | k in m && k !in cs :: m[k]) - {c} == map k | k in m && k !in cs + {c} :: m[k]
  {
    var l := (map k | k in m && k !in cs :: m[k]) - {c};
    var r := map k | k in m && k !in cs + {c} :: m[k];
    assert l.Keys == r.Keys;
  }

  lemma DropNone(t: Tables)
    ensures DropAll(t, {}) == t
  {
    var d := DropAll(t, {});
    assert d.receipts == t.receipts by {
      assert MessageIdsIn(t.messages, {}) == {};
    }
    MessagesOutsideNone(t.messages);
    ParticipantsOutsideNone(t.participants);
    assert d.conversations == t.conversations;
  }

  lemma {:induction false} MessagesOutsideNone(ms: seq<MessageRow>)
    ensures MessagesOutside(ms, {}) == ms
  {
    if ms != [] {
      MessagesOutsideNone(ms[1..]);
      assert ms == [ms[0]] + ms[1..];
    }
  }

  lemma {:induction false} ParticipantsOutsideNone(ps: seq<Participant>)
    ensures ParticipantsOutside(ps, {}) == ps
  {
    if ps != [] {
      ParticipantsOutsideNone(ps[1..]);
      assert ps == [ps[0]] + ps[1..];
    }
  }

  /** In a table with increasing ids, every row after the first has a larger id. */
  lemma HeadSmallest(ms: seq<MessageRow>, x: MessageRow)
    requires IdsIncreasing(ms) && ms != [] && x in ms[1..]
    ensures ms[0].id < x.id
  {
    var k :| 0 <= k < |ms[1..]| && ms[1..][k] == x;
    assert ms[k + 1] == x;
  }

  lemma ConsIncreasing(x: MessageRow, rest: seq<MessageRow>)
    requires IdsIncreasing(rest)
    requires forall y :: y in rest ==> x.id < y.id
    ensures IdsIncreasing([x] + rest)
  {
    var r := [x] + rest;
    forall i, j | 0 <= i < j < |r| ensures r[i].id < r[j].id {
      assert r[j] == rest[j - 1];
      if i > 0 {
        assert r[i] == rest[i - 1];
      }
    }
  }

  /** Removing rows keeps message ids in insertion order. */
  lemma {:induction false} MessagesOutsideIncreasing(ms: seq<MessageRow>, cs: set<ConvId>)
    requires IdsIncreasing(ms)
    ensures IdsIncreasing(MessagesOutside(ms, cs))
  {
    if ms != [] {
      var tail := ms[1..];
      assert IdsIncreasing(tail);
      MessagesOutsideIncreasing(tail, cs);
      if ms[0].conversationId !in cs {
        var rest := MessagesOutside(tail, cs);
        forall y | y in rest ensures ms[0].id < y.id {
          HeadSmallest(ms, y);
        }
        ConsIncreasing(ms[0], rest);
      }
    }
  }

  lemma {:induction false} MessagesNotFromIncreasing(ms: seq<MessageRow>, u: UserId)
    requires IdsIncreasing(ms)
    ensures IdsIncreasing(MessagesNotFrom(ms, u))
  {
    if ms != [] {
      var tail := ms[1..];
      assert IdsIncreasing(tail);
      MessagesNotFromIncreasing(tail, u);
      if ms[0].senderId != u {
        var rest := MessagesNotFrom(tail, u);
        forall y | y in rest ensures ms[0].id < y.id {
          HeadSmallest(ms, y);
        }
        ConsIncreasing(ms[0], rest);
      }
    }
  }

  lemma {:induction false} ParticipantsOutsideNoDuplicates(ps: seq<Participant>, cs: set<ConvId>)
    requires NoDuplicates(ps)
    ensures NoDuplicates(ParticipantsOutside(ps, cs))
  {
    if ps != [] {
      ParticipantsOutsideNoDuplicates(ps[1..], cs);
      assert ps[0] !in ps[1..];
    }
  }

  lemma {:induction false} ParticipantsNotOfNoDuplicates(ps: seq<Participant>, u: UserId)
    requires NoDuplicates(ps)
    ensures NoDuplicates(ParticipantsNotOf(ps, u))
  {
    if ps != [] {
      ParticipantsNotOfNoDuplicates(ps[1..], u);
      assert ps[0] !in ps[1..];
    }
  }

  /**
   * The dependency order of the cascade pays off: once the reads, messages
   * and participant rows of a set of conversations are gone with them, the
   * store's own guarantees hold again.
   */
  lemma DropAllConsistent(t: Tables, cs: set<ConvId>)
    requires Consistent(t)
    ensures Consistent(DropAll(t, cs))
  {
    var d := DropAll(t, cs);
    MessagesOutsideIncreasing(t.messages, cs);
    ParticipantsOutsideNoDuplicates(t.participants, cs);
    forall i | 0 <= i < |d.messages|
      ensures d.messages[i].id < d.nextMsgId && d.messages[i].conversationId in d.conversations
    {
      assert d.messages[i] in t.messages;
    }
    forall i | 0 <= i < |d.participants| ensures d.participants[i].0 in d.conversations {
      assert d.participants[i] in t.participants;
    }
  }

  /** Deleting a user's messages keeps the store consistent. */
  lemma DeleteMessagesConsistent(t: Tables, u: UserId)
    requires Consistent(t)
    ensures Consistent(DeleteMessages(t, u))
  {
    var d := DeleteMessages(t, u);
    MessagesNotFromIncreasing(t.messages, u);
    forall i | 0 <= i < |d.messages|
      ensures d.messages[i].id < d.nextMsgId && d.messages[i].conversationId in d.conversations
    {
      assert d.messages[i] in t.messages;
    }
  }

  /** Deleting a user's participant rows keeps the store consistent. */
  lemma DeleteConversationParticipantsConsistent(t: Tables, u: UserId)
    requires Consistent(t)
    ensures Consistent(DeleteConversationParticipants(t, u))
  {
    var d := DeleteConversationParticipants(t, u);
    ParticipantsNotOfNoDuplicates(t.participants, u);
    forall i | 0 <= i < |d.participants| ensures d.participants[i].0 in d.conversations {
      assert d.participants[i] in t.participants;
    }
  }
}
