/**
 * The real-time gateway: the socket event handlers of the chat server.
 * Each socket is unauthenticated until `authenticate` succeeds; it then
 * sits in its private room `user_<id>`. `send_message` checks membership,
 * stores the message and fans events out to the private rooms of the
 * conversation's participants; `join_room`, `leave_room` and
 * `group_created` manage rooms and notify members.
 *
 * Each handler runs as one atomic step. What it emits is appended to an
 * outbox of (destination, event) pairs; `Recipients` says which sockets a
 * destination reaches. Token verification is passed in as its outcome,
 * and the clock as `now`.
 */
module Gateway {
  import opened Common
  import opened Strings
  import opened Store
  import MessageModel
  import UserStatus

  type SocketId = int

  /** `socket.user`: set by a successful `authenticate`. */
  datatype SocketUser = SocketUser(id: UserId, username: string)

  datatype Session = Session(user: Option<SocketUser>, rooms: set<string>, connected: bool)

  datatype Event =
    | Authenticated(success: bool, error: string)
    | UserStatusChanged(userId: UserId, status: string)
    | ReceiveMessage(conversationId: ConvId)
    | ConversationUpdated(conversationId: ConvId, content: string, kind: string, sender: string, createdAt: Time)
    | MessageError(error: string)
    | NewConversation(newConversationId: JsValue)

  datatype Dest =
    | ToSocket(socket: SocketId)        // socket.emit
    | ToRoom(room: string)              // io.to(room).emit
    | ToAllBut(except: SocketId)        // socket.broadcast.emit

  /** The private room of user u: `user_${u}`. */
  function PrivateRoom(u: UserId): (r: string)
    ensures |r| > 5 && r[..5] == "user_"
  {
    "user_" + IntToString(u)
  }

  /** Two users never share a private room. */
  lemma PrivateRoomInjective(a: UserId, b: UserId)
    requires PrivateRoom(a) == PrivateRoom(b)
    ensures a == b
  {
    assert PrivateRoom(a)[5..] == IntToString(a);
    assert PrivateRoom(b)[5..] == IntToString(b);
    IntToStringInjective(a, b);
  }

  /** `String(v)`, as a template literal or `toString` renders it. */
  function JsToString(v: JsValue): string
  {
    match v
    case JsUndefined => "undefined"
    case JsNull => "null"
    case JsBool(b) => if b then "true" else "false"
    case JsNumber(n) => IntToString(n)
    case JsNaN => "NaN"
    case JsString(s) => s
  }

  /** The connected sockets an emit to d reaches. */
  function Recipients(sessions: map<SocketId, Session>, d: Dest): (r: set<SocketId>)
    ensures forall x :: x in r <==> x in sessions && sessions[x].connected && match d
      case ToSocket(y) => x == y
      case ToRoom(room) => room in sessions[x].rooms
      case ToAllBut(y) => x != y
  {
    set x | x in sessions && sessions[x].connected && match d
      case ToSocket(y) => x == y
      case ToRoom(room) => room in sessions[x].rooms
      case ToAllBut(y) => x != y
  }

  /** One emit of e to the private room of each user of us, in order. */
  function FanOut(us: seq<UserId>, e: Event): (r: seq<(Dest, Event)>)
    ensures |r| == |us|
  {
    if us == [] then [] else [(ToRoom(PrivateRoom(us[0])), e)] + FanOut(us[1..], e)
  }

  /** How many entries of out are (d, e). */
  function Count(out: seq<(Dest, Event)>, d: Dest, e: Event): (n: nat)
    ensures n <= |out|
    ensures n == 0 <==> (d, e) !in out
  {
    if out == [] then 0 else (if out[0] == (d, e) then 1 else 0) + Count(out[1..], d, e)
  }

  lemma {:induction false} CountAppend(a: seq<(Dest, Event)>, b: seq<(Dest, Event)>, d: Dest, e: Event)
    ensures Count(a + b, d, e) == Count(a, d, e) + Count(b, d, e)
  {
    if a == [] {
      assert a + b == b;
    } else {
      assert (a + b)[0] == a[0];
      assert (a + b)[1..] == a[1..] + b;
      CountAppend(a[1..], b, d, e);
    }
  }

  /**
   * A fan-out to distinct users gives the private room of each of them
   * exactly one copy of the event, and no other private room any.
   */
  lemma {:induction false} FanOutOncePerMember(us: seq<UserId>, e: Event, p: UserId)
    requires NoDuplicates(us)
    ensures Count(FanOut(us, e), ToRoom(PrivateRoom(p)), e) == (if p in us then 1 else 0)
  {
    if us != [] {
      assert NoDuplicates(us[1..]);
      FanOutOncePerMember(us[1..], e, p);
      assert FanOut(us, e)[1..] == FanOut(us[1..], e);
      if PrivateRoom(us[0]) == PrivateRoom(p) {
        PrivateRoomInjective(us[0], p);
        assert us[0] !in us[1..];
      }
    }
  }

  lemma {:induction false} FanOutAppend(us: seq<UserId>, u: UserId, e: Event)
    ensures FanOut(us + [u], e) == FanOut(us, e) + [(ToRoom(PrivateRoom(u)), e)]
  {
    if us != [] {
      assert (us + [u])[1..] == us[1..] + [u];
      FanOutAppend(us[1..], u, e);
    }
  }

  /** One more user of us fanned out. */
  lemma FanOutStep(us: seq<UserId>, i: nat, e: Event)
    requires i < |us|
    ensures FanOut(us[..i + 1], e) == FanOut(us[..i], e) + [(ToRoom(PrivateRoom(us[i])), e)]
  {
    assert us[..i + 1] == us[..i] + [us[i]];
    FanOutAppend(us[..i], us[i], e);
  }

  /** The session after `join_room(v)`: a truthy v joins the room String(v). */
  function AfterJoin(sess: Session, v: JsValue): (r: Session)
    ensures r.user == sess.user && r.connected == sess.connected
    ensures Truthy(v) ==> r.rooms == sess.rooms + {JsToString(v)}
    ensures !Truthy(v) ==> r == sess
  {
    if Truthy(v) then sess.(rooms := sess.rooms + {JsToString(v)}) else sess
  }

  /** The session after `leave_room(v)`: rooms are keyed by string, so only a string leaves one. */
  function AfterLeave(sess: Session, v: JsValue): (r: Session)
    ensures r.user == sess.user && r.connected == sess.connected
    ensures v.JsString? ==> r.rooms == sess.rooms - {v.s}
    ensures !v.JsString? ==> r == sess
  {
    if v.JsString? then sess.(rooms := sess.rooms - {v.s}) else sess
  }

  /**
   * As written, join_room lets any socket, authenticated or not, join the
   * private room of any user and so receive that user's messages.
   */
  lemma JoinRoomReachesPrivateRoom(sessions: map<SocketId, Session>, s: SocketId, victim: UserId)
    requires s in sessions && sessions[s].connected
    ensures var sessions' := sessions[s := AfterJoin(sessions[s], JsString(PrivateRoom(victim)))];
      s in Recipients(sessions', ToRoom(PrivateRoom(victim)))
  {
  }

  /**
   * join_room as evidently intended: only an authenticated socket joins,
   * and only the room of a conversation its user takes part in.
   */
  function AfterJoinChecked(sess: Session, v: JsValue, participants: seq<Participant>): (r: Session)
    ensures r.user == sess.user && r.connected == sess.connected
    ensures r.rooms == sess.rooms || (sess.user.Some? && v.JsNumber?
                                      && (v.n, sess.user.value.id) in participants
                                      && r.rooms == sess.rooms + {IntToString(v.n)})
  {
    if sess.user.Some? && v.JsNumber? && (v.n, sess.user.value.id) in participants
    then sess.(rooms := sess.rooms + {IntToString(v.n)})
    else sess
  }

  /** With the checked join, no socket enters a private room it was not already in. */
  lemma JoinCheckedKeepsPrivateRooms(sess: Session, v: JsValue, participants: seq<Participant>, victim: UserId)
    ensures PrivateRoom(victim) in AfterJoinChecked(sess, v, participants).rooms ==> PrivateRoom(victim) in sess.rooms
  {
    if v.JsNumber? {
      var name := IntToString(v.n);
      assert name[0] == '-' || IsDigit(name[0]);
      assert PrivateRoom(victim)[0] == 'u';
      assert name != PrivateRoom(victim);
    }
  }

  /** What `group_created` emits: new_conversation to each listed id other than the sender's. */
  function GroupNotices(ps: seq<JsValue>, me: UserId, c: JsValue): (r: seq<(Dest, Event)>)
    ensures |r| <= |ps|
  {
    if ps == [] then []
    else
      (if ps[0] != JsNumber(me) then [(ToRoom("user_" + JsToString(ps[0])), NewConversation(c))] else [])
      + GroupNotices(ps[1..], me, c)
  }

  /** The creator's own numeric id never reaches the creator's private room. */
  lemma GroupNoticesSkipSender(ps: seq<JsValue>, me: UserId, c: JsValue)
    requires forall i :: 0 <= i < |ps| ==> ps[i].JsNumber?
    ensures (ToRoom(PrivateRoom(me)), NewConversation(c)) !in GroupNotices(ps, me, c)
  {
    forall i | 0 <= i < |ps| && ps[i] != JsNumber(me)
      ensures (ToRoom("user_" + JsToString(ps[i])), NewConversation(c)) != (ToRoom(PrivateRoom(me)), NewConversation(c))
    {
      if PrivateRoom(ps[i].n) == PrivateRoom(me) {
        PrivateRoomInjective(ps[i].n, me);
      }
    }
    GroupNoticesMembers(ps, me, c, (ToRoom(PrivateRoom(me)), NewConversation(c)));
  }

  /** The notices are exactly one per listed id other than the sender's number. */
  lemma {:induction false} GroupNoticesMembers(ps: seq<JsValue>, me: UserId, c: JsValue, x: (Dest, Event))
    ensures x in GroupNotices(ps, me, c) <==>
      exists i :: 0 <= i < |ps| && ps[i] != JsNumber(me) && x == (ToRoom("user_" + JsToString(ps[i])), NewConversation(c))
  {
    if ps != [] {
      GroupNoticesMembers(ps[1..], me, c, x);
      if exists i :: 0 <= i < |ps| && ps[i] != JsNumber(me) && x == (ToRoom("user_" + JsToString(ps[i])), NewConversation(c)) {
        var i :| 0 <= i < |ps| && ps[i] != JsNumber(me) && x == (ToRoom("user_" + JsToString(ps[i])), NewConversation(c));
        if i > 0 {
          assert ps[1..][i - 1] == ps[i];
        }
      }
      if exists i :: 0 <= i < |ps[1..]| && ps[1..][i] != JsNumber(me) && x == (ToRoom("user_" + JsToString(ps[1..][i])), NewConversation(c)) {
        var i :| 0 <= i < |ps[1..]| && ps[1..][i] != JsNumber(me) && x == (ToRoom("user_" + JsToString(ps[1..][i])), NewConversation(c));
        assert ps[i + 1] == ps[1..][i];
      }
    }
  }

  /** The tables after send_message stored a message from sender in c. */
  function Stored(t: Tables, c: ConvId, sender: UserId, content: string, kind: string, now: Time): (t': Tables)
    requires c in t.conversations
    ensures t'.messages == t.messages + [MessageRow(t.nextMsgId, c, sender, content, kind, false, now)]
    ensures c in t'.conversations && t'.conversations[c].updatedAt == now
  {
    t.(messages := t.messages + [MessageRow(t.nextMsgId, c, sender, content, kind, false, now)],
       conversations := t.conversations[c := t.conversations[c].(updatedAt := now)],
       nextMsgId := t.nextMsgId + 1)
  }

  /**
   * The effect of send_message from a participant: with a failed create,
   * one message_error and no stored message; otherwise the stored message,
   * receive_message to every member's private room, then
   * conversation_updated to the same rooms (or one message_error when the
   * refresh of updated_at fails).
   */
  ghost predicate SentAsMember(t: Tables, t': Tables, out: seq<(Dest, Event)>, out': seq<(Dest, Event)>,
                               s: SocketId, c: ConvId, sender: SocketUser, content: string, kind: string,
                               now: Time, createFails: bool, touchFails: bool)
  {
    if createFails then
      t' == t.(nextMsgId := t'.nextMsgId)
      && |out'| == |out| + 1 && out'[..|out|] == out && out'[|out|].0 == ToSocket(s) && out'[|out|].1.MessageError?
    else
      var members := MembersOf(t.participants, c);
      c in t.conversations
      && t' == Stored(t, c, sender.id, content, kind, now)
      && out' == out + FanOut(members, ReceiveMessage(c))
                 + (if touchFails then [(ToSocket(s), MessageError("store failure"))]
                    else FanOut(members, ConversationUpdated(c, content, kind, sender.username, now)))
  }

  class Server {
    const db: Db
    var sessions: map<SocketId, Session>
    var outbox: seq<(Dest, Event)>

    ghost predicate Valid()
      reads this, db
    {
      db.Valid()
    }

    constructor (db: Db)
      ensures this.db == db && sessions == map[] && outbox == []
    {
      this.db := db;
      sessions := map[];
      outbox := [];
    }

    /** A new connection: unauthenticated and in no room. */
    method Connect(s: SocketId)
      requires s !in sessions
      modifies this
      ensures sessions == old(sessions)[s := Session(None, {}, true)] && outbox == old(outbox)
    {
      sessions := sessions[s := Session(None, {}, true)];
    }

    /** `socket.emit('authenticated', {success: false, ...})`, then `socket.disconnect()`. */
    method Reject(s: SocketId, error: string)
      requires s in sessions
      modifies this
      ensures sessions == old(sessions)[s := old(sessions)[s].(rooms := {}, connected := false)]
      ensures outbox == old(outbox) + [(ToSocket(s), Authenticated(false, error))]
    {
      outbox := outbox + [(ToSocket(s), Authenticated(false, error))];
      sessions := sessions[s := sessions[s].(rooms := {}, connected := false)];
    }

    /**
     * `authenticate(token)`. `decoded` is what jwt.verify gave: the user id
     * from the token, or the verification error. On success the socket
     * records the user, joins `user_<id>` and is told so; then the user is
     * set online and every other socket hears of it. A failure of the
     * online update is reported like a failed authentication, and the user
     * stays recorded on the (now closed) socket.
     */
    method Authenticate(s: SocketId, decoded: Result<UserId>, now: Time, setOnlineFails: bool)
      requires Valid() && s in sessions
      modifies this, db
      ensures Valid()
      ensures !old(sessions[s].connected) ==> sessions == old(sessions) && outbox == old(outbox) && db.State() == old(db.State())
      ensures old(sessions[s].connected) && decoded.Err? ==>
        sessions == old(sessions)[s := old(sessions)[s].(rooms := {}, connected := false)]
        && outbox == old(outbox) + [(ToSocket(s), Authenticated(false, decoded.error))]
        && db.State() == old(db.State())
      ensures old(sessions[s].connected) && decoded.Ok? && decoded.value !in old(db.users) ==>
        sessions == old(sessions)[s := old(sessions)[s].(rooms := {}, connected := false)]
        && outbox == old(outbox) + [(ToSocket(s), Authenticated(false, "用户不存在"))]
        && db.State() == old(db.State())
      ensures old(sessions[s].connected) && decoded.Ok? && decoded.value in old(db.users) && !setOnlineFails ==>
        var u := decoded.value;
        sessions == old(sessions)[s := Session(Some(SocketUser(u, old(db.users)[u].username)),
                                                old(sessions)[s].rooms + {PrivateRoom(u)}, true)]
        && outbox == old(outbox) + [(ToSocket(s), Authenticated(true, "")), (ToAllBut(s), UserStatusChanged(u, "online"))]
        && db.State() == old(db.State()).(users := UserStatus.WithPresence(old(db.users), u, 1, now))
      ensures old(sessions[s].connected) && decoded.Ok? && decoded.value in old(db.users) && setOnlineFails ==>
        var u := decoded.value;
        sessions == old(sessions)[s := Session(Some(SocketUser(u, old(db.users)[u].username)), {}, false)]
        && outbox == old(outbox) + [(ToSocket(s), Authenticated(true, "")), (ToSocket(s), Authenticated(false, "store failure"))]
        && db.State() == old(db.State())
    {
      if !sessions[s].connected {
        return;
      }
      if decoded.Err? {
        Reject(s, decoded.error);
        return;
      }
      var u := decoded.value;
      if u !in db.users {
        Reject(s, "用户不存在");
        return;
      }
      var user := SocketUser(u, db.users[u].username);
      sessions := sessions[s := sessions[s].(user := Some(user), rooms := sessions[s].rooms + {PrivateRoom(u)})];
      outbox := outbox + [(ToSocket(s), Authenticated(true, ""))];
      if setOnlineFails {
        Reject(s, "store failure");
        return;
      }
      UserStatus.SetOnline(db, u, now);
      outbox := outbox + [(ToAllBut(s), UserStatusChanged(u, "online"))];
    }

    /** Emits e to the private room of each user of us, in order (the `forEach` over participants). */
    method EmitToEach(us: seq<UserId>, e: Event)
      modifies this
      ensures outbox == old(outbox) + FanOut(us, e)
      ensures sessions == old(sessions)
    {
      var sent := FanOutLoop(us, e);
      outbox := outbox + sent;
    }

    /**
     * `send_message({conversationId, content, type})`. An unauthenticated
     * socket or a sender outside the conversation gets message_error and
     * nothing is stored or sent; otherwise see SendAsMember.
     */
    method SendMessage(s: SocketId, c: ConvId, content: string, kind: Option<string>, now: Time,
                       insertFails: bool, updateFails: bool, touchFails: bool)
      requires Valid() && s in sessions
      modifies this, db
      ensures Valid()
      ensures sessions == old(sessions)
      ensures !old(sessions[s].connected) ==> outbox == old(outbox) && db.State() == old(db.State())
      ensures old(sessions[s].connected) && old(sessions[s].user).None? ==>
        outbox == old(outbox) + [(ToSocket(s), MessageError("未认证的用户"))] && db.State() == old(db.State())
      ensures old(sessions[s].connected) && old(sessions[s].user).Some?
              && (c, old(sessions[s].user).value.id) !in old(db.participants) ==>
        outbox == old(outbox) + [(ToSocket(s), MessageError("不是会话成员"))] && db.State() == old(db.State())
      ensures old(sessions[s].connected) && old(sessions[s].user).Some?
              && (c, old(sessions[s].user).value.id) in old(db.participants) ==>
        SentAsMember(old(db.State()), db.State(), old(outbox), outbox, s, c, old(sessions[s].user).value,
                     content, MessageModel.KindOrText(kind), now, insertFails || updateFails, touchFails)
    {
      if !sessions[s].connected {
        return;
      }
      if sessions[s].user.None? {
        outbox := outbox + [(ToSocket(s), MessageError("未认证的用户"))];
        return;
      }
      var user := sessions[s].user.value;
      if (c, user.id) !in db.participants {
        outbox := outbox + [(ToSocket(s), MessageError("不是会话成员"))];
        return;
      }
      SendAsMember(s, c, user, content, kind, now, insertFails, updateFails, touchFails);
    }

    /**
     * send_message from a participant: the message is created (a failure
     * there is reported as message_error and nothing is sent); every
     * participant's private room gets receive_message; updated_at is
     * refreshed; every participant's private room gets
     * conversation_updated, or the sender gets message_error when the
     * refresh fails (`touchFails`).
     */
    method SendAsMember(s: SocketId, c: ConvId, user: SocketUser, content: string, kind: Option<string>, now: Time,
                        insertFails: bool, updateFails: bool, touchFails: bool)
      requires Valid() && (c, user.id) in db.participants
      modifies this, db
      ensures Valid()
      ensures sessions == old(sessions)
      ensures SentAsMember(old(db.State()), db.State(), old(outbox), outbox, s, c, user,
                           content, MessageModel.KindOrText(kind), now, insertFails || updateFails, touchFails)
    {
      assert c in db.conversations by {
        var i :| 0 <= i < |db.participants| && db.participants[i] == (c, user.id);
      }
      var created := MessageModel.Create(db, c, user.id, content, kind, now, insertFails, updateFails);
      if created.Err? {
        outbox := outbox + [(ToSocket(s), MessageError(created.error))];
        return;
      }
      assert db.conversations[c].updatedAt == now;
      Deliver(s, c, user, content, MessageModel.KindOrText(kind), now, touchFails);
    }

    /**
     * The part of send_message after the message is stored: receive_message
     * to every participant's private room, the refresh of updated_at, then
     * conversation_updated to the same rooms, or message_error when the
     * refresh fails.
     */
    method Deliver(s: SocketId, c: ConvId, sender: SocketUser, content: string, kind: string, now: Time,
                   touchFails: bool)
      requires Valid() && c in db.conversations
      modifies this, db
      ensures Valid()
      ensures sessions == old(sessions)
      ensures touchFails ==> db.State() == old(db.State())
      ensures !touchFails ==> db.State() == old(db.State()).(
        conversations := old(db.conversations)[c := old(db.conversations)[c].(updatedAt := now)])
      ensures outbox == old(outbox) + FanOut(MembersOf(old(db.participants), c), ReceiveMessage(c))
        + (if touchFails then [(ToSocket(s), MessageError("store failure"))]
           else FanOut(MembersOf(old(db.participants), c), ConversationUpdated(c, content, kind, sender.username, now)))
    {
      var members := MembersOf(db.participants, c);
      EmitToEach(members, ReceiveMessage(c));
      if touchFails {
        outbox := outbox + [(ToSocket(s), MessageError("store failure"))];
        return;
      }
      // UPDATE conversations SET updated_at = CURRENT_TIMESTAMP
      db.conversations := db.conversations[c := db.conversations[c].(updatedAt := now)];
      EmitToEach(members, ConversationUpdated(c, content, kind, sender.username, now));
    }

    /**
     * `join_room(v)`: a truthy v joins room String(v). The handler then
     * reads `socket.user.id`, which throws on an unauthenticated socket
     * after the join has happened (`threw`).
     */
    method JoinRoom(s: SocketId, v: JsValue) returns (threw: bool)
      requires s in sessions
      modifies this
      ensures outbox == old(outbox)
      ensures old(sessions[s].connected) ==> sessions == old(sessions)[s := AfterJoin(old(sessions[s]), v)]
      ensures !old(sessions[s].connected) ==> sessions == old(sessions)
      ensures threw <==> old(sessions[s].connected) && Truthy(v) && old(sessions[s].user).None?
    {
      threw := false;
      if sessions[s].connected {
        sessions := sessions[s := AfterJoin(sessions[s], v)];
        threw := Truthy(v) && sessions[s].user.None?;
      }
    }

    /** join_room as evidently intended; see AfterJoinChecked. */
    method JoinRoomChecked(s: SocketId, v: JsValue)
      requires s in sessions
      modifies this
      ensures outbox == old(outbox)
      ensures old(sessions[s].connected) ==>
        sessions == old(sessions)[s := AfterJoinChecked(old(sessions[s]), v, db.participants)]
      ensures !old(sessions[s].connected) ==> sessions == old(sessions)
    {
      if sessions[s].connected {
        sessions := sessions[s := AfterJoinChecked(sessions[s], v, db.participants)];
      }
    }

    /** `leave_room(v)`: leaves the room v, then throws like join_room on an unauthenticated socket. */
    method LeaveRoom(s: SocketId, v: JsValue) returns (threw: bool)
      requires s in sessions
      modifies this
      ensures outbox == old(outbox)
      ensures old(sessions[s].connected) ==> sessions == old(sessions)[s := AfterLeave(old(sessions[s]), v)]
      ensures !old(sessions[s].connected) ==> sessions == old(sessions)
      ensures threw <==> old(sessions[s].connected) && old(sessions[s].user).None?
    {
      threw := false;
      if sessions[s].connected {
        sessions := sessions[s := AfterLeave(sessions[s], v)];
        threw := sessions[s].user.None?;
      }
    }

    /**
     * `group_created({conversationId, participants})`: new_conversation to
     * `user_<p>` for each listed p that is not strictly equal to the
     * sender's id. A missing list, or an unauthenticated socket with a
     * non-empty list, throws inside the try block and emits nothing.
     */
    method GroupCreated(s: SocketId, c: JsValue, participants: Option<seq<JsValue>>)
      requires s in sessions
      modifies this
      ensures sessions == old(sessions)
      ensures old(sessions[s].connected) && participants.Some? && old(sessions[s].user).Some? ==>
        outbox == old(outbox) + GroupNotices(participants.value, old(sessions[s].user).value.id, c)
      ensures !(old(sessions[s].connected) && participants.Some? && old(sessions[s].user).Some?) ==>
        outbox == old(outbox)
    {
      if !sessions[s].connected || participants.None? || sessions[s].user.None? {
        return;
      }
      var sent := GroupNoticesLoop(participants.value, sessions[s].user.value.id, c);
      outbox := outbox + sent;
    }
  }

  /** The `forEach` that emits e to `user_<u>` for each u of us. */
  method FanOutLoop(us: seq<UserId>, e: Event) returns (sent: seq<(Dest, Event)>)
    ensures sent == FanOut(us, e)
  {
    sent := [];
    var i := 0;
    while i < |us|
      invariant 0 <= i <= |us|
      invariant sent == FanOut(us[..i], e)
    {
      FanOutStep(us, i, e);
      sent := sent + [(ToRoom(PrivateRoom(us[i])), e)];
      i := i + 1;
    }
    assert us[..|us|] == us;
  }

  /** The `forEach` of group_created over the listed ids. */
  method GroupNoticesLoop(ps: seq<JsValue>, me: UserId, c: JsValue) returns (sent: seq<(Dest, Event)>)
    ensures sent == GroupNotices(ps, me, c)
  {
    sent := [];
    var i := 0;
    while i < |ps|
      invariant 0 <= i <= |ps|
      invariant sent == GroupNotices(ps[..i], me, c)
    {
      GroupNoticesStep(ps, i, me, c);
      if ps[i] != JsNumber(me) {
        sent := sent + [(ToRoom("user_" + JsToString(ps[i])), NewConversation(c))];
      }
      i := i + 1;
    }
    assert ps[..|ps|] == ps;
  }

  /** One more listed id notified. */
  lemma GroupNoticesStep(ps: seq<JsValue>, i: nat, me: UserId, c: JsValue)
    requires i < |ps|
    ensures GroupNotices(ps[..i + 1], me, c)
         == GroupNotices(ps[..i], me, c)
            + (if ps[i] != JsNumber(me) then [(ToRoom("user_" + JsToString(ps[i])), NewConversation(c))] else [])
  {
    assert ps[..i + 1] == ps[..i] + [ps[i]];
    GroupNoticesAppend(ps[..i], ps[i], me, c);
  }

  lemma {:induction false} GroupNoticesAppend(ps: seq<JsValue>, p: JsValue, me: UserId, c: JsValue)
    ensures GroupNotices(ps + [p], me, c)
         == GroupNotices(ps, me, c) + (if p != JsNumber(me) then [(ToRoom("user_" + JsToString(p)), NewConversation(c))] else [])
  {
    if ps != [] {
      assert (ps + [p])[1..] == ps[1..] + [p];
      GroupNoticesAppend(ps[1..], p, me, c);
    }
  }

  /**
   * After a successful send, each participant's private room holds exactly
   * one receive_message for the conversation, and every receive_message
   * comes before every conversation_updated.
   */
  lemma SendFanOut(members: seq<UserId>, c: ConvId, upd: Event, p: UserId)
    requires NoDuplicates(members) && upd.ConversationUpdated?
    ensures var out := FanOut(members, ReceiveMessage(c)) + FanOut(members, upd);
      Count(out, ToRoom(PrivateRoom(p)), ReceiveMessage(c)) == (if p in members then 1 else 0)
      && Count(out, ToRoom(PrivateRoom(p)), upd) == (if p in members then 1 else 0)
  {
    var d := ToRoom(PrivateRoom(p));
    var a := FanOut(members, ReceiveMessage(c));
    var b := FanOut(members, upd);
    CountAppend(a, b, d, ReceiveMessage(c));
    CountAppend(a, b, d, upd);
    FanOutOncePerMember(members, ReceiveMessage(c), p);
    FanOutOncePerMember(members, upd, p);
    FanOutOnly(members, upd, (d, ReceiveMessage(c)));
    FanOutOnly(members, ReceiveMessage(c), (d, upd));
  }

  lemma {:induction false} FanOutOnly(us: seq<UserId>, e: Event, x: (Dest, Event))
    requires x.1 != e
    ensures x !in FanOut(us, e)
  {
    if us != [] {
      FanOutOnly(us[1..], e, x);
    }
  }

  lemma {:induction false} FanOutCarries(us: seq<UserId>, e: Event, i: nat)
    requires i < |us|
    ensures FanOut(us, e)[i] == (ToRoom(PrivateRoom(us[i])), e)
  {
    if i > 0 {
      FanOutCarries(us[1..], e, i - 1);
      FanOutTail(us, e, i);
    }
  }

  lemma FanOutTail(us: seq<UserId>, e: Event, i: nat)
    requires 0 < i < |us|
    ensures FanOut(us, e)[i] == FanOut(us[1..], e)[i - 1] && us[1..][i - 1] == us[i]
  {
  }

  /** In a send, every receive_message is emitted before every conversation_updated. */
  lemma SendOrder(members: seq<UserId>, c: ConvId, upd: Event, i: nat, j: nat)
    requires upd.ConversationUpdated?
    requires i < j < 2 * |members|
    ensures var out := FanOut(members, ReceiveMessage(c)) + FanOut(members, upd);
      !(out[i].1 == upd && out[j].1 == ReceiveMessage(c))
  {
    var a := FanOut(members, ReceiveMessage(c));
    var b := FanOut(members, upd);
    if i < |members| {
      FanOutEvent(members, ReceiveMessage(c), i);
      assert (a + b)[i] == a[i];
      assert (a + b)[i].1 != upd;
    } else {
      FanOutEvent(members, upd, j - |members|);
      assert (a + b)[j] == b[j - |members|];
      assert (a + b)[j].1 != ReceiveMessage(c);
    }
  }

  lemma FanOutEvent(us: seq<UserId>, e: Event, i: nat)
    requires i < |us|
    ensures FanOut(us, e)[i].1 == e
  {
    FanOutCarries(us, e, i);
  }
}
