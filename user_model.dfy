/**
 * The User model of the chat server: account creation, the finders with
 * their nickname fallback, the user search, the friend list, the
 * add-friend transaction and the profile update.
 *
 * A lookup in the users table without ORDER BY is taken to return rows in
 * primary-key order, so `rows[0]` is the matching user with the smallest
 * id. The private-conversation lookup of addFriend takes the first match
 * in participant-row order instead.
 */
module UserModel {
  import opened Common
  import opened Strings
  import opened Store

  // ---------------------------------------------------------------------------
  // create

  /** The row `create` inserts: the nickname starts out as the username. */
  function NewUser(username: string, hash: string, phone: Option<string>, email: Option<string>,
                   address: Option<string>, now: Time): (row: UserRow)
    ensures row.nickname == Some(username) && row.isOnline == 0 && row.lastSeen.None?
    ensures row.password == Some(hash)
  {
    UserRow(username, Some(hash), Some(username), phone, email, address, None, None, None, 0, None, now)
  }

  /**
   * INSERT INTO users. `hash` is what bcrypt made of the password; the new
   * AUTO_INCREMENT id is returned.
   */
  method Create(db: Db, username: string, hash: string, phone: Option<string>, email: Option<string>,
                address: Option<string>, now: Time) returns (id: UserId)
    requires db.Valid()
    modifies db
    ensures db.Valid()
    ensures id == old(db.nextUserId) && id !in old(db.users)
    ensures db.State() == old(db.State()).(
      users := old(db.users)[id := NewUser(username, hash, phone, email, address, now)],
      nextUserId := id + 1)
  {
    id := db.nextUserId;
    db.users := db.users[id := NewUser(username, hash, phone, email, address, now)];
    db.nextUserId := id + 1;
  }

  // ---------------------------------------------------------------------------
  // lookups in primary-key order

  /** The smallest id in [lo, hi) of a user whose row satisfies keep. */
  function FirstWhere(users: map<UserId, UserRow>, keep: UserRow -> bool, lo: int, hi: int): (r: Option<UserId>)
    ensures r.Some? ==> lo <= r.value < hi && r.value in users && keep(users[r.value])
    ensures r.Some? ==> forall u :: lo <= u < r.value && u in users ==> !keep(users[u])
    ensures r.None? ==> (forall u :: lo <= u < hi && u in users ==> !keep(users[u]))
    decreases hi - lo
  {
    if lo >= hi then None
    else if lo in users && keep(users[lo]) then Some(lo)
    else FirstWhere(users, keep, lo + 1, hi)
  }

  /** The ids in [lo, hi), ascending, of the users whose id and row satisfy keep. */
  function AllWhere(users: map<UserId, UserRow>, keep: (UserId, UserRow) -> bool, lo: int, hi: int)
    : (r: seq<UserId>)
    ensures forall u :: u in r <==> lo <= u < hi && u in users && keep(u, users[u])
    ensures (forall i, j :: 0 <= i < j < |r| ==> r[i] < r[j])
    decreases hi - lo
  {
    if lo >= hi then []
    else
      var rest := AllWhere(users, keep, lo + 1, hi);
      assert forall i :: 0 <= i < |rest| ==> rest[i] in rest && lo < rest[i];
      if lo in users && keep(lo, users[lo]) then [lo] + rest else rest
  }

  /** The user columns `findById` and `findByUsername` return, nickname already defaulted. */
  datatype UserView = UserView(
    id: UserId,
    username: string,
    password: Option<string>,
    nickname: string,
    avatar: Option<string>,
    gender: Option<string>,
    age: Option<int>,
    isOnline: int,
    lastSeen: Option<Time>)

  function View(users: map<UserId, UserRow>, u: UserId): (v: UserView)
    requires u in users
    ensures v.id == u && v.username == users[u].username
    ensures v.nickname == OrElse(users[u].nickname, users[u].username)
    ensures v.password == users[u].password
  {
    var row := users[u];
    UserView(u, row.username, row.password, OrElse(row.nickname, row.username),
             row.avatar, row.gender, row.age, row.isOnline, row.lastSeen)
  }

  /** `findById`: the user with that id, with `nickname || username` as nickname. */
  function FindById(t: Tables, u: UserId): (r: Option<UserView>)
    ensures r.Some? <==> u in t.users
    ensures r.Some? ==> r.value.id == u && r.value.username == t.users[u].username
    ensures r.Some? ==> r.value.nickname == OrElse(t.users[u].nickname, t.users[u].username)
  {
    if u in t.users then Some(View(t.users, u)) else None
  }

  function UsernameIs(name: string): UserRow -> bool { (row: UserRow) => row.username == name }
  function PhoneIs(phone: string): UserRow -> bool { (row: UserRow) => row.phone == Some(phone) }
  function EmailIs(email: string): UserRow -> bool { (row: UserRow) => row.email == Some(email) }

  /** `findByUsername`: the first user with that username, nickname defaulted. */
  function FindByUsername(t: Tables, name: string): (r: Option<UserView>)
    requires Consistent(t)
    ensures r.Some? ==> r.value.id in t.users && t.users[r.value.id].username == name
    ensures r.Some? ==> r.value.nickname == OrElse(t.users[r.value.id].nickname, name)
    ensures r.Some? ==> r.value.password == t.users[r.value.id].password
    ensures r.None? <==> forall u :: u in t.users ==> t.users[u].username != name
  {
    var found := FirstWhere(t.users, UsernameIs(name), 1, t.nextUserId);
    if found.Some? then Some(View(t.users, found.value)) else None
  }

  /** `findByPhone`: the first user whose phone column equals phone. */
  function FindByPhone(t: Tables, phone: string): (r: Option<UserId>)
    requires Consistent(t)
    ensures r.Some? ==> r.value in t.users && t.users[r.value].phone == Some(phone)
    ensures r.None? <==> forall u :: u in t.users ==> t.users[u].phone != Some(phone)
  {
    FirstWhere(t.users, PhoneIs(phone), 1, t.nextUserId)
  }

  /** `findByEmail`: the first user whose email column equals email. */
  function FindByEmail(t: Tables, email: string): (r: Option<UserId>)
    requires Consistent(t)
    ensures r.Some? ==> r.value in t.users && t.users[r.value].email == Some(email)
    ensures r.None? <==> forall u :: u in t.users ==> t.users[u].email != Some(email)
  {
    FirstWhere(t.users, EmailIs(email), 1, t.nextUserId)
  }

  /** A nickname fallback never yields an empty name for a user with a username. */
  lemma NicknameNeverEmpty(t: Tables, u: UserId)
    requires u in t.users && t.users[u].username != ""
    ensures FindById(t, u).Some? && FindById(t, u).value.nickname != ""
    ensures t.users[u].nickname.None? ==> FindById(t, u).value.nickname == t.users[u].username
  {
  }

  // ---------------------------------------------------------------------------
  // searchUsers

  datatype SearchHit = SearchHit(id: UserId, username: string, avatar: Option<string>)

  /** A user other than me, not yet in my friend list, whose username contains q. */
  function SearchMatch(t: Tables, q: string, me: UserId): (UserId, UserRow) -> bool
  {
    (u: UserId, row: UserRow) => Contains(row.username, q) && u != me && (me, u) !in t.friendships
  }

  function Hits(users: map<UserId, UserRow>, ids: seq<UserId>): (r: seq<SearchHit>)
    requires forall i :: 0 <= i < |ids| ==> ids[i] in users
    ensures |r| == |ids|
    ensures forall i :: 0 <= i < |ids| ==> r[i] == SearchHit(ids[i], users[ids[i]].username, users[ids[i]].avatar)
  {
    if ids == [] then [] else [SearchHit(ids[0], users[ids[0]].username, users[ids[0]].avatar)] + Hits(users, ids[1..])
  }

  /**
   * `searchUsers(q, me)`: the users whose username contains q, except me
   * and the users I already have a friendship row for.
   */
  function SearchUsers(t: Tables, q: string, me: UserId): (r: seq<SearchHit>)
    requires Consistent(t)
    ensures forall h :: h in r ==> h.id in t.users && h.username == t.users[h.id].username
    ensures forall u :: u in t.users ==>
      ((exists h :: h in r && h.id == u) <==> Contains(t.users[u].username, q) && u != me && (me, u) !in t.friendships)
  {
    var ids := AllWhere(t.users, SearchMatch(t, q, me), 1, t.nextUserId);
    var r := Hits(t.users, ids);
    assert forall u :: u in t.users && u in ids ==> r[IndexIn(ids, u)].id == u;
    r
  }

  function IndexIn(s: seq<UserId>, x: UserId): (i: nat)
    requires x in s
    ensures i < |s| && s[i] == x
  {
    if s[0] == x then 0 else 1 + IndexIn(s[1..], x)
  }

  /** A user never finds themself, and never finds someone already befriended. */
  lemma SearchExcludesSelfAndFriends(t: Tables, q: string, me: UserId, h: SearchHit)
    requires Consistent(t) && h in SearchUsers(t, q, me)
    ensures h.id != me && (me, h.id) !in t.friendships && Contains(h.username, q)
  {
  }

  // ---------------------------------------------------------------------------
  // getFriends

  datatype Friend = Friend(
    id: UserId,
    username: string,
    nickname: Option<string>,
    avatar: Option<string>,
    isOnline: int,
    lastSeen: Option<Time>,
    displayName: string)

  function FriendOf(me: UserId, friendships: set<(UserId, UserId)>): (UserId, UserRow) -> bool
  {
    (u: UserId, row: UserRow) => (me, u) in friendships
  }

  function Friends(users: map<UserId, UserRow>, ids: seq<UserId>): (r: seq<Friend>)
    requires forall i :: 0 <= i < |ids| ==> ids[i] in users
    ensures |r| == |ids|
    ensures forall i :: 0 <= i < |ids| ==> r[i].id == ids[i]
    ensures forall i :: 0 <= i < |ids| ==> r[i].displayName == OrElse(users[ids[i]].nickname, users[ids[i]].username)
  {
    if ids == [] then []
    else
      var row := users[ids[0]];
      [Friend(ids[0], row.username, row.nickname, row.avatar, row.isOnline, row.lastSeen,
              OrElse(row.nickname, row.username))]
      + Friends(users, ids[1..])
  }

  /**
   * `getFriends(me)`: one entry per friendship row (me, u) whose u exists,
   * with displayName = nickname || username.
   */
  function GetFriends(t: Tables, me: UserId): (r: seq<Friend>)
    requires Consistent(t)
    ensures forall i :: 0 <= i < |r| ==> r[i].id in t.users && (me, r[i].id) in t.friendships
    ensures forall i :: 0 <= i < |r| ==>
      r[i].displayName == OrElse(t.users[r[i].id].nickname, t.users[r[i].id].username)
    ensures forall u :: u in t.users && (me, u) in t.friendships ==> exists i :: 0 <= i < |r| && r[i].id == u
    ensures forall i, j :: 0 <= i < j < |r| ==> r[i].id < r[j].id
  {
    var ids := FriendIds(t, me);
    var r := Friends(t.users, ids);
    FriendsListEach(t.users, ids, r);
    r
  }

  /** The ids of me's friends that still exist, ascending. */
  function FriendIds(t: Tables, me: UserId): (ids: seq<UserId>)
    requires Consistent(t)
    ensures forall i :: 0 <= i < |ids| ==> ids[i] in t.users && (me, ids[i]) in t.friendships
    ensures forall u :: u in t.users && (me, u) in t.friendships ==> u in ids
    ensures forall i, j :: 0 <= i < j < |ids| ==> ids[i] < ids[j]
  {
    var ids := AllWhere(t.users, FriendOf(me, t.friendships), 1, t.nextUserId);
    assert forall i :: 0 <= i < |ids| ==> ids[i] in ids;
    ids
  }

  /** Every id of the list has its entry. */
  lemma FriendsListEach(users: map<UserId, UserRow>, ids: seq<UserId>, r: seq<Friend>)
    requires forall i :: 0 <= i < |ids| ==> ids[i] in users
    requires r == Friends(users, ids)
    ensures forall u :: u in ids ==> exists i :: 0 <= i < |r| && r[i].id == u
  {
    forall u | u in ids ensures exists i :: 0 <= i < |r| && r[i].id == u {
      var i := IndexIn(ids, u);
      assert r[i].id == u;
    }
  }

  // ---------------------------------------------------------------------------
  // addFriend

  /** The first private conversation in which both u and f have a participant row. */
  function PrivateBetween(t: Tables, u: UserId, f: UserId): (r: Option<ConvId>)
    ensures r.Some? ==> r.value in t.conversations && t.conversations[r.value].kind == "private"
                        && (r.value, u) in t.participants && (r.value, f) in t.participants
    ensures r.None? ==> forall c :: c in t.conversations && t.conversations[c].kind == "private"
                                    ==> !((c, u) in t.participants && (c, f) in t.participants)
  {
    FirstShared(ConversationsOf(t.participants, u), t, f)
  }

  function FirstShared(cs: seq<ConvId>, t: Tables, f: UserId): (r: Option<ConvId>)
    ensures r.Some? ==> r.value in cs && r.value in t.conversations
                        && t.conversations[r.value].kind == "private" && (r.value, f) in t.participants
    ensures r.None? ==> forall c :: c in cs && c in t.conversations && t.conversations[c].kind == "private"
                                    ==> (c, f) !in t.participants
  {
    if cs == [] then None
    else if cs[0] in t.conversations && t.conversations[cs[0]].kind == "private" && (cs[0], f) in t.participants
    then Some(cs[0])
    else FirstShared(cs[1..], t, f)
  }

  const PrivateName: string := "私聊"

  /**
   * The add-friend transaction. With a friendship row (u, f) already there
   * and a private conversation shared by both, that conversation is
   * returned and nothing is written. Otherwise both friendship rows are
   * inserted (unless (u, f) existed) and a private conversation with
   * participants u and f is created. Any failing statement rolls back
   * every insert of the transaction; `failAt` numbers the one write that
   * hits a store failure (1, 2: the friendship rows; 3: the conversation;
   * 4, 5: the participants; any other value: none), and a repeated unique
   * key fails with ER_DUP_ENTRY.
   */
  method AddFriend(db: Db, u: UserId, f: UserId, now: Time, failAt: int) returns (r: Result<ConvId>)
    requires db.Valid()
    modifies db
    ensures db.Valid()
    ensures (u, f) in old(db.friendships) && PrivateBetween(old(db.State()), u, f).Some? ==>
      r == Ok(PrivateBetween(old(db.State()), u, f).value) && db.State() == old(db.State())
    ensures r.Err? <==>
      !((u, f) in old(db.friendships) && PrivateBetween(old(db.State()), u, f).Some?)
      && (AddFriendFault(failAt, (u, f) in old(db.friendships))
          || AddFriendDuplicate(old(db.friendships), u, f))
    ensures r.Err? ==> db.State() == old(db.State()).(nextConvId := db.nextConvId)
    ensures r.Err? && failAt == 0 ==> r.error == DupEntryCode
    ensures r.Ok? && !((u, f) in old(db.friendships) && PrivateBetween(old(db.State()), u, f).Some?) ==>
      r.value == old(db.nextConvId)
      && db.State() == old(db.State()).(
        friendships := old(db.friendships) + (if (u, f) in old(db.friendships) then {} else {(u, f), (f, u)}),
        conversations := old(db.conversations)[r.value := ConversationRow(Some(PrivateName), "private", None, now, now)],
        participants := old(db.participants) + [(r.value, u), (r.value, f)],
        nextConvId := r.value + 1)
  {
    var snapshot := db.State();
    if (u, f) in db.friendships {
      var found := PrivateBetween(db.State(), u, f);
      if found.Some? {
        r := Ok(found.value);
        return;
      }
    } else {
      var err := InsertFriendRows(db, u, f, failAt);
      if err.Some? {
        db.Rollback(snapshot);
        r := Err(err.value);
        return;
      }
    }
    r := CreatePrivate(db, u, f, now, failAt);
    if r.Err? {
      db.Rollback(snapshot);
    }
  }

  /** INSERT INTO friendships (u, f), then (f, u); only the friendship table changes. */
  method InsertFriendRows(db: Db, u: UserId, f: UserId, failAt: int) returns (err: Option<string>)
    requires db.Valid() && (u, f) !in db.friendships
    modifies db
    ensures db.Valid()
    ensures err.None? <==> failAt != 1 && failAt != 2 && !AddFriendDuplicate(old(db.friendships), u, f)
    ensures err.None? ==> db.State() == old(db.State()).(friendships := old(db.friendships) + {(u, f), (f, u)})
    ensures err.Some? ==> db.State() == old(db.State()).(friendships := db.friendships)
    ensures err.Some? && failAt == 0 ==> err.value == DupEntryCode
  {
    if failAt == 1 {
      return Some("store failure");
    }
    db.friendships := db.friendships + {(u, f)};
    if failAt == 2 || (f, u) in db.friendships {
      return Some(if failAt == 2 then "store failure" else DupEntryCode);
    }
    db.friendships := db.friendships + {(f, u)};
    err := None;
  }

  /**
   * INSERT INTO conversations ('私聊', 'private'), then the participant
   * rows of u and f; only those two tables and the conversation counter
   * change.
   */
  method CreatePrivate(db: Db, u: UserId, f: UserId, now: Time, failAt: int) returns (r: Result<ConvId>)
    requires db.Valid()
    modifies db
    ensures db.Valid()
    ensures r.Ok? <==> !(3 <= failAt <= 5) && u != f
    ensures r.Ok? ==> r.value == old(db.nextConvId) && db.State() == old(db.State()).(
      conversations := old(db.conversations)[r.value := ConversationRow(Some(PrivateName), "private", None, now, now)],
      participants := old(db.participants) + [(r.value, u), (r.value, f)],
      nextConvId := r.value + 1)
    ensures r.Err? ==> db.State() == old(db.State()).(conversations := db.conversations,
      participants := db.participants, nextConvId := db.nextConvId)
    ensures db.nextConvId >= old(db.nextConvId)
    ensures r.Err? && failAt == 0 ==> r.error == DupEntryCode
  {
    if failAt == 3 {
      return Err("store failure");
    }
    var c := db.InsertConversation(Some(PrivateName), "private", None, now);
    assert forall i :: 0 <= i < |db.participants| ==> db.participants[i].0 != c;
    if failAt == 4 {
      return Err("store failure");
    }
    var err := db.InsertParticipant(c, u);
    if failAt == 5 {
      return Err("store failure");
    }
    err := db.InsertParticipant(c, f);
    if err.Some? {
      return Err(ErrorMessage(err.value));
    }
    r := Ok(c);
  }

  /** Whether the injected failure hits a write the transaction performs. */
  predicate AddFriendFault(failAt: int, existing: bool)
  {
    ((failAt == 1 || failAt == 2) && !existing) || 3 <= failAt <= 5
  }

  /**
   * Whether a unique key repeats: the reverse friendship row is already
   * there while (u, f) is not, or u and f are the same user.
   */
  predicate AddFriendDuplicate(friendships: set<(UserId, UserId)>, u: UserId, f: UserId)
  {
    ((u, f) !in friendships && (f, u) in friendships) || u == f
  }

  /**
   * Once addFriend has succeeded, (u, f) is a friendship and u and f share
   * a private conversation, so a second addFriend returns a conversation
   * and writes nothing.
   */
  lemma AddFriendThenReuse(t: Tables, u: UserId, f: UserId, now: Time)
    requires Consistent(t)
    requires !((u, f) in t.friendships && PrivateBetween(t, u, f).Some?)
    ensures var c := t.nextConvId;
      var t' := t.(
        friendships := t.friendships + (if (u, f) in t.friendships then {} else {(u, f), (f, u)}),
        conversations := t.conversations[c := ConversationRow(Some(PrivateName), "private", None, now, now)],
        participants := t.participants + [(c, u), (c, f)],
        nextConvId := c + 1);
      (u, f) in t'.friendships && PrivateBetween(t', u, f).Some?
  {
    var c := t.nextConvId;
    var t' := t.(
        friendships := t.friendships + (if (u, f) in t.friendships then {} else {(u, f), (f, u)}),
        conversations := t.conversations[c := ConversationRow(Some(PrivateName), "private", None, now, now)],
        participants := t.participants + [(c, u), (c, f)],
        nextConvId := c + 1);
    assert (c, u) in t'.participants && (c, f) in t'.participants;
    assert t'.conversations[c].kind == "private";
  }

  /** A new friendship is recorded in both directions. */
  lemma AddFriendSymmetric(friendships: set<(UserId, UserId)>, u: UserId, f: UserId, x: UserId, y: UserId)
    requires (u, f) !in friendships
    ensures var fs := friendships + {(u, f), (f, u)};
      (x, y) in fs <==> (x, y) in friendships || (x, y) == (u, f) || (x, y) == (f, u)
    ensures (u, f) in friendships + {(u, f), (f, u)} && (f, u) in friendships + {(u, f), (f, u)}
  {
  }

  // ---------------------------------------------------------------------------
  // updateProfile

  /** One `key = value` entry of the updates object; the keys are the profile columns. */
  datatype ProfileUpdate =
    | SetNickname(nickname: string)
    | SetGender(gender: string)
    | SetAge(age: int)
    | SetAgeNaN
    | SetAvatar(avatar: string)

  function ApplyOne(row: UserRow, x: ProfileUpdate): (r: UserRow)
    ensures r.username == row.username && r.password == row.password
    ensures r.phone == row.phone && r.email == row.email && r.address == row.address
  {
    match x
    case SetNickname(n) => row.(nickname := Some(n))
    case SetGender(g) => row.(gender := Some(g))
    case SetAge(a) => row.(age := Some(a))
    case SetAgeNaN => row  // never written: the statement that binds NaN fails
    case SetAvatar(p) => row.(avatar := Some(p))
  }

  /** The row after `UPDATE users SET k1 = v1, k2 = v2, ...`. */
  function ApplyAll(row: UserRow, xs: seq<ProfileUpdate>): (r: UserRow)
    ensures r.username == row.username && r.password == row.password
    ensures r.phone == row.phone && r.email == row.email && r.address == row.address
    ensures r.isOnline == row.isOnline && r.createdAt == row.createdAt
    decreases |xs|
  {
    if xs == [] then row else ApplyAll(ApplyOne(row, xs[0]), xs[1..])
  }

  /**
   * `updateProfile(u, updates)`: the SET list is built entry by entry;
   * with no entries nothing is written. A NaN age bound to the statement
   * makes it fail, and `fails` stands for any other store error; after
   * either the transaction is rolled back and the error passed on.
   */
  method UpdateProfile(db: Db, u: UserId, updates: seq<ProfileUpdate>, fails: bool) returns (r: Result<()>)
    requires db.Valid()
    modifies db
    ensures db.Valid()
    ensures r.Err? <==> |updates| > 0 && (fails || SetAgeNaN in updates)
    ensures r.Ok? && |updates| > 0 && u in old(db.users) ==>
      db.State() == old(db.State()).(users := old(db.users)[u := ApplyAll(old(db.users)[u], updates)])
    ensures r.Err? || |updates| == 0 || u !in old(db.users) ==> db.State() == old(db.State())
  {
    if |updates| == 0 {
      return Ok(());
    }
    if fails || SetAgeNaN in updates {
      return Err("store failure");
    }
    if u in db.users {
      var row := db.users[u];
      var i := 0;
      while i < |updates|
        invariant 0 <= i <= |updates|
        invariant ApplyAll(row, updates[i..]) == ApplyAll(db.users[u], updates)
      {
        assert updates[i..][1..] == updates[i + 1..];
        row := ApplyOne(row, updates[i]);
        i := i + 1;
      }
      db.users := db.users[u := row];
    }
    r := Ok(());
  }

  lemma {:induction false} ApplyAllAppend(row: UserRow, xs: seq<ProfileUpdate>, x: ProfileUpdate)
    ensures ApplyAll(row, xs + [x]) == ApplyOne(ApplyAll(row, xs), x)
    decreases |xs|
  {
    if xs != [] {
      assert (xs + [x])[1..] == xs[1..] + [x];
      ApplyAllAppend(ApplyOne(row, xs[0]), xs[1..], x);
    }
  }

  /** The last nickname entry of the updates is the nickname findById reports afterwards. */
  lemma {:induction false} NicknameAfterUpdate(row: UserRow, xs: seq<ProfileUpdate>, n: string)
    requires n != ""
    requires forall i :: 0 <= i < |xs| ==> !xs[i].SetNickname?
    ensures OrElse(ApplyAll(row, [SetNickname(n)] + xs).nickname, row.username) == n
  {
    NicknameUntouched(ApplyOne(row, SetNickname(n)), xs);
    assert ([SetNickname(n)] + xs)[1..] == xs;
  }

  lemma {:induction false} NicknameUntouched(row: UserRow, xs: seq<ProfileUpdate>)
    requires forall i :: 0 <= i < |xs| ==> !xs[i].SetNickname?
    ensures ApplyAll(row, xs).nickname == row.nickname
    decreases |xs|
  {
    if xs != [] {
      NicknameUntouched(ApplyOne(row, xs[0]), xs[1..]);
    }
  }
}
