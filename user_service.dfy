/**
 * The admin backend's user service: saving and updating a user from the
 * admin form, the "new users today" counter, the region distribution, and
 * the cascade delete of a user with everything that refers to it.
 */
module UserService {
  import opened Common
  import opened Strings
  import opened Store
  import opened UserMapper

  // ---------------------------------------------------------------------------
  // saveUser / updateUser

  /**
   * The user entity as the admin's JSON body binds it; a null field is None.
   * The entity's password is @JsonIgnore, so no posted password reaches the
   * service; the presence columns and the creation time are bound like any
   * other field.
   */
  datatype UserForm = UserForm(
    id: Option<UserId>,
    username: Option<string>,
    nickname: Option<string>,
    address: Option<string>,
    phone: Option<string>,
    email: Option<string>,
    avatar: Option<string>,
    gender: Option<string>,
    age: Option<int>,
    isOnline: Option<int>,
    lastSeen: Option<Time>,
    createdAt: Option<Time>)

  const OperationFailedPrefix: string := "操作失败: "
  const UpdateFailedPrefix: string := "修改失败: "
  const UsernameExists: string := "用户名已存在"
  const NoSuchUser: string := "用户不存在"

  /** checkUsernameExists: `username = NULL` matches no row. */
  predicate UsernameTaken(t: Tables, username: Option<string>)
  {
    username.Some? && exists u :: u in t.users && t.users[u].username == username.value
  }

  /** No two user rows share a username. */
  predicate UsernamesUnique(t: Tables)
  {
    forall a, b :: a in t.users && b in t.users && t.users[a].username == t.users[b].username ==> a == b
  }

  /**
   * The row the mapper's own INSERT writes: only username, password,
   * nickname and address are listed, so every other column takes its
   * default (no phone, email, avatar, gender or age; offline; created now),
   * whatever the form carried. The entity's password is null, so the row's
   * password is NULL, and a login to the chat server as this user throws.
   */
  function InsertedRow(username: string, form: UserForm, now: Time): (row: UserRow)
    ensures row.username == username && row.nickname == form.nickname && row.address == form.address
    ensures row.password.None?
    ensures row.phone.None? && row.email.None? && row.avatar.None? && row.gender.None? && row.age.None?
    ensures row.isOnline == 0 && row.createdAt == now
  {
    UserRow(username, None, form.nickname, None, None, form.address, None, None, None, 0, None, now)
  }

  /** The value an update writes into one column: the form's, unless it is null. */
  function Pick<T>(posted: Option<T>, stored: T): T
  {
    if posted.Some? then posted.value else stored
  }

  function PickOption<T>(posted: Option<T>, stored: Option<T>): Option<T>
  {
    if posted.Some? then posted else stored
  }

  /**
   * updateById: every non-null field of the form overwrites its column; null
   * fields are not written. The password is never posted, so it is never
   * written.
   */
  function Patched(row: UserRow, form: UserForm): (r: UserRow)
    ensures r.password == row.password
    ensures form.isOnline.None? ==> r.isOnline == row.isOnline
    ensures form.lastSeen.None? ==> r.lastSeen == row.lastSeen
    ensures form.createdAt.None? ==> r.createdAt == row.createdAt
  {
    row.(username := Pick(form.username, row.username),
         nickname := PickOption(form.nickname, row.nickname),
         address := PickOption(form.address, row.address),
         phone := PickOption(form.phone, row.phone),
         email := PickOption(form.email, row.email),
         avatar := PickOption(form.avatar, row.avatar),
         gender := PickOption(form.gender, row.gender),
         age := PickOption(form.age, row.age),
         isOnline := Pick(form.isOnline, row.isOnline),
         lastSeen := PickOption(form.lastSeen, row.lastSeen),
         createdAt := Pick(form.createdAt, row.createdAt))
  }

  /**
   * Patching is a pure overwrite: patching twice with the same form is
   * patching once, and a form of nulls changes nothing.
   */
  lemma PatchIdempotent(row: UserRow, form: UserForm)
    ensures Patched(Patched(row, form), form) == Patched(row, form)
    ensures (form.username.None? && form.nickname.None? && form.address.None? && form.phone.None?
             && form.email.None? && form.avatar.None? && form.gender.None? && form.age.None?
             && form.isOnline.None? && form.lastSeen.None? && form.createdAt.None?) ==>
      Patched(row, form) == row
  {
  }

  /** A patched column holds the posted value when one was posted, else the stored one. */
  lemma PatchedColumns(row: UserRow, form: UserForm)
    ensures form.username.Some? ==> Patched(row, form).username == form.username.value
    ensures form.username.None? ==> Patched(row, form).username == row.username
    ensures form.phone.Some? ==> Patched(row, form).phone == form.phone
    ensures form.phone.None? ==> Patched(row, form).phone == row.phone
    ensures form.age.Some? ==> Patched(row, form).age == form.age
    ensures form.age.None? ==> Patched(row, form).age == row.age
    ensures form.isOnline.Some? ==> Patched(row, form).isOnline == form.isOnline.value
    ensures form.lastSeen.Some? ==> Patched(row, form).lastSeen == form.lastSeen
    ensures form.createdAt.Some? ==> Patched(row, form).createdAt == form.createdAt.value
  {
  }

  /**
   * The checks of the update branch: the user must exist, and a username
   * other than the stored one (a null one counts as other) must be free.
   */
  function UpdateCheck(t: Tables, form: UserForm): (r: Option<string>)
    ensures r.None? <==>
      form.id.Some? && form.id.value in t.users
      && (Some(t.users[form.id.value].username) == form.username || !UsernameTaken(t, form.username))
    ensures r.Some? ==> r.value in {NoSuchUser, UsernameExists}
  {
    if form.id.None? || form.id.value !in t.users then Some(NoSuchUser)
    else if Some(t.users[form.id.value].username) != form.username && UsernameTaken(t, form.username) then
      Some(UsernameExists)
    else None
  }

  /** saveUser's checks: for a new user the username must be free; otherwise updateUser's checks. */
  function SaveCheck(t: Tables, form: UserForm): (r: Option<string>)
    ensures form.id.None? ==> (r.None? <==> !UsernameTaken(t, form.username))
    ensures form.id.Some? ==> r == UpdateCheck(t, form)
  {
    if form.id.None? then
      if UsernameTaken(t, form.username) then Some(UsernameExists) else None
    else UpdateCheck(t, form)
  }

  /** The tables after a save whose checks passed and whose statement the store accepted. */
  function AfterSave(t: Tables, form: UserForm, now: Time): (t': Tables)
    requires SaveCheck(t, form).None?
    requires form.id.None? ==> form.username.Some?
    ensures form.id.None? ==>
      t' == t.(users := t.users[t.nextUserId := InsertedRow(form.username.value, form, now)],
               nextUserId := t.nextUserId + 1)
    ensures form.id.Some? ==>
      t' == t.(users := t.users[form.id.value := Patched(t.users[form.id.value], form)])
  {
    if form.id.None? then
      t.(users := t.users[t.nextUserId := InsertedRow(form.username.value, form, now)],
         nextUserId := t.nextUserId + 1)
    else
      t.(users := t.users[form.id.value := Patched(t.users[form.id.value], form)])
  }

  /** A save that passes its checks keeps the store consistent and usernames unique. */
  lemma SaveKeepsUsernamesUnique(t: Tables, form: UserForm, now: Time)
    requires Consistent(t) && UsernamesUnique(t)
    requires SaveCheck(t, form).None?
    requires form.id.None? ==> form.username.Some?
    ensures Consistent(AfterSave(t, form, now))
    ensures UsernamesUnique(AfterSave(t, form, now))
  {
    var t' := AfterSave(t, form, now);
    if form.id.None? {
      var n := t.nextUserId;
      forall a, b | a in t'.users && b in t'.users && t'.users[a].username == t'.users[b].username
        ensures a == b
      {
        if a != n && b != n {
          assert t.users[a].username == t.users[b].username;
        }
      }
    } else {
      var i := form.id.value;
      forall a, b | a in t'.users && b in t'.users && t'.users[a].username == t'.users[b].username
        ensures a == b
      {
        if a != i && b != i {
          assert t.users[a].username == t.users[b].username;
        }
      }
    }
  }

  /**
   * saveUser: for a form without an id, the username check and the INSERT;
   * with an id, the existence and username checks and updateById. A failed
   * check, or a statement the store refuses (`rejected`, with the store's
   * message `cause`), is rethrown with "操作失败: " in front and leaves the
   * tables as they were. A new user with a null username is refused by the
   * store.
   */
  method SaveUser(db: Db, form: UserForm, now: Time, rejected: bool, cause: string) returns (r: Result<bool>)
    requires db.Valid()
    modifies db
    ensures db.Valid()
    ensures SaveCheck(old(db.State()), form).Some? ==>
      r == Err(OperationFailedPrefix + SaveCheck(old(db.State()), form).value) && db.State() == old(db.State())
    ensures SaveCheck(old(db.State()), form).None? && (rejected || (form.id.None? && form.username.None?)) ==>
      r == Err(OperationFailedPrefix + cause) && db.State() == old(db.State())
    ensures SaveCheck(old(db.State()), form).None? && !rejected && (form.id.Some? || form.username.Some?) ==>
      r == Ok(true) && db.State() == AfterSave(old(db.State()), form, now)
  {
    var check := SaveCheck(db.State(), form);
    if check.Some? {
      return Err(OperationFailedPrefix + check.value);
    }
    if rejected || (form.id.None? && form.username.None?) {
      return Err(OperationFailedPrefix + cause);
    }
    db.Load(AfterSave(db.State(), form, now));
    r := Ok(true);
  }

  /** updateUser: updateUser's checks and updateById, failures rethrown with "修改失败: " in front. */
  method UpdateUser(db: Db, form: UserForm, rejected: bool, cause: string) returns (r: Result<bool>)
    requires db.Valid()
    modifies db
    ensures db.Valid()
    ensures UpdateCheck(old(db.State()), form).Some? ==>
      r == Err(UpdateFailedPrefix + UpdateCheck(old(db.State()), form).value) && db.State() == old(db.State())
    ensures UpdateCheck(old(db.State()), form).None? && rejected ==>
      r == Err(UpdateFailedPrefix + cause) && db.State() == old(db.State())
    ensures UpdateCheck(old(db.State()), form).None? && !rejected ==>
      r == Ok(true)
      && db.State() == old(db.State()).(users := old(db.users)[form.id.value := Patched(old(db.users)[form.id.value], form)])
  {
    var check := UpdateCheck(db.State(), form);
    if check.Some? {
      return Err(UpdateFailedPrefix + check.value);
    }
    if rejected {
      return Err(UpdateFailedPrefix + cause);
    }
    var i := form.id.value;
    db.Load(db.State().(users := db.users[i := Patched(db.users[i], form)]));
    r := Ok(true);
  }

  // ---------------------------------------------------------------------------
  // getTodayUsers

  /** The numbers getTodayUsers answers with, the growth rate aside. */
  datatype TodayStats = TodayStats(total: int, todayCount: int, yesterdayCount: int)

  /**
   * The service's counter of users added today. Dates are day numbers;
   * every reading of the user count and of the clock is a parameter.
   */
  class TodayCounter {
    /** -1 until the first reading, then the highest total read since the day's first reading. */
    var lastTotalCount: int
    var lastResetDate: int
    var todayIncrease: int
    /** The total at the day's first reading. */
    ghost var dayStart: int

    /** Today's count is the growth of the total from the day's first reading to its highest since. */
    ghost predicate Valid()
      reads this
    {
      && lastTotalCount >= -1
      && (lastTotalCount == -1 ==> todayIncrease == 0)
      && (lastTotalCount >= 0 ==> todayIncrease == lastTotalCount - dayStart && dayStart <= lastTotalCount)
    }

    constructor (today: int)
      ensures Valid()
      ensures lastTotalCount == -1 && lastResetDate == today && todayIncrease == 0
    {
      lastTotalCount := -1;
      lastResetDate := today;
      todayIncrease := 0;
      dayStart := 0;
    }

    /**
     * getTodayUsers: the first reading sets the baseline; a new date
     * restarts the count from the current total; a total above the
     * baseline adds the difference and raises the baseline. A total that
     * fell (users deleted) changes nothing.
     */
    method GetTodayUsers(currentTotal: nat, today: int, yesterdayCount: nat) returns (r: TodayStats)
      requires Valid()
      modifies this
      ensures Valid()
      ensures r == TodayStats(currentTotal, todayIncrease, yesterdayCount)
      ensures lastResetDate == today && todayIncrease >= 0
      ensures today != old(lastResetDate) || old(lastTotalCount) == -1 ==>
        todayIncrease == 0 && lastTotalCount == currentTotal
      ensures today == old(lastResetDate) && old(lastTotalCount) >= 0 ==>
        lastTotalCount == (if currentTotal > old(lastTotalCount) then currentTotal else old(lastTotalCount))
        && todayIncrease == old(todayIncrease) + (lastTotalCount - old(lastTotalCount))
    {
      if lastTotalCount == -1 {
        lastTotalCount := currentTotal;
        dayStart := currentTotal;
      }
      if lastResetDate != today {
        lastResetDate := today;
        lastTotalCount := currentTotal;
        todayIncrease := 0;
        dayStart := currentTotal;
      }
      if currentTotal > lastTotalCount {
        todayIncrease := todayIncrease + (currentTotal - lastTotalCount);
        lastTotalCount := currentTotal;
      }
      r := TodayStats(currentTotal, todayIncrease, yesterdayCount);
    }
  }

  // ---------------------------------------------------------------------------
  // getRegionDistribution

  const UnknownRegion: string := "未知"
  const NullAddress: string := "(Null)"

  /** A non-null address other than "(Null)" with at least two characters. */
  predicate HasRegion(address: Option<string>)
  {
    address.Some? && address.value != NullAddress && |address.value| >= 2
  }

  /** `address.substring(0, 2)`. */
  function RegionOf(address: Option<string>): string
    requires HasRegion(address)
  {
    address.value[..2]
  }

  /** `regionCount.merge(region, 1, Integer::sum)`. */
  function Merge(m: map<string, int>, region: string): (r: map<string, int>)
    ensures r.Keys == m.Keys + {region}
  {
    m[region := (if region in m then m[region] else 0) + 1]
  }

  /** The map the loop has built after the users of us, in list order. */
  function Tally(us: seq<UserRow>): map<string, int>
  {
    if us == [] then map[]
    else
      var m := Tally(us[..|us| - 1]);
      var a := us[|us| - 1].address;
      if HasRegion(a) then Merge(m, RegionOf(a)) else m
  }

  /** The number of users of us whose region is k: the independent definition Tally is checked against. */
  function CountRegion(us: seq<UserRow>, k: string): nat
  {
    if us == [] then 0
    else CountRegion(us[..|us| - 1], k)
         + (if HasRegion(us[|us| - 1].address) && RegionOf(us[|us| - 1].address) == k then 1 else 0)
  }

  /** What getRegionDistribution answers: the tally, or "未知" with every user when no address counts. */
  function Distribution(us: seq<UserRow>): map<string, int>
  {
    var m := Tally(us);
    if m == map[] then map[UnknownRegion := |us|] else m
  }

  /** The tally counts each region exactly: a key is present with its number of users, and only then. */
  lemma {:induction false} TallyCounts(us: seq<UserRow>, k: string)
    ensures k in Tally(us) <==> CountRegion(us, k) > 0
    ensures k in Tally(us) ==> Tally(us)[k] == CountRegion(us, k)
  {
    if us != [] {
      TallyCounts(us[..|us| - 1], k);
    }
  }

  /** The tally is empty exactly when no user has a countable address. */
  lemma {:induction false} TallyEmpty(us: seq<UserRow>)
    ensures Tally(us) == map[] <==> forall i :: 0 <= i < |us| ==> !HasRegion(us[i].address)
  {
    if us != [] {
      var init := us[..|us| - 1];
      TallyEmpty(init);
      assert forall i :: 0 <= i < |init| ==> init[i] == us[i];
      var a := us[|us| - 1].address;
      if HasRegion(a) {
        assert RegionOf(a) in Tally(us);
      }
    }
  }

  /** getRegionDistribution: the merge loop over the user list, then the "未知" fallback. */
  method RegionDistribution(users: seq<UserRow>) returns (regionCount: map<string, int>)
    ensures regionCount == Distribution(users)
  {
    regionCount := map[];
    var i := 0;
    while i < |users|
      invariant 0 <= i <= |users|
      invariant regionCount == Tally(users[..i])
    {
      assert users[..i + 1][..i] == users[..i];
      var a := users[i].address;
      if a.Some? && a.value != NullAddress && |a.value| >= 2 {
        var region := a.value[..2];
        regionCount := regionCount[region := (if region in regionCount then regionCount[region] else 0) + 1];
      }
      i := i + 1;
    }
    assert users[..|users|] == users;
    if regionCount == map[] {
      regionCount := map[UnknownRegion := |users|];
    }
  }

  /**
   * The distribution's keys are the regions of the users, each counted
   * exactly; "未知" stands for all users only when no address counts.
   */
  lemma DistributionCounts(us: seq<UserRow>, k: string)
    ensures (exists i :: 0 <= i < |us| && HasRegion(us[i].address)) ==>
      (k in Distribution(us) <==> CountRegion(us, k) > 0)
      && (k in Distribution(us) ==> Distribution(us)[k] == CountRegion(us, k))
    ensures (forall i :: 0 <= i < |us| ==> !HasRegion(us[i].address)) ==>
      Distribution(us) == map[UnknownRegion := |us|]
  {
    TallyCounts(us, k);
    TallyEmpty(us);
  }

  // ---------------------------------------------------------------------------
  // hasUserConversations

  /** hasUserConversations: a participant row of the user exists. */
  function HasUserConversations(t: Tables, u: UserId): (b: bool)
    ensures b <==> exists p :: p in t.participants && p.1 == u
  {
    CountZeroIffNoRow(t.participants, u);
    CountUserConversations(t.participants, u) > 0
  }

  // ---------------------------------------------------------------------------
  // removeUserById

  const DeleteFailedPrefix: string := "删除失败: "
  const BatchFailedPrefix: string := "批量删除失败: "

  /** `removeById`: DELETE FROM users WHERE id = u. */
  function RemoveById(t: Tables, u: UserId): (t': Tables)
    ensures t' == t.(users := t'.users)
    ensures t'.users.Keys == t.users.Keys - {u}
    ensures forall v :: v in t'.users ==> t'.users[v] == t.users[v]
  {
    t.(users := t.users - {u})
  }

  /** The steps after the owned conversations: the user's participant rows, friendships and row. */
  function Finish(t: Tables, u: UserId): Tables
  {
    RemoveById(DeleteFriendships(DeleteConversationParticipants(t, u), u), u)
  }

  /**
   * removeUserById as written: the reads the user made, the messages the
   * user sent, every conversation the user owns with its reads, messages
   * and participants, the user's remaining participant rows, friendships,
   * and the user row.
   */
  function CascadeAsWritten(t: Tables, u: UserId): Tables
  {
    var t1 := DeleteMessages(DeleteMessageReads(t, u), u);
    Finish(DropAll(t1, FindUserConversationIds(t1, u)), u)
  }

  /** The ids of the messages u sent. */
  function MessageIdsFrom(ms: seq<MessageRow>, u: UserId): set<MsgId>
  {
    set x | x in ms && x.senderId == u :: x.id
  }

  /** The statement the cascade needs before deleting u's messages: the reads of those messages, by anyone. */
  function DeleteReadsOfMessagesFrom(t: Tables, u: UserId): (t': Tables)
    ensures t' == t.(receipts := t'.receipts)
    ensures forall k :: k in t'.receipts <==> k in t.receipts && k.0 !in MessageIdsFrom(t.messages, u)
  {
    t.(receipts := ReceiptsWithout(t.receipts, MessageIdsFrom(t.messages, u)))
  }

  /** The cascade with the reads of the user's messages deleted before the messages. */
  function Cascade(t: Tables, u: UserId): Tables
  {
    var t1 := DeleteMessages(DeleteReadsOfMessagesFrom(DeleteMessageReads(t, u), u), u);
    Finish(DropAll(t1, FindUserConversationIds(t1, u)), u)
  }

  /** The ids of the messages in the table. */
  function MessageIds(ms: seq<MessageRow>): set<MsgId>
  {
    set x | x in ms :: x.id
  }

  /** Every read receipt names a message the table holds. */
  predicate ReadsResolve(t: Tables)
  {
    forall k :: k in t.receipts ==> k.0 in MessageIds(t.messages)
  }

  lemma FinishConsistent(t: Tables, u: UserId)
    requires Consistent(t)
    ensures Consistent(Finish(t, u))
    ensures Finish(t, u).messages == t.messages && Finish(t, u).receipts == t.receipts
  {
    DeleteConversationParticipantsConsistent(t, u);
  }

  /** The corrected cascade leaves the store consistent: nothing refers to a deleted conversation. */
  lemma CascadeConsistent(t: Tables, u: UserId)
    requires Consistent(t)
    ensures Consistent(Cascade(t, u))
  {
    var t0 := DeleteReadsOfMessagesFrom(DeleteMessageReads(t, u), u);
    var t1 := DeleteMessages(t0, u);
    DeleteMessagesConsistent(t0, u);
    var t2 := DropAll(t1, FindUserConversationIds(t1, u));
    DropAllConsistent(t1, FindUserConversationIds(t1, u));
    FinishConsistent(t2, u);
  }

  /** So does the cascade as written. */
  lemma CascadeAsWrittenConsistent(t: Tables, u: UserId)
    requires Consistent(t)
    ensures Consistent(CascadeAsWritten(t, u))
  {
    var t0 := DeleteMessageReads(t, u);
    var t1 := DeleteMessages(t0, u);
    DeleteMessagesConsistent(t0, u);
    var t2 := DropAll(t1, FindUserConversationIds(t1, u));
    DropAllConsistent(t1, FindUserConversationIds(t1, u));
    FinishConsistent(t2, u);
  }

  /**
   * After the cascade nothing of u is left: no user row, no message sent,
   * no read made, no participant row, no friendship, no owned
   * conversation; every other user row is as it was.
   */
  lemma CascadeRemovesUser(t: Tables, u: UserId)
    ensures var t' := Cascade(t, u);
      && u !in t'.users
      && (forall v :: v in t.users && v != u ==> v in t'.users && t'.users[v] == t.users[v])
      && (forall x :: x in t'.messages ==> x.senderId != u)
      && (forall k :: k in t'.receipts ==> k.1 != u)
      && (forall p :: p in t'.participants ==> p.1 != u)
      && (forall f :: f in t'.friendships ==> f.0 != u && f.1 != u)
      && (forall c :: c in t'.conversations ==> t'.conversations[c].ownerId != Some(u))
  {
  }

  /**
   * The messages the cascade keeps are exactly those neither sent by u nor
   * in a conversation u owns; the conversations kept are exactly those u
   * does not own.
   */
  lemma CascadeKeepsOthers(t: Tables, u: UserId)
    ensures forall x :: x in Cascade(t, u).messages <==>
      x in t.messages && x.senderId != u && x.conversationId !in FindUserConversationIds(t, u)
    ensures forall c :: c in Cascade(t, u).conversations <==>
      c in t.conversations && t.conversations[c].ownerId != Some(u)
    ensures forall p :: p in Cascade(t, u).participants <==>
      p in t.participants && p.1 != u && p.0 !in FindUserConversationIds(t, u)
  {
    var t1 := DeleteMessages(DeleteReadsOfMessagesFrom(DeleteMessageReads(t, u), u), u);
    assert FindUserConversationIds(t1, u) == FindUserConversationIds(t, u);
  }

  /** The corrected cascade leaves no read receipt of a deleted message behind. */
  lemma CascadeKeepsReadsResolved(t: Tables, u: UserId)
    requires ReadsResolve(t)
    ensures ReadsResolve(Cascade(t, u))
  {
    var t0 := DeleteReadsOfMessagesFrom(DeleteMessageReads(t, u), u);
    var t1 := DeleteMessages(t0, u);
    var owned := FindUserConversationIds(t1, u);
    var t2 := DropAll(t1, owned);
    forall k | k in t2.receipts ensures k.0 in MessageIds(t2.messages) {
      assert k in t0.receipts;
      var x :| x in t.messages && x.id == k.0;
      assert x.senderId != u;
      assert x in t1.messages;
      assert x.conversationId !in owned;
      assert x in t2.messages;
    }
    FinishConsistentReads(t2, u);
  }

  lemma FinishConsistentReads(t: Tables, u: UserId)
    ensures Finish(t, u).messages == t.messages && Finish(t, u).receipts == t.receipts
  {
  }

  /**
   * The cascade as written can orphan read receipts: user 2 read the
   * message user 1 sent in a group user 2 owns; deleting user 1 removes
   * the message but keeps user 2's read of it.
   */
  lemma CascadeAsWrittenOrphansReads()
    ensures var t := OrphanExample();
      Consistent(t) && ReadsResolve(t) && !ReadsResolve(CascadeAsWritten(t, 1))
  {
    var t := OrphanExample();
    OrphanExampleValid();
    var t1 := DeleteMessages(DeleteMessageReads(t, 1), 1);
    assert t1.messages == [] by {
      assert t.messages[0].senderId == 1;
    }
    assert (1, 2) in t1.receipts;
    var owned := FindUserConversationIds(t1, 1);
    assert owned == {} by {
      assert t1.conversations == t.conversations;
    }
    DropNone(t1);
    FinishConsistentReads(t1, 1);
    var t' := CascadeAsWritten(t, 1);
    assert t'.messages == [] && (1, 2) in t'.receipts;
    assert MessageIds(t'.messages) == {};
  }

  lemma OrphanExampleValid()
    ensures Consistent(OrphanExample()) && ReadsResolve(OrphanExample())
  {
    var t := OrphanExample();
    assert t.messages[0] in t.messages;
    assert MessageIds(t.messages) == {1};
  }

  /** Users 1 and 2 in a group owned by user 2; user 1's message, read by user 2. */
  function OrphanExample(): Tables
  {
    Tables(
      map[1 := UserRow("a", Some("h"), None, None, None, None, None, None, None, 0, None, 0),
          2 := UserRow("b", Some("h"), None, None, None, None, None, None, None, 0, None, 0)],
      map[1 := ConversationRow(Some("g"), "group", Some(2), 0, 0)],
      [(1, 1), (1, 2)],
      map[],
      [MessageRow(1, 1, 1, "hi", "text", false, 0)],
      map[(1, 2) := 0],
      {},
      map[],
      3, 2, 2)
  }

  /** The corrected cascade removes the same rows as the one written, and also the orphaned reads. */
  lemma CascadeDiffersOnlyInReads(t: Tables, u: UserId)
    ensures Cascade(t, u) == CascadeAsWritten(t, u).(receipts := Cascade(t, u).receipts)
    ensures forall k :: k in Cascade(t, u).receipts ==> k in CascadeAsWritten(t, u).receipts
  {
  }

  // ---------------------------------------------------------------------------
  // The statements against the store

  /**
   * The loop over the conversations u owns, each with its reads, messages,
   * participant rows and row, in the order the SELECT returned them.
   */
  method DropOwnedConversations(db: Db, u: UserId)
    requires db.Valid()
    modifies db
    ensures db.Valid()
    ensures db.State() == DropAll(old(db.State()), FindUserConversationIds(old(db.State()), u))
  {
    var t1 := db.State();
    var owned := FindUserConversationIds(t1, u);
    var remaining := owned;
    DropNone(t1);
    assert owned - remaining == {};
    while remaining != {}
      invariant remaining <= owned
      invariant db.State() == DropAll(t1, owned - remaining)
      decreases |remaining|
    {
      var c := Choose(remaining);
      DropOneMore(t1, owned - remaining, c);
      DropConversationStep(db, c);
      assert (owned - remaining) + {c} == owned - (remaining - {c});
      remaining := remaining - {c};
    }
    assert remaining == {};
    assert owned - remaining == owned;
    DropAllConsistent(t1, owned);
  }

  /** The next id of the list the SELECT returned. */
  method Choose(s: set<ConvId>) returns (c: ConvId)
    requires s != {}
    ensures c in s
  {
    if forall x: ConvId :: x !in s {
      assert false;
    }
    c :| c in s;
  }

  /** The four statements for one owned conversation, in their dependency order. */
  method DropConversationStep(db: Db, c: ConvId)
    modifies db
    ensures db.State() == DropConversation(old(db.State()), c)
  {
    db.Load(DeleteMessageReadsByConversationId(db.State(), c));
    db.Load(DeleteMessagesByConversationId(db.State(), c));
    db.Load(DeleteConversationParticipantsByConversationId(db.State(), c));
    db.Load(DeleteConversationById(db.State(), c));
  }

  /**
   * removeUserById as written. `failAt` names the statement the store
   * refuses, if any: 1 the user's reads, 2 the user's messages, 3 the
   * user's participant rows, 4 the friendships, 5 the user row. A refusal
   * rolls the transaction back and is rethrown with "删除失败: " in front;
   * otherwise the answer is whether a user row was deleted.
   */
  method RemoveUserById(db: Db, u: UserId, failAt: int, cause: string) returns (r: Result<bool>)
    requires db.Valid()
    modifies db
    ensures db.Valid()
    ensures 1 <= failAt <= 5 ==> r == Err(DeleteFailedPrefix + cause) && db.State() == old(db.State())
    ensures !(1 <= failAt <= 5) ==> r == Ok(u in old(db.users)) && db.State() == CascadeAsWritten(old(db.State()), u)
  {
    var snapshot := db.State();
    if failAt == 1 {
      return Err(DeleteFailedPrefix + cause);
    }
    db.Load(DeleteMessageReads(db.State(), u));
    if failAt == 2 {
      db.Rollback(snapshot);
      return Err(DeleteFailedPrefix + cause);
    }
    db.Load(DeleteMessages(db.State(), u));
    DeleteMessagesConsistent(DeleteMessageReads(snapshot, u), u);
    DropOwnedConversations(db, u);
    r := FinishRemoval(db, u, snapshot, failAt, cause);
    CascadeAsWrittenConsistent(snapshot, u);
  }

  /** Statements 3 to 5 of both cascades, with the rollback a refusal causes. */
  method FinishRemoval(db: Db, u: UserId, snapshot: Tables, failAt: int, cause: string) returns (r: Result<bool>)
    requires db.Valid() && Consistent(snapshot)
    requires db.State().nextUserId == snapshot.nextUserId && db.State().nextConvId == snapshot.nextConvId
    requires db.State().nextMsgId == snapshot.nextMsgId
    modifies db
    ensures 3 <= failAt <= 5 ==> r == Err(DeleteFailedPrefix + cause) && db.State() == snapshot
    ensures !(1 <= failAt <= 5) ==> r == Ok(u in old(db.users)) && db.State() == Finish(old(db.State()), u)
    ensures 1 <= failAt <= 2 ==> r == Ok(u in old(db.users)) && db.State() == Finish(old(db.State()), u)
  {
    if failAt == 3 {
      db.Rollback(snapshot);
      return Err(DeleteFailedPrefix + cause);
    }
    db.Load(DeleteConversationParticipants(db.State(), u));
    if failAt == 4 {
      db.Rollback(snapshot);
      return Err(DeleteFailedPrefix + cause);
    }
    db.Load(DeleteFriendships(db.State(), u));
    if failAt == 5 {
      db.Rollback(snapshot);
      return Err(DeleteFailedPrefix + cause);
    }
    var existed := u in db.users;
    db.Load(RemoveById(db.State(), u));
    r := Ok(existed);
  }

  /**
   * removeUserById with the reads of the user's messages deleted before
   * the messages, so that no read receipt is left without its message.
   */
  method RemoveUserAndReads(db: Db, u: UserId, failAt: int, cause: string) returns (r: Result<bool>)
    requires db.Valid()
    modifies db
    ensures db.Valid()
    ensures 1 <= failAt <= 5 ==> r == Err(DeleteFailedPrefix + cause) && db.State() == old(db.State())
    ensures !(1 <= failAt <= 5) ==> r == Ok(u in old(db.users)) && db.State() == Cascade(old(db.State()), u)
  {
    var snapshot := db.State();
    if failAt == 1 {
      return Err(DeleteFailedPrefix + cause);
    }
    db.Load(DeleteMessageReads(db.State(), u));
    db.Load(DeleteReadsOfMessagesFrom(db.State(), u));
    if failAt == 2 {
      db.Rollback(snapshot);
      return Err(DeleteFailedPrefix + cause);
    }
    db.Load(DeleteMessages(db.State(), u));
    DeleteMessagesConsistent(DeleteReadsOfMessagesFrom(DeleteMessageReads(snapshot, u), u), u);
    DropOwnedConversations(db, u);
    r := FinishRemoval(db, u, snapshot, failAt, cause);
    CascadeConsistent(snapshot, u);
  }

  // ---------------------------------------------------------------------------
  // removeUserByIds

  /**
   * run[k + 1] is run[k] after the removal of ids[k]: the states the batch
   * passes through, as far as run goes.
   */
  ghost predicate IsRunPrefix(run: seq<Tables>, ids: seq<UserId>)
  {
    && 1 <= |run| <= |ids| + 1
    && forall k :: 0 <= k < |run| - 1 ==> RemovedAt(run, ids, k)
  }

  /** The step from run[k] to run[k + 1] removes ids[k] with the cascade as written. */
  ghost predicate RemovedAt(run: seq<Tables>, ids: seq<UserId>, k: nat)
    requires k + 1 < |run| && k < |ids|
  {
    run[k + 1] == CascadeAsWritten(run[k], ids[k])
  }

  /** One more removal extends a run. */
  lemma ExtendRun(run: seq<Tables>, ids: seq<UserId>, next: Tables)
    requires IsRunPrefix(run, ids) && |run| <= |ids|
    requires next == CascadeAsWritten(run[|run| - 1], ids[|run| - 1])
    ensures IsRunPrefix(run + [next], ids)
    ensures (run + [next])[..|run|] == run && (run + [next])[|run|] == next
  {
    var run' := run + [next];
    forall k | 0 <= k < |run'| - 1 ensures RemovedAt(run', ids, k) {
      if k < |run| - 1 {
        assert run'[k] == run[k] && run'[k + 1] == run[k + 1];
        assert RemovedAt(run, ids, k);
      } else {
        assert run'[k] == run[|run| - 1] && run'[k + 1] == next;
      }
    }
    assert run'[..|run|] == run;
  }

  /** The whole run of the batch, from run[0] to the state after the last id. */
  ghost predicate IsRun(run: seq<Tables>, ids: seq<UserId>)
  {
    IsRunPrefix(run, ids) && |run| == |ids| + 1
  }

  /** Every removal of the run finds its user row. */
  ghost predicate BatchSucceeds(run: seq<Tables>, ids: seq<UserId>)
    requires IsRun(run, ids)
  {
    forall k :: 0 <= k < |ids| ==> ids[k] in run[k].users
  }

  /** Either cascade deletes exactly the one user row. */
  lemma CascadeUsers(t: Tables, u: UserId)
    ensures CascadeAsWritten(t, u).users == t.users - {u}
    ensures Cascade(t, u).users == t.users - {u}
  {
    CascadeRemovesUser(t, u);
    CascadeDiffersOnlyInReads(t, u);
  }

  lemma CascadeKeepsCounters(t: Tables, u: UserId)
    ensures CascadeAsWritten(t, u).nextUserId == t.nextUserId && CascadeAsWritten(t, u).nextConvId == t.nextConvId
    ensures CascadeAsWritten(t, u).nextMsgId == t.nextMsgId
  {
  }

  /** A run is determined by its first state. */
  lemma {:induction false} RunUnique(r1: seq<Tables>, r2: seq<Tables>, ids: seq<UserId>, n: nat)
    requires IsRun(r1, ids) && IsRun(r2, ids) && r1[0] == r2[0] && n <= |ids|
    ensures r1[n] == r2[n]
  {
    if n > 0 {
      RunUnique(r1, r2, ids, n - 1);
      assert RemovedAt(r1, ids, n - 1) && RemovedAt(r2, ids, n - 1);
    }
  }

  /** After the first n removals every user not among them is left, and none among them. */
  lemma {:induction false} RunUsers(run: seq<Tables>, ids: seq<UserId>, n: nat)
    requires IsRunPrefix(run, ids) && n < |run|
    ensures forall v :: v in run[n].users <==> v in run[0].users && v !in ids[..n]
  {
    if n > 0 {
      RunUsers(run, ids, n - 1);
      assert RemovedAt(run, ids, n - 1);
      CascadeUsers(run[n - 1], ids[n - 1]);
      assert ids[..n] == ids[..n - 1] + [ids[n - 1]];
    }
  }

  /** The batch leaves every user not in ids, and none in ids. */
  lemma BatchUsers(run: seq<Tables>, ids: seq<UserId>)
    requires IsRun(run, ids)
    ensures forall v :: v in run[|ids|].users <==> v in run[0].users && v !in ids
  {
    RunUsers(run, ids, |ids|);
    assert ids[..|ids|] == ids;
  }

  /** The first n removals all find their user exactly when those ids are distinct ids of existing users. */
  lemma {:induction false} FirstRemovalsFind(run: seq<Tables>, ids: seq<UserId>, n: nat)
    requires IsRun(run, ids) && n <= |ids|
    ensures (forall k :: 0 <= k < n ==> ids[k] in run[k].users) <==>
      NoDuplicates(ids[..n]) && forall k :: 0 <= k < n ==> ids[k] in run[0].users
  {
    if n > 0 {
      FirstRemovalsFind(run, ids, n - 1);
      RunUsers(run, ids, n - 1);
      NoDuplicatesSnoc(ids[..n - 1], ids[n - 1]);
      assert ids[..n] == ids[..n - 1] + [ids[n - 1]];
    }
  }

  lemma NoDuplicatesSnoc(init: seq<UserId>, x: UserId)
    ensures NoDuplicates(init + [x]) <==> NoDuplicates(init) && x !in init
  {
    var ids := init + [x];
    if NoDuplicates(ids) {
      forall j | 0 <= j < |init| ensures init[j] != x {
        assert ids[j] == init[j] && ids[|init|] == x;
      }
      forall i, j | 0 <= i < j < |init| ensures init[i] != init[j] {
        assert ids[i] == init[i] && ids[j] == init[j];
      }
    }
    if NoDuplicates(init) && x !in init {
      forall i, j | 0 <= i < j < |ids| ensures ids[i] != ids[j] {
        if j == |ids| - 1 {
          assert ids[i] == init[i];
        } else {
          assert ids[i] == init[i] && ids[j] == init[j];
        }
      }
    }
  }

  /** A batch succeeds exactly when its ids are distinct ids of existing users. */
  lemma BatchSucceedsIff(run: seq<Tables>, ids: seq<UserId>)
    requires IsRun(run, ids)
    ensures BatchSucceeds(run, ids) <==> NoDuplicates(ids) && forall k :: 0 <= k < |ids| ==> ids[k] in run[0].users
  {
    FirstRemovalsFind(run, ids, |ids|);
    assert ids[..|ids|] == ids;
  }

  /** A batch naming a user twice is always rolled back. */
  lemma RepeatedIdFailsBatch(run: seq<Tables>, ids: seq<UserId>, i: nat, j: nat)
    requires IsRun(run, ids) && i < j < |ids| && ids[i] == ids[j]
    ensures !BatchSucceeds(run, ids)
  {
    BatchSucceedsIff(run, ids);
  }

  /** The message for a removal that found no user. */
  function NotRemoved(u: UserId): string
  {
    "删除用户ID=" + IntToString(u) + "失败"
  }

  lemma PrefixedStartsWith(prefix: string, rest: string)
    ensures StartsWith(prefix + rest, prefix)
  {
    assert (prefix + rest)[..|prefix|] == prefix;
  }

  /** The rest of the run, past the removal the batch stopped at. */
  ghost method CompleteRun(run: seq<Tables>, ids: seq<UserId>) returns (full: seq<Tables>)
    requires IsRunPrefix(run, ids)
    ensures IsRun(full, ids) && full[..|run|] == run
  {
    full := run;
    while |full| < |ids| + 1
      invariant IsRunPrefix(full, ids) && |run| <= |full| && full[..|run|] == run
      decreases |ids| + 1 - |full|
    {
      var next := CascadeAsWritten(full[|full| - 1], ids[|full| - 1]);
      ExtendRun(full, ids, next);
      assert (full + [next])[..|run|] == full[..|run|];
      full := full + [next];
    }
  }

  /**
   * The removal of ids[i], the one at index `failing` refused by the store;
   * a removal that stops the batch completes the run past it.
   */
  method RemoveAt(db: Db, ghost snapshot: Tables, ids: seq<UserId>, i: nat, failing: int, cause: string,
                  ghost run: seq<Tables>)
    returns (res: Result<bool>, ghost run': seq<Tables>)
    requires db.Valid() && i < |ids| && |run| == i + 1 && IsRunPrefix(run, ids) && db.State() == run[i]
    requires run[0] == snapshot && forall k :: 0 <= k < i ==> ids[k] in run[k].users
    modifies db
    ensures db.Valid()
    ensures db.nextUserId == old(db.nextUserId) && db.nextConvId == old(db.nextConvId)
    ensures db.nextMsgId == old(db.nextMsgId)
    ensures |run'| >= 1 && run'[0] == snapshot
    ensures res.Err? || !res.value ==> IsRun(run', ids) && !(BatchSucceeds(run', ids) && !(0 <= failing < |ids|))
    ensures res.Ok? && res.value ==> && i != failing && |run'| == i + 2 && IsRunPrefix(run', ids)
                                     && db.State() == run'[i + 1]
                                     && forall k :: 0 <= k < i + 1 ==> ids[k] in run'[k].users
  {
    res := RemoveUserById(db, ids[i], if i == failing then 1 else 0, cause);
    CascadeKeepsCounters(run[i], ids[i]);
    if res.Err? || !res.value {
      run' := CompleteRun(run, ids);
      assert run'[i] == run[i] && run'[0] == run[0];
      return;
    }
    var next := db.State();
    ExtendRun(run, ids, next);
    run' := run + [next];
    forall k | 0 <= k < i + 1 ensures ids[k] in run'[k].users {
      assert run'[k] == run[k];
    }
  }

  /** ROLLBACK of the whole batch, and its error. */
  method RollbackBatch(db: Db, snapshot: Tables, e: string) returns (r: Result<bool>)
    requires Consistent(snapshot)
    requires db.nextUserId == snapshot.nextUserId && db.nextConvId == snapshot.nextConvId
    requires db.nextMsgId == snapshot.nextMsgId
    modifies db
    ensures db.Valid() && db.State() == snapshot
    ensures r == Err(BatchFailedPrefix + e) && StartsWith(r.error, BatchFailedPrefix)
  {
    db.Rollback(snapshot);
    PrefixedStartsWith(BatchFailedPrefix, e);
    r := Err(BatchFailedPrefix + e);
  }

  /**
   * removeUserByIds: the removals one after the other in one transaction;
   * a removal that finds no user, or a statement the store refuses (the
   * removal at index `failing`), rolls every removal back. Each removal is
   * `removeUserById` as written; `run` is the run of the whole batch from
   * the tables as they were.
   */
  method RemoveUserByIds(db: Db, ids: seq<UserId>, failing: int, cause: string)
    returns (r: Result<bool>, ghost run: seq<Tables>)
    requires db.Valid()
    modifies db
    ensures db.Valid()
    ensures IsRun(run, ids) && run[0] == old(db.State())
    ensures r.Ok? <==> BatchSucceeds(run, ids) && !(0 <= failing < |ids|)
    ensures r.Ok? ==> r.value && db.State() == run[|ids|]
    ensures r.Err? ==> db.State() == old(db.State()) && StartsWith(r.error, BatchFailedPrefix)
  {
    var snapshot := db.State();
    run := [snapshot];
    var i := 0;
    while i < |ids|
      invariant 0 <= i <= |ids| && |run| == i + 1
      invariant IsRunPrefix(run, ids) && run[0] == snapshot
      invariant db.Valid() && db.State() == run[i] && Consistent(snapshot)
      invariant db.nextUserId == snapshot.nextUserId && db.nextConvId == snapshot.nextConvId
      invariant db.nextMsgId == snapshot.nextMsgId
      invariant forall k :: 0 <= k < i ==> ids[k] in run[k].users
      invariant !(0 <= failing < i)
    {
      var res;
      res, run := RemoveAt(db, snapshot, ids, i, failing, cause, run);
      if res.Err? || !res.value {
        r := RollbackBatch(db, snapshot, if res.Err? then res.error else NotRemoved(ids[i]));
        return;
      }
      i := i + 1;
    }
    r := Ok(true);
  }
}
