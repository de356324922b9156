/**
 * The /api/users routes: the user search guard, the add-friend guard chain
 * with its error mapping, and the profile update built from the form
 * fields and the uploaded avatar.
 */
module UsersRoute {
  import opened Common
  import opened Strings
  import opened Store
  import opened Http
  import UserModel
  import Upload

  // ---------------------------------------------------------------------------
  // GET /search

  /** GET /search: [] for a missing or blank query, else searchUsers on the trimmed query. */
  function Search(t: Tables, query: Option<string>, me: UserId): (r: seq<UserModel.SearchHit>)
    requires Consistent(t)
    ensures query.None? || JsTrim(query.value) == "" ==> r == []
    ensures forall h :: h in r ==>
      query.Some? && Contains(h.username, JsTrim(query.value)) && h.id != me && (me, h.id) !in t.friendships
  {
    if query.None? || JsTrim(query.value) == "" then []
    else
      var q := JsTrim(query.value);
      assert forall h :: h in UserModel.SearchUsers(t, q, me) ==> Contains(h.username, q) by {
        forall h | h in UserModel.SearchUsers(t, q, me) ensures Contains(h.username, q) {
          UserModel.SearchExcludesSelfAndFriends(t, q, me, h);
        }
      }
      UserModel.SearchUsers(t, q, me)
  }

  /** A query of white space only finds nothing, and white space around a query changes nothing. */
  lemma SearchIgnoresSurroundingSpace(t: Tables, q: string, me: UserId)
    requires Consistent(t)
    ensures (forall i :: 0 <= i < |q| ==> IsJsSpace(q[i])) ==> Search(t, Some(q), me) == []
    ensures Search(t, Some(q), me) == Search(t, Some(JsTrim(q)), me)
  {
    JsTrimEmpty(q);
    JsTrimIdempotent(q);
  }

  // ---------------------------------------------------------------------------
  // POST /friends/add/:userId

  const SelfFriend: string := "不能添加自己为好友"
  const NoSuchUser: string := "用户不存在"
  const AlreadyFriends: string := "已经是好友了"
  const AddFriendFailed: string := "添加好友失败"

  /**
   * POST /friends/add/:userId: the id is read with parseInt; the caller's
   * own id is refused (400), an id with no user row (or no number at all)
   * gets 404; then addFriend runs, and its error maps to 400 for a
   * duplicate key and to 500 otherwise.
   */
  method AddFriend(db: Db, me: UserId, param: string, now: Time, failAt: int) returns (r: Reply<ConvId>)
    requires db.Valid()
    modifies db
    ensures db.Valid()
    ensures JsParseInt(param) == Some(me) ==> r == Refusal(BadRequest, SelfFriend) && db.State() == old(db.State())
    ensures JsParseInt(param) != Some(me) && (JsParseInt(param).None? || JsParseInt(param).value !in old(db.users)) ==>
      r == Refusal(NotFound, NoSuchUser) && db.State() == old(db.State())
    ensures r.Answer? ==>
      var f := JsParseInt(param).value;
      r.status == Success && f != me && f in old(db.users)
      && (me, f) in db.friendships
      && r.value in db.conversations && db.conversations[r.value].kind == "private"
      && (r.value, me) in db.participants && (r.value, f) in db.participants
    ensures r.Refusal? ==> r.error in {SelfFriend, NoSuchUser, AlreadyFriends, AddFriendFailed}
    ensures r.Refusal? ==> db.State() == old(db.State()).(nextConvId := db.nextConvId)
    ensures
      var f := JsParseInt(param);
      f.Some? && f.value != me && f.value in old(db.users) && failAt == 0
      && (me, f.value) !in old(db.friendships) && (f.value, me) in old(db.friendships) ==>
      r == Refusal(BadRequest, AlreadyFriends)
  {
    var f := JsParseInt(param);
    if f == Some(me) {
      return Refusal(BadRequest, SelfFriend);
    }
    if f.None? || UserModel.FindById(db.State(), f.value).None? {
      return Refusal(NotFound, NoSuchUser);
    }
    var res := UserModel.AddFriend(db, me, f.value, now, failAt);
    if res.Ok? {
      r := Answer(Success, res.value);
    } else if res.error == DupEntryCode {
      r := Refusal(BadRequest, AlreadyFriends);
    } else {
      r := Refusal(ServerError, AddFriendFailed);
    }
  }

  // ---------------------------------------------------------------------------
  // PUT /profile

  const ProfileFailed: string := "更新个人资料失败"

  /** The path an uploaded avatar is served under. */
  function AvatarPath(filename: string): string
  {
    "/uploads/avatars/" + filename
  }

  /** The entry a truthy nickname contributes. */
  function NicknameEntry(nickname: Option<string>): (e: Option<UserModel.ProfileUpdate>)
    ensures e.Some? ==> e.value.SetNickname?
  {
    if nickname.Some? && nickname.value != "" then Some(UserModel.SetNickname(nickname.value)) else None
  }

  function GenderEntry(gender: Option<string>): (e: Option<UserModel.ProfileUpdate>)
    ensures e.Some? ==> e.value.SetGender?
  {
    if gender.Some? && gender.value != "" then Some(UserModel.SetGender(gender.value)) else None
  }

  /** A non-empty age that parseInt cannot read: the updates object then holds `age: NaN`. */
  predicate AgeUnreadable(age: Option<string>)
  {
    age.Some? && age.value != "" && JsParseInt(age.value).None?
  }

  /**
   * `parseInt(age)` for a truthy age: the number parseInt reads, or the
   * NaN entry when it reads none.
   */
  function AgeEntry(age: Option<string>): (e: Option<UserModel.ProfileUpdate>)
    ensures e.None? <==> age.None? || age.value == ""
    ensures e.Some? && e.value.SetAge? <==> age.Some? && age.value != "" && JsParseInt(age.value).Some?
    ensures e.Some? && e.value.SetAge? ==> JsParseInt(age.value) == Some(e.value.age)
    ensures e == Some(UserModel.SetAgeNaN) <==> AgeUnreadable(age)
    ensures e.Some? ==> e.value.SetAge? || e.value.SetAgeNaN?
  {
    if age.Some? && age.value != "" then
      var n := JsParseInt(age.value);
      if n.Some? then Some(UserModel.SetAge(n.value)) else Some(UserModel.SetAgeNaN)
    else None
  }

  function AvatarEntry(avatar: Option<string>): (e: Option<UserModel.ProfileUpdate>)
    ensures e.Some? ==> e.value.SetAvatar?
  {
    if avatar.Some? then Some(UserModel.SetAvatar(AvatarPath(avatar.value))) else None
  }

  function Present(e: Option<UserModel.ProfileUpdate>): (r: seq<UserModel.ProfileUpdate>)
    ensures forall x :: x in r <==> e == Some(x)
  {
    if e.Some? then [e.value] else []
  }

  /**
   * The updates object: nickname and gender when truthy, age (a number or
   * NaN) when truthy, then the avatar path when a file came with the
   * request.
   */
  function ProfileUpdates(nickname: Option<string>, gender: Option<string>, age: Option<string>,
                          avatar: Option<string>): (r: seq<UserModel.ProfileUpdate>)
    ensures |r| <= 4
    ensures nickname.Some? && nickname.value != "" ==> |r| >= 1 && r[0] == UserModel.SetNickname(nickname.value)
    ensures AgeUnreadable(age) ==> r != []
  {
    Present(NicknameEntry(nickname)) + Present(GenderEntry(gender))
    + Present(AgeEntry(age)) + Present(AvatarEntry(avatar))
  }

  /** An update is listed exactly when its entry is present. */
  lemma {:induction false} ProfileUpdatesEntries(nickname: Option<string>, gender: Option<string>, age: Option<string>,
                                                 avatar: Option<string>, x: UserModel.ProfileUpdate)
    ensures x in ProfileUpdates(nickname, gender, age, avatar) <==>
      NicknameEntry(nickname) == Some(x) || GenderEntry(gender) == Some(x)
      || AgeEntry(age) == Some(x) || AvatarEntry(avatar) == Some(x)
  {
    var n, g, a, v := Present(NicknameEntry(nickname)), Present(GenderEntry(gender)),
                      Present(AgeEntry(age)), Present(AvatarEntry(avatar));
    assert ProfileUpdates(nickname, gender, age, avatar) == n + g + a + v;
    assert x in n + g + a + v <==> x in n || x in g || x in a || x in v;
  }

  /**
   * The updates object holds the nickname and the gender when they are
   * truthy, the age when it is truthy and parseInt reads it, the NaN age
   * when it is truthy and parseInt reads nothing, and the avatar path
   * exactly when a file came with the request.
   */
  lemma ProfileUpdatesHold(nickname: Option<string>, gender: Option<string>, age: Option<string>,
                           avatar: Option<string>)
    ensures var r := ProfileUpdates(nickname, gender, age, avatar);
      && (forall n :: UserModel.SetNickname(n) in r <==> nickname == Some(n) && n != "")
      && (forall g :: UserModel.SetGender(g) in r <==> gender == Some(g) && g != "")
      && (forall a :: UserModel.SetAge(a) in r <==> age.Some? && age.value != "" && JsParseInt(age.value) == Some(a))
      && (UserModel.SetAgeNaN in r <==> AgeUnreadable(age))
      && (forall p :: UserModel.SetAvatar(p) in r <==> avatar.Some? && p == AvatarPath(avatar.value))
  {
    forall n ensures UserModel.SetNickname(n) in ProfileUpdates(nickname, gender, age, avatar) <==> nickname == Some(n) && n != "" {
      ProfileUpdatesEntries(nickname, gender, age, avatar, UserModel.SetNickname(n));
    }
    forall g ensures UserModel.SetGender(g) in ProfileUpdates(nickname, gender, age, avatar) <==> gender == Some(g) && g != "" {
      ProfileUpdatesEntries(nickname, gender, age, avatar, UserModel.SetGender(g));
    }
    forall a ensures UserModel.SetAge(a) in ProfileUpdates(nickname, gender, age, avatar)
                     <==> age.Some? && age.value != "" && JsParseInt(age.value) == Some(a) {
      ProfileUpdatesEntries(nickname, gender, age, avatar, UserModel.SetAge(a));
    }
    ProfileUpdatesEntries(nickname, gender, age, avatar, UserModel.SetAgeNaN);
    forall p ensures UserModel.SetAvatar(p) in ProfileUpdates(nickname, gender, age, avatar)
                     <==> avatar.Some? && p == AvatarPath(avatar.value) {
      ProfileUpdatesEntries(nickname, gender, age, avatar, UserModel.SetAvatar(p));
    }
  }

  /**
   * PUT /profile: updateProfile with the updates object, then findById of
   * the caller. An unreadable age fails the UPDATE, even when it is the only
   * entry; `fails` stands for any other store error; any error answers 500.
   */
  method UpdateProfile(db: Db, me: UserId, nickname: Option<string>, gender: Option<string>,
                       age: Option<string>, avatar: Option<string>, fails: bool)
    returns (r: Reply<Option<UserModel.UserView>>)
    requires db.Valid()
    modifies db
    ensures db.Valid()
    ensures var updates := ProfileUpdates(nickname, gender, age, avatar);
      r.Answer? <==> !AgeUnreadable(age) && (updates == [] || !fails)
    ensures var updates := ProfileUpdates(nickname, gender, age, avatar);
      r.Answer? && updates != [] && me in old(db.users) ==>
      db.State() == old(db.State()).(users := old(db.users)[me := UserModel.ApplyAll(old(db.users)[me], updates)])
    ensures r.Answer? ==> r.status == Success && r.value == UserModel.FindById(db.State(), me)
    ensures r.Refusal? ==> r == Refusal(ServerError, ProfileFailed)
    ensures r.Refusal? || ProfileUpdates(nickname, gender, age, avatar) == [] || me !in old(db.users) ==>
      db.State() == old(db.State())
  {
    var updates := ProfileUpdates(nickname, gender, age, avatar);
    ProfileUpdatesHold(nickname, gender, age, avatar);
    var res := UserModel.UpdateProfile(db, me, updates, fails);
    if res.Err? {
      return Refusal(ServerError, ProfileFailed);
    }
    r := Answer(Success, UserModel.FindById(db.State(), me));
  }

  /**
   * An age of "abc" and nothing else still gives a non-empty updates object,
   * `{ age: NaN }`, so the UPDATE runs and fails rather than being skipped.
   */
  lemma LoneUnreadableAge()
    ensures AgeUnreadable(Some("abc"))
    ensures ProfileUpdates(None, None, Some("abc"), None) == [UserModel.SetAgeNaN]
  {
    JsTrimStartKeeps("abc");
    assert !IsDigit('a');
  }

  /** A new nickname from the form is the nickname the route answers with. */
  lemma NicknameShownAfterUpdate(row: UserRow, n: string, gender: Option<string>, age: Option<string>,
                                 avatar: Option<string>)
    requires n != ""
    ensures var updates := ProfileUpdates(Some(n), gender, age, avatar);
      OrElse(UserModel.ApplyAll(row, updates).nickname, row.username) == n
  {
    var rest := OtherUpdates(gender, age, avatar);
    NicknameComesFirst(n, gender, age, avatar);
    OtherUpdatesKeepNickname(gender, age, avatar);
    UserModel.NicknameAfterUpdate(row, rest, n);
  }

  /** The updates after the nickname entry. */
  function OtherUpdates(gender: Option<string>, age: Option<string>, avatar: Option<string>): seq<UserModel.ProfileUpdate>
  {
    Present(GenderEntry(gender)) + Present(AgeEntry(age)) + Present(AvatarEntry(avatar))
  }

  lemma NicknameComesFirst(n: string, gender: Option<string>, age: Option<string>, avatar: Option<string>)
    requires n != ""
    ensures ProfileUpdates(Some(n), gender, age, avatar) == [UserModel.SetNickname(n)] + OtherUpdates(gender, age, avatar)
  {
    var g, a, v := Present(GenderEntry(gender)), Present(AgeEntry(age)), Present(AvatarEntry(avatar));
    assert Present(NicknameEntry(Some(n))) == [UserModel.SetNickname(n)];
    assert [UserModel.SetNickname(n)] + g + a + v == [UserModel.SetNickname(n)] + (g + a + v);
  }

  lemma OtherUpdatesKeepNickname(gender: Option<string>, age: Option<string>, avatar: Option<string>)
    ensures forall i :: 0 <= i < |OtherUpdates(gender, age, avatar)| ==> !OtherUpdates(gender, age, avatar)[i].SetNickname?
  {
    var g, a, v := Present(GenderEntry(gender)), Present(AgeEntry(age)), Present(AvatarEntry(avatar));
    var rest := g + a + v;
    forall i | 0 <= i < |rest| ensures !rest[i].SetNickname? {
      assert rest[i] in g || rest[i] in a || rest[i] in v;
    }
  }

  /** The avatar path names the folder multer stores avatars in, followed by the stored file name. */
  lemma AvatarPathNamesStoredFile(mimetype: string, size: nat, originalname: string, stamp: nat, suffix: nat)
    requires Upload.Receive("avatar", mimetype, size, originalname, stamp, suffix).Ok?
    ensures var f := Upload.Receive("avatar", mimetype, size, originalname, stamp, suffix).value;
      AvatarPath(f.filename) == "/" + f.dir + "/" + f.filename && StartsWith(mimetype, "image/")
  {
    var f := Upload.Receive("avatar", mimetype, size, originalname, stamp, suffix).value;
    assert f.dir == "uploads/avatars";
    AvatarFolderSlashed();
    assert AvatarPath(f.filename) == "/uploads/avatars/" + f.filename;
  }

  lemma AvatarFolderSlashed()
    ensures "/" + "uploads/avatars" + "/" == "/uploads/avatars/"
  {
  }
}
