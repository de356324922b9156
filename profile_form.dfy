/**
 * The profile dialog: the avatar pre-check, the initial values, the
 * multipart body `onFinish` assembles, and the user object stored after
 * the server answers.
 */
module ProfileForm {
  import opened Common
  import opened Strings
  import opened Store
  import UserModel
  import Upload
  import UsersRoute

  // ---------------------------------------------------------------------------
  // beforeUpload

  const TooBig: string := "图片必须小于 2MB！"

  /** `file.size / 1024 / 1024 < 2`, in bytes. */
  const AvatarLimit: nat := 2 * 1024 * 1024

  datatype AvatarCheck = AvatarCheck(accepted: bool, errors: seq<string>)

  /** `beforeUpload`: an image under 2 MiB; each failed condition shows its message. */
  function BeforeUpload(mimetype: string, size: nat): (r: AvatarCheck)
    ensures r.accepted <==> StartsWith(mimetype, "image/") && size < AvatarLimit
    ensures r.errors == [] <==> r.accepted
    ensures Upload.ImageOnly in r.errors <==> !StartsWith(mimetype, "image/")
    ensures TooBig in r.errors <==> size >= AvatarLimit
  {
    var isImage := StartsWith(mimetype, "image/");
    var small := size < AvatarLimit;
    AvatarCheck(isImage && small, (if isImage then [] else [Upload.ImageOnly]) + (if small then [] else [TooBig]))
  }

  /** An avatar the dialog accepts also passes the server's filter and size limit. */
  lemma AcceptedAvatarStored(mimetype: string, size: nat, originalname: string, stamp: nat, suffix: nat)
    requires BeforeUpload(mimetype, size).accepted
    ensures Upload.Receive("avatar", mimetype, size, originalname, stamp, suffix).Ok?
    ensures Upload.Receive("avatar", mimetype, size, originalname, stamp, suffix).value.dir == "uploads/avatars"
  {
  }

  // ---------------------------------------------------------------------------
  // Initial values

  /** The logged-in user as the dialog receives it. */
  datatype Account = Account(username: string, nickname: Option<string>, gender: Option<string>, age: Option<int>)

  /** The InputNumber's value: absent from the values object, cleared (null) or a number. */
  datatype AgeField = AgeAbsent | AgeCleared | AgeNumber(n: int)

  datatype FormValues = FormValues(nickname: string, gender: string, age: AgeField, avatar: Option<seq<UploadItem>>)

  /** An entry of the avatar field's file list; `picked` is its originFileObj. */
  datatype UploadItem = UploadItem(picked: Option<string>)

  /** `nickname || username`, `gender || 'male'`, `age || 18`; no avatar entry. */
  function InitialValues(u: Account): (v: FormValues)
    ensures v.nickname == OrElse(u.nickname, u.username)
    ensures v.gender == OrElse(u.gender, "male")
    ensures v.age == AgeNumber(if u.age.Some? && u.age.value != 0 then u.age.value else 18)
    ensures v.avatar.None?
  {
    FormValues(OrElse(u.nickname, u.username), OrElse(u.gender, "male"),
               AgeNumber(if u.age.Some? && u.age.value != 0 then u.age.value else 18), None)
  }

  /** Opening the dialog shows the name the chat shows, so the required nickname rule holds at once. */
  lemma InitialNicknameShown(users: map<UserId, UserRow>, u: UserId)
    requires u in users && users[u].username != ""
    ensures var row := users[u];
      InitialValues(Account(row.username, row.nickname, row.gender, row.age)).nickname
        == UserModel.View(users, u).nickname != ""
  {
  }

  // ---------------------------------------------------------------------------
  // The dialog's rules

  const NeedNickname: string := "请输入昵称"
  const MinAge: int := 1
  const MaxAge: int := 120

  /** The nickname field is required; onFinish runs only when it is filled in. */
  function Validate(v: FormValues): (r: Option<string>)
    ensures r.None? <==> v.nickname != ""
  {
    if v.nickname == "" then Some(NeedNickname) else None
  }

  /** The InputNumber's min and max: a number typed outside 1..120 is set to the nearer bound. */
  function ClampAge(n: int): (a: int)
    ensures MinAge <= a <= MaxAge
    ensures MinAge <= n <= MaxAge ==> a == n
    ensures n < MinAge ==> a == MinAge
    ensures n > MaxAge ==> a == MaxAge
  {
    if n < MinAge then MinAge else if n > MaxAge then MaxAge else n
  }

  // ---------------------------------------------------------------------------
  // onFinish

  datatype FormEntry = TextEntry(key: string, text: string) | FileEntry(key: string, file: string)

  /** `values.avatar?.[0]?.originFileObj`. */
  function NewAvatar(avatar: Option<seq<UploadItem>>): Option<string>
  {
    if avatar.Some? && |avatar.value| > 0 then avatar.value[0].picked else None
  }

  /** The JavaScript error `null.toString()` raises. */
  const NullAge: string := "Cannot read properties of null (reading 'toString')"

  /**
   * `onFinish` as written: appends nickname and gender when truthy, the
   * age whenever it is not undefined, then the new avatar file. A cleared
   * age is null: `toString` throws and nothing is sent.
   */
  method OnFinish(v: FormValues) returns (r: Result<seq<FormEntry>>)
    ensures r.Err? <==> v.age == AgeCleared
    ensures r.Ok? ==>
      (TextEntry("nickname", v.nickname) in r.value <==> v.nickname != "")
      && (TextEntry("gender", v.gender) in r.value <==> v.gender != "")
      && (forall n :: TextEntry("age", n) in r.value <==> v.age.AgeNumber? && n == IntToString(v.age.n))
      && (forall f :: FileEntry("avatar", f) in r.value <==> NewAvatar(v.avatar) == Some(f))
      && |r.value| <= 4
  {
    var fd: seq<FormEntry> := [];
    if v.nickname != "" {
      fd := fd + [TextEntry("nickname", v.nickname)];
    }
    if v.gender != "" {
      fd := fd + [TextEntry("gender", v.gender)];
    }
    if v.age != AgeAbsent {
      if v.age == AgeCleared {
        return Err(NullAge);
      }
      fd := fd + [TextEntry("age", IntToString(v.age.n))];
    }
    if NewAvatar(v.avatar).Some? {
      fd := fd + [FileEntry("avatar", NewAvatar(v.avatar).value)];
    }
    r := Ok(fd);
  }

  /**
   * `onFinish` with a cleared age treated like an absent one: the body is
   * always built, and carries an age exactly when a number was entered.
   */
  method OnFinishSkippingClearedAge(v: FormValues) returns (fd: seq<FormEntry>)
    ensures TextEntry("nickname", v.nickname) in fd <==> v.nickname != ""
    ensures TextEntry("gender", v.gender) in fd <==> v.gender != ""
    ensures forall n :: TextEntry("age", n) in fd <==> v.age.AgeNumber? && n == IntToString(v.age.n)
    ensures forall f :: FileEntry("avatar", f) in fd <==> NewAvatar(v.avatar) == Some(f)
    ensures |fd| <= 4
  {
    fd := [];
    if v.nickname != "" {
      fd := fd + [TextEntry("nickname", v.nickname)];
    }
    if v.gender != "" {
      fd := fd + [TextEntry("gender", v.gender)];
    }
    if v.age.AgeNumber? {
      fd := fd + [TextEntry("age", IntToString(v.age.n))];
    }
    if NewAvatar(v.avatar).Some? {
      fd := fd + [FileEntry("avatar", NewAvatar(v.avatar).value)];
    }
  }

  /**
   * The age the dialog sends is the age the server writes: parseInt reads
   * back the number toString wrote, for every integer a JavaScript number
   * holds exactly.
   */
  lemma SentAgeStored(v: FormValues)
    requires v.age.AgeNumber? && -JsSafeIntMax <= v.age.n <= JsSafeIntMax
    ensures UsersRoute.AgeEntry(Some(IntToString(v.age.n))) == Some(UserModel.SetAge(v.age.n))
  {
    JsParseIntRoundTrip(v.age.n);
  }

  // ---------------------------------------------------------------------------
  // The stored user

  /** The JSON object of the findById view that PUT /profile answers with. */
  function ResponseFields(v: UserModel.UserView): (r: map<string, JsValue>)
    ensures r.Keys == {"id", "username", "nickname", "avatar", "gender", "age", "is_online", "last_seen"}
  {
    map[
      "id" := JsNumber(v.id),
      "username" := JsString(v.username),
      "nickname" := JsString(v.nickname),
      "avatar" := (if v.avatar.Some? then JsString(v.avatar.value) else JsNull),
      "gender" := (if v.gender.Some? then JsString(v.gender.value) else JsNull),
      "age" := (if v.age.Some? then JsNumber(v.age.value) else JsNull),
      "is_online" := JsNumber(v.isOnline),
      "last_seen" := (if v.lastSeen.Some? then JsNumber(v.lastSeen.value) else JsNull)]
  }

  /** `{ ...user, ...response.data }`: every key of both, the response's value where it has one. */
  function Overlay(user: map<string, JsValue>, response: map<string, JsValue>): (r: map<string, JsValue>)
    ensures r.Keys == user.Keys + response.Keys
    ensures forall k :: k in response ==> r[k] == response[k]
    ensures forall k :: k in user && k !in response ==> r[k] == user[k]
  {
    user + response
  }

  /** The stored user keeps its token and takes the profile fields the server answered with. */
  lemma StoredUserKeepsToken(user: map<string, JsValue>, v: UserModel.UserView)
    requires "token" in user
    ensures var stored := Overlay(user, ResponseFields(v));
      stored["token"] == user["token"] && stored["nickname"] == JsString(v.nickname)
  {
  }
}
