/**
 * The /api/auth routes: registration with its uniqueness checks on
 * username, then phone, then email; and login with one answer for an
 * unknown user and a wrong password. bcrypt is abstracted: registration
 * receives the hash bcrypt made, login a `matches` predicate standing for
 * bcrypt.compare. jwt.sign is abstracted to the claims it signs.
 */
module AuthRoute {
  import opened Common
  import opened Store
  import opened Http
  import UserModel
  import UserService

  const UsernameTaken: string := "用户名已存在"
  const PhoneTaken: string := "手机号已被注册"
  const EmailTaken: string := "邮箱已被注册"
  const RegisterFailed: string := "注册失败，请稍后重试"
  const Registered: string := "注册成功"

  /** The register body; an absent field is None. */
  datatype Registration = Registration(
    username: Option<string>,
    password: Option<string>,
    phone: Option<string>,
    email: Option<string>,
    address: Option<string>)

  /**
   * The checks of POST /register in their order, up to the insert: the
   * refusal of the first one that fails, if any. An absent field reaches
   * the driver as an undefined bind value (or bcrypt as an undefined
   * password), which throws: 500.
   */
  function RegisterCheck(t: Tables, form: Registration): (r: Option<Reply<string>>)
    requires Consistent(t)
    ensures r.Some? ==> r.value.Refusal? && r.value.status in {BadRequest, ServerError}
    ensures r.None? <==>
      form.username.Some? && form.password.Some? && form.phone.Some? && form.email.Some? && form.address.Some?
      && (forall u :: u in t.users ==> t.users[u].username != form.username.value)
      && (forall u :: u in t.users ==> t.users[u].phone != Some(form.phone.value))
      && (forall u :: u in t.users ==> t.users[u].email != Some(form.email.value))
  {
    if form.username.None? then Some(Refusal(ServerError, RegisterFailed))
    else if UserModel.FindByUsername(t, form.username.value).Some? then Some(Refusal(BadRequest, UsernameTaken))
    else if form.phone.None? then Some(Refusal(ServerError, RegisterFailed))
    else if UserModel.FindByPhone(t, form.phone.value).Some? then Some(Refusal(BadRequest, PhoneTaken))
    else if form.email.None? then Some(Refusal(ServerError, RegisterFailed))
    else if UserModel.FindByEmail(t, form.email.value).Some? then Some(Refusal(BadRequest, EmailTaken))
    else if form.password.None? || form.address.None? then Some(Refusal(ServerError, RegisterFailed))
    else None
  }

  /**
   * The checks run in order: a taken username is reported whatever the
   * phone and email, a taken phone only for a free username, a taken email
   * only for a free username and phone.
   */
  lemma RegisterCheckOrder(t: Tables, form: Registration)
    requires Consistent(t)
    requires form.username.Some? && form.phone.Some? && form.email.Some?
    ensures (exists u :: u in t.users && t.users[u].username == form.username.value) ==>
      RegisterCheck(t, form) == Some(Refusal(BadRequest, UsernameTaken))
    ensures RegisterCheck(t, form) == Some(Refusal(BadRequest, PhoneTaken)) <==>
      (forall u :: u in t.users ==> t.users[u].username != form.username.value)
      && (exists u :: u in t.users && t.users[u].phone == Some(form.phone.value))
    ensures RegisterCheck(t, form) == Some(Refusal(BadRequest, EmailTaken)) <==>
      (forall u :: u in t.users ==> t.users[u].username != form.username.value)
      && (forall u :: u in t.users ==> t.users[u].phone != Some(form.phone.value))
      && (exists u :: u in t.users && t.users[u].email == Some(form.email.value))
  {
  }

  /**
   * POST /register: when every check passes, User.create inserts the user
   * (nickname = username, password = bcrypt's `hash`) and 201 is answered;
   * otherwise the first failing check's refusal, with nothing written.
   */
  method Register(db: Db, form: Registration, hash: string, now: Time) returns (r: Reply<string>)
    requires db.Valid()
    modifies db
    ensures db.Valid()
    ensures RegisterCheck(old(db.State()), form).Some? ==>
      r == RegisterCheck(old(db.State()), form).value && db.State() == old(db.State())
    ensures RegisterCheck(old(db.State()), form).None? ==>
      r == Answer(Created, Registered) && db.State() == AfterRegistration(old(db.State()), form, hash, now)
  {
    var check := RegisterCheck(db.State(), form);
    if check.Some? {
      return check.value;
    }
    var id := UserModel.Create(db, form.username.value, hash, form.phone, form.email, form.address, now);
    r := Answer(Created, Registered);
  }

  /**
   * The tables after a successful registration: one new user row, at the
   * next id, nickname = username.
   */
  function AfterRegistration(t: Tables, form: Registration, hash: string, now: Time): (t': Tables)
    requires Consistent(t) && RegisterCheck(t, form).None?
    ensures t'.users.Keys == t.users.Keys + {t.nextUserId} && t.nextUserId !in t.users
    ensures t'.users[t.nextUserId].username == form.username.value && t'.users[t.nextUserId].password == Some(hash)
    ensures forall u :: u in t.users ==> t'.users[u] == t.users[u]
  {
    t.(users := t.users[t.nextUserId := UserModel.NewUser(form.username.value, hash, form.phone, form.email,
                                                           form.address, now)],
       nextUserId := t.nextUserId + 1)
  }

  /** Registering the same form twice: the second attempt is refused for the username. */
  lemma RegisterTwiceRefused(t: Tables, form: Registration, hash: string, now: Time)
    requires Consistent(t) && RegisterCheck(t, form).None?
    ensures Consistent(AfterRegistration(t, form, hash, now))
    ensures RegisterCheck(AfterRegistration(t, form, hash, now), form) == Some(Refusal(BadRequest, UsernameTaken))
  {
    var t' := AfterRegistration(t, form, hash, now);
    assert t'.users[t.nextUserId].username == form.username.value;
  }

  // ---------------------------------------------------------------------------
  // POST /login

  const EmptyCredentials: string := "用户名和密码不能为空"
  const BadCredentials: string := "用户名或密码错误"
  const LoginFailed: string := "登录失败，请稍后重试"

  /** `expiresIn: '24h'`, in seconds. */
  const TokenLifetime: int := 24 * 60 * 60

  /** What jwt.sign signs: the payload and its lifetime. */
  datatype Claims = Claims(id: UserId, username: string, expiresIn: int)

  datatype LoginUser = LoginUser(id: UserId, username: string, nickname: string, avatar: Option<string>)

  datatype LoginAnswer = LoginAnswer(token: Claims, user: LoginUser)

  /**
   * POST /login: 400 for an empty username or password; 400 with one and
   * the same message for an unknown username and for a wrong password;
   * otherwise the token claims and the user, nickname defaulted to the
   * username. A user whose stored hash is NULL (a row the admin backend
   * inserted) makes bcrypt.compare reject with illegal arguments, and the
   * catch answers 500.
   */
  function Login(t: Tables, username: Option<string>, password: Option<string>,
                 matches: (string, string) -> bool): (r: Reply<LoginAnswer>)
    requires Consistent(t)
    ensures r.Refusal? ==>
      (r.status == BadRequest && r.error in {EmptyCredentials, BadCredentials})
      || r == Refusal(ServerError, LoginFailed)
    ensures username.None? || username.value == "" || password.None? || password.value == "" ==>
      r == Refusal(BadRequest, EmptyCredentials)
    ensures r == Refusal(ServerError, LoginFailed) <==>
      username.Some? && username.value != "" && password.Some? && password.value != ""
      && UserModel.FindByUsername(t, username.value).Some?
      && UserModel.FindByUsername(t, username.value).value.password.None?
    ensures r.Answer? ==>
      username.Some? && password.Some? && r.status == Success
      && r.value.token == Claims(r.value.user.id, username.value, TokenLifetime)
      && r.value.user.id in t.users
      && t.users[r.value.user.id].username == username.value
      && t.users[r.value.user.id].password.Some?
      && matches(password.value, t.users[r.value.user.id].password.value)
      && r.value.user.nickname == OrElse(t.users[r.value.user.id].nickname, username.value)
  {
    if username.None? || username.value == "" || password.None? || password.value == "" then
      Refusal(BadRequest, EmptyCredentials)
    else
      var found := UserModel.FindByUsername(t, username.value);
      if found.None? then Refusal(BadRequest, BadCredentials)
      else if found.value.password.None? then Refusal(ServerError, LoginFailed)
      else if !matches(password.value, found.value.password.value) then Refusal(BadRequest, BadCredentials)
      else
        var user := found.value;
        Answer(Success, LoginAnswer(
          Claims(user.id, user.username, TokenLifetime),
          LoginUser(user.id, user.username, OrElse(Some(user.nickname), user.username), user.avatar)))
  }

  /**
   * A caller cannot tell an unknown username from a wrong password: both
   * get the same 400.
   */
  lemma UnknownUserLikeWrongPassword(t: Tables, unknown: string, known: string, password: string,
                                     matches: (string, string) -> bool)
    requires Consistent(t)
    requires unknown != "" && known != "" && password != ""
    requires forall u :: u in t.users ==> t.users[u].username != unknown
    requires UserModel.FindByUsername(t, known).Some?
    requires UserModel.FindByUsername(t, known).value.password.Some?
    requires !matches(password, UserModel.FindByUsername(t, known).value.password.value)
    ensures Login(t, Some(unknown), Some(password), matches) == Refusal(BadRequest, BadCredentials)
    ensures Login(t, Some(known), Some(password), matches) == Refusal(BadRequest, BadCredentials)
  {
  }

  /**
   * A user the admin backend created has no password hash, so every login
   * as that user with a non-empty password answers 500 and never succeeds.
   */
  lemma AdminCreatedUserCannotLogin(t: Tables, form: UserService.UserForm, username: string, password: string,
                                    now: Time, matches: (string, string) -> bool)
    requires Consistent(t) && UserService.UsernamesUnique(t) && form.id.None? && form.username == Some(username)
    requires UserService.SaveCheck(t, form).None?
    requires username != "" && password != ""
    ensures var t' := UserService.AfterSave(t, form, now);
      Consistent(t') && Login(t', Some(username), Some(password), matches) == Refusal(ServerError, LoginFailed)
  {
    var t' := UserService.AfterSave(t, form, now);
    UserService.SaveKeepsUsernamesUnique(t, form, now);
    assert t'.users[t.nextUserId].username == username;
    var found := UserModel.FindByUsername(t', username);
    assert found.value.id == t.nextUserId by {
      assert !UserService.UsernameTaken(t, form.username);
    }
  }

  /**
   * After a registration, logging in with the same username and a password
   * bcrypt accepts for the stored hash yields a token for the new id.
   */
  lemma LoginAfterRegister(t: Tables, form: Registration, hash: string, now: Time,
                           matches: (string, string) -> bool)
    requires Consistent(t) && RegisterCheck(t, form).None?
    requires form.username.value != "" && form.password.value != ""
    requires matches(form.password.value, hash)
    ensures Consistent(AfterRegistration(t, form, hash, now))
    ensures var r := Login(AfterRegistration(t, form, hash, now), form.username, form.password, matches);
      r.Answer? && r.value.token == Claims(t.nextUserId, form.username.value, TokenLifetime)
      && r.value.user.nickname == form.username.value
  {
    var t' := AfterRegistration(t, form, hash, now);
    var found := UserModel.FindByUsername(t', form.username.value);
    assert t'.users[t.nextUserId].username == form.username.value;
    assert found.value.id == t.nextUserId;
  }
}
