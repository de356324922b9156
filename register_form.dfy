/**
 * The register page: the form's validation rules and the body it posts.
 * An untouched or cleared input is the empty string, which is what the
 * `required` rule rejects; the `type: 'email'` rule's pattern is the
 * parameter `isEmail`.
 */
module RegisterForm {
  import opened Common
  import opened Strings
  import opened Store
  import opened Http
  import AuthRoute

  datatype RegisterValues = RegisterValues(
    username: string,
    phone: string,
    email: string,
    address: string,
    password: string,
    confirmPassword: string)

  /** The posted body: the nickname is the username. */
  datatype RegisterBody = RegisterBody(
    username: string,
    password: string,
    nickname: string,
    phone: string,
    email: string,
    address: string)

  const NeedUsername: string := "请输入用户名!"
  const NeedPhone: string := "请输入手机号码!"
  const BadPhone: string := "请输入有效的手机号码!"
  const NeedEmail: string := "请输入邮箱!"
  const BadEmail: string := "请输入有效的邮箱地址!"
  const NeedAddress: string := "请输入所在地区!"
  const NeedPassword: string := "请输入密码!"
  const ShortPassword: string := "密码长度至少6位!"
  const NeedConfirm: string := "请确认密码!"
  const Mismatch: string := "两次输入的密码不一致!"

  /** The minimum password length. */
  const MinPassword: nat := 6

  /** `^1[3-9]\d{9}$`: eleven ASCII digits, a leading 1, a second digit from 3 to 9. */
  predicate ValidPhone(s: string)
  {
    |s| == 11 && s[0] == '1' && '3' <= s[1] <= '9' && AllDigits(s[2..])
  }

  /** A `required` rule followed by one more rule, which is skipped for an empty value. */
  function Rules(value: string, required: string, ok: bool, otherwise: string): (r: seq<string>)
    ensures r == [] <==> value != "" && ok
    ensures |r| <= 1
  {
    if value == "" then [required] else if ok then [] else [otherwise]
  }

  /** The confirm field: required, then equal to the password. */
  function ConfirmErrors(confirm: string, password: string): (r: seq<string>)
    ensures r == [] <==> confirm != "" && confirm == password
  {
    if confirm == "" then [NeedConfirm] else if confirm == password then [] else [Mismatch]
  }

  /** The error messages the form shows, field by field. */
  function Errors(v: RegisterValues, isEmail: string -> bool): (r: seq<string>)
    ensures r == [] <==>
      v.username != "" && ValidPhone(v.phone) && v.email != "" && isEmail(v.email) && v.address != ""
      && |v.password| >= MinPassword && v.confirmPassword == v.password
  {
    (if v.username == "" then [NeedUsername] else [])
    + Rules(v.phone, NeedPhone, ValidPhone(v.phone), BadPhone)
    + Rules(v.email, NeedEmail, isEmail(v.email), BadEmail)
    + (if v.address == "" then [NeedAddress] else [])
    + Rules(v.password, NeedPassword, |v.password| >= MinPassword, ShortPassword)
    + ConfirmErrors(v.confirmPassword, v.password)
  }

  /** `onFinish` runs only for a form without errors, and posts its fields with nickname = username. */
  function Submit(v: RegisterValues, isEmail: string -> bool): (r: Option<RegisterBody>)
    ensures r.Some? <==> Errors(v, isEmail) == []
    ensures r.Some? ==>
      r.value.nickname == v.username && r.value.username == v.username
      && r.value.password == v.password && r.value.phone == v.phone
      && r.value.email == v.email && r.value.address == v.address
  {
    if Errors(v, isEmail) != [] then None
    else Some(RegisterBody(v.username, v.password, v.username, v.phone, v.email, v.address))
  }

  /** What the server reads from the body: every field but the nickname. */
  function Received(b: RegisterBody): AuthRoute.Registration
  {
    AuthRoute.Registration(Some(b.username), Some(b.password), Some(b.phone), Some(b.email), Some(b.address))
  }

  /**
   * A registration the page lets through is never refused for a missing
   * field: the server either accepts it or names the taken username,
   * phone or email.
   */
  lemma SubmittedFormNotRefusedAsIncomplete(t: Tables, v: RegisterValues, isEmail: string -> bool)
    requires Consistent(t)
    requires Submit(v, isEmail).Some?
    ensures var check := AuthRoute.RegisterCheck(t, Received(Submit(v, isEmail).value));
      check.None? || check.value.error in {AuthRoute.UsernameTaken, AuthRoute.PhoneTaken, AuthRoute.EmailTaken}
  {
  }

  /** A mismatched confirmation is reported however long the password is, and blocks the post. */
  lemma MismatchBlocksSubmit(v: RegisterValues, isEmail: string -> bool)
    requires v.confirmPassword != "" && v.confirmPassword != v.password
    ensures Mismatch in Errors(v, isEmail) && Submit(v, isEmail).None?
  {
    var tail := ConfirmErrors(v.confirmPassword, v.password);
    assert tail == [Mismatch];
    assert Errors(v, isEmail)[|Errors(v, isEmail)| - 1] == Mismatch;
  }
}
