/**
 * The sign-up form: four text fields, one error message, a single-field update
 * on every keystroke and a prioritised validation on submit. The React state
 * setters are modelled as returned values.
 */
module SignUp {
  import opened Wrappers

  datatype Field = Email | Username | Password | Repassword

  datatype SignUpInfo = SignUpInfo(email: string, username: string, password: string, repassword: string)

  /** The component's state: the four fields and the message shown under the form. */
  datatype SignUpForm = SignUpForm(info: SignUpInfo, errorMessage: string)

  const MinPasswordLength := 8
  const PasswordTooShort := "비밀번호는 8글자 이상이어야합니다."
  const FieldsMissing := "이메일, 유저네임, 2번의 비밀번호 모두 다 입력해야합니다."
  const PasswordsDiffer := "비밀번호가 일치하지 않습니다."

  function FieldValue(info: SignUpInfo, key: Field): string {
    match key
    case Email => info.email
    case Username => info.username
    case Password => info.password
    case Repassword => info.repassword
  }

  /** `handleInputValue(key)` applied to an input event carrying `value`. */
  function HandleInputValue(info: SignUpInfo, key: Field, value: string): (r: SignUpInfo)
    ensures FieldValue(r, key) == value
    ensures forall f :: f != key ==> FieldValue(r, f) == FieldValue(info, f)
  {
    match key
    case Email => info.(email := value)
    case Username => info.(username := value)
    case Password => info.(password := value)
    case Repassword => info.(repassword := value)
  }

  /**
   * The message `handleLogin` sets, or None when it sets none. Each message is
   * characterised by exactly the inputs that produce it; the emptiness tests
   * of the two passwords in the second branch are implied by the first branch
   * and so never decide anything.
   */
  function Validate(info: SignUpInfo): (m: Option<string>)
    ensures m == Some(PasswordTooShort) <==>
      |info.password| < MinPasswordLength || |info.repassword| < MinPasswordLength
    ensures m == Some(FieldsMissing) <==>
      && |info.password| >= MinPasswordLength && |info.repassword| >= MinPasswordLength
      && (info.email == "" || info.username == "")
    ensures m == Some(PasswordsDiffer) <==>
      && |info.password| >= MinPasswordLength && |info.repassword| >= MinPasswordLength
      && info.email != "" && info.username != ""
      && info.repassword != info.password
    ensures m.None? <==>
      && |info.password| >= MinPasswordLength && |info.repassword| >= MinPasswordLength
      && info.email != "" && info.username != ""
      && info.repassword == info.password
  {
    if |info.password| < MinPasswordLength || |info.repassword| < MinPasswordLength then
      Some(PasswordTooShort)
    else if info.email == "" || info.username == "" || info.password == "" || info.repassword == "" then
      Some(FieldsMissing)
    else if info.repassword != info.password then
      Some(PasswordsDiffer)
    else
      None
  }

  /** `handleLogin`: the fields stay; the message is replaced only when validation sets one. */
  function HandleLogin(form: SignUpForm): (r: SignUpForm)
    ensures r.info == form.info
    ensures Validate(form.info).None? ==> r.errorMessage == form.errorMessage
    ensures Validate(form.info).Some? ==> r.errorMessage == Validate(form.info).value
  {
    match Validate(form.info)
    case None => form
    case Some(message) => form.(errorMessage := message)
  }
}
