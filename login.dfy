/**
 * The login form: two text fields and an error message, a type-tagged input
 * handler, and a submit handler around the backend login call. The call's
 * outcome is a parameter; the callbacks the handler makes (to the login API,
 * to the parent component and to the router) are returned, in order, as
 * effects.
 */
module Login {

  datatype LoginState = LoginState(email: string, password: string, errorMessage: string)

  /** How the awaited `userApi.login` call ends. */
  datatype LoginOutcome =
    | Success(username: string)   // it resolves with a body carrying the username
    | ErrorThrown                 // it rejects with an `Error` instance
    | NonErrorThrown              // it rejects with any other value

  datatype Effect =
    | CallLoginApi(email: string, password: string)
    | HandleUsername(username: string)
    | HandleLogin
    | Navigate(path: string, replace: bool)

  const EnterCredentials := "이메일과 비밀번호를 입력하세요"
  const WrongCredentials := "이메일 또는 비밀번호가 틀렸습니다."
  const BookListPath := "/booklist"

  /** `handleInputValue(e, type)` with `value` the input's current text. */
  function HandleInputValue(s: LoginState, value: string, tag: string): (r: LoginState)
    ensures r.errorMessage == s.errorMessage
    ensures tag == "email" ==> r == s.(email := value)
    ensures tag == "password" ==> r == s.(password := value)
    ensures tag != "email" && tag != "password" ==> r == s
  {
    if tag == "email" then s.(email := value)
    else if tag == "password" then s.(password := value)
    else s
  }

  /** True when a login effect reaches the parent component. */
  predicate LogsIn(effects: seq<Effect>) {
    HandleLogin in effects
  }

  /** `loginRequest`, given how the backend call ends if it is made. */
  method LoginRequest(s: LoginState, outcome: LoginOutcome) returns (r: LoginState, effects: seq<Effect>)
    ensures r.email == s.email && r.password == s.password
    ensures s.email == "" || s.password == "" ==>
      r.errorMessage == EnterCredentials && effects == []
    ensures s.email != "" && s.password != "" ==>
      effects != [] && effects[0] == CallLoginApi(s.email, s.password)
    ensures s.email != "" && s.password != "" && outcome.Success? ==>
      && r == s
      && effects == [CallLoginApi(s.email, s.password), HandleUsername(outcome.username),
                     HandleLogin, Navigate(BookListPath, true)]
    ensures s.email != "" && s.password != "" && outcome.ErrorThrown? ==>
      r.errorMessage == WrongCredentials && effects == [CallLoginApi(s.email, s.password)]
    ensures s.email != "" && s.password != "" && outcome.NonErrorThrown? ==>
      r == s && effects == [CallLoginApi(s.email, s.password)]
    ensures LogsIn(effects) <==> s.email != "" && s.password != "" && outcome.Success?
  {
    r, effects := s, [];
    if s.email == "" || s.password == "" {
      r := r.(errorMessage := EnterCredentials);
      return;
    }
    effects := effects + [CallLoginApi(s.email, s.password)];
    match outcome
    case Success(username) =>
      effects := effects + [HandleUsername(username)];
      effects := effects + [HandleLogin];
      effects := effects + [Navigate(BookListPath, true)];
    case ErrorThrown =>
      r := r.(errorMessage := WrongCredentials);
    case NonErrorThrown =>
  }
}
