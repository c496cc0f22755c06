/**
 * The login and logout views: small decision procedures over the teacher
 * table, the token table and the session store.
 */
module AuthViews {
  import opened Common
  import opened Text
  import opened Credentials
  import opened Sessions

  const CREDENTIALS_REQUIRED: string := "Username and password are required"
  const INVALID_CHARACTERS: string := "Invalid characters in username"
  /** The one message for an unknown user and for a wrong password alike. */
  const INVALID_CREDENTIALS: string := "Invalid credentials"

  datatype LoginOutcome =
    | LoginPage(error: Option<string>)  // the login template, with the error message if any
    | RedirectHome
    | ServerError                       // an exception escaping the view: the token insert hit the unique constraint

  /** The characters the view refuses in a username. */
  predicate Forbidden(c: char) {
    c == '<' || c == '>' || c == '"' || c == '\''
  }

  /** The input checks of `login_view`, made before any lookup; `username` is already stripped. */
  function LoginInputError(username: string, password: string): (r: Option<string>)
    ensures r == None <==> username != "" && password != "" && forall i :: 0 <= i < |username| ==> !Forbidden(username[i])
    ensures username == "" || password == "" ==> r == Some(CREDENTIALS_REQUIRED)
    ensures username != "" && password != "" && r.Some? ==> r == Some(INVALID_CHARACTERS)
  {
    if username == "" || password == "" then Some(CREDENTIALS_REQUIRED)
    else if exists i :: 0 <= i < |username| && Forbidden(username[i]) then Some(INVALID_CHARACTERS)
    else None
  }

  /**
   * `login_view`. A GET shows the page. A POST strips the username (not the password),
   * refuses empty or suspicious input before looking anything up, answers an unknown
   * user and a wrong password with the same message, and on success issues a token
   * through `create_session_token` and stores it in the session. `teachers` is the
   * teacher table, looked up by its unique `username`.
   */
  method Login(isPost: bool, rawUsername: string, password: string, teachers: map<string, Teacher>,
               tokens: TokenTable, session: SessionStore, h: string -> string, now: Instant, minted: string)
      returns (r: LoginOutcome)
    requires tokens.Valid()
    modifies tokens, session
    ensures tokens.Valid()
    ensures !isPost ==> r == LoginPage(None) && tokens.rows == old(tokens.rows) && session.data == old(session.data)
    ensures isPost && LoginInputError(Strip(rawUsername), password).Some? ==>
      r == LoginPage(LoginInputError(Strip(rawUsername), password))
      && tokens.rows == old(tokens.rows) && session.data == old(session.data)
    ensures isPost && LoginInputError(Strip(rawUsername), password).None? ==>
      var username := Strip(rawUsername);
      if username !in teachers || !teachers[username].Accepts(h, password) then
        r == LoginPage(Some(INVALID_CREDENTIALS)) && tokens.rows == old(tokens.rows) && session.data == old(session.data)
      else
        var teacher := teachers[username].id;
        && tokens.rows == Issue(old(tokens.rows), teacher, now, minted)
        && (Collides(old(tokens.rows), teacher, minted) ==> r == ServerError && session.data == old(session.data))
        && (!Collides(old(tokens.rows), teacher, minted) ==>
              r == RedirectHome && session.data == old(session.data)[AUTH_TOKEN_KEY := minted])
  {
    if !isPost {
      return LoginPage(None);
    }
    var username := Strip(rawUsername);
    var inputError := LoginInputError(username, password);
    if inputError.Some? {
      return LoginPage(inputError);
    }
    if username !in teachers {
      return LoginPage(Some(INVALID_CREDENTIALS));
    }
    r := SignIn(teachers[username], password, tokens, session, h, now, minted);
  }

  /** The found teacher's branch of `login_view`: check the password, then issue the token and keep it in the session. */
  method SignIn(teacher: Teacher, password: string, tokens: TokenTable, session: SessionStore,
                h: string -> string, now: Instant, minted: string) returns (r: LoginOutcome)
    requires tokens.Valid()
    modifies tokens, session
    ensures tokens.Valid()
    ensures !teacher.Accepts(h, password) ==>
      r == LoginPage(Some(INVALID_CREDENTIALS)) && tokens.rows == old(tokens.rows) && session.data == old(session.data)
    ensures teacher.Accepts(h, password) ==>
      && tokens.rows == Issue(old(tokens.rows), teacher.id, now, minted)
      && (Collides(old(tokens.rows), teacher.id, minted) ==> r == ServerError && session.data == old(session.data))
      && (!Collides(old(tokens.rows), teacher.id, minted) ==>
            r == RedirectHome && session.data == old(session.data)[AUTH_TOKEN_KEY := minted])
  {
    var ok := teacher.CheckPassword(h, password);
    if !ok {
      return LoginPage(Some(INVALID_CREDENTIALS));
    }
    var token := tokens.CreateSessionToken(teacher.id, now, minted);
    if token.None? {
      return ServerError;
    }
    session.Put(AUTH_TOKEN_KEY, token.value);
    r := RedirectHome;
  }

  /** `logout_view`: delete the session's token row if there is one, ignore its absence, always flush. */
  method Logout(tokens: TokenTable, session: SessionStore)
    requires tokens.Valid()
    modifies tokens, session
    ensures tokens.Valid()
    ensures session.data == map[]
    ensures
      var sessionToken := old(session.Get(AUTH_TOKEN_KEY));
      tokens.rows == if Truthy(sessionToken) then old(tokens.rows) - {sessionToken.value} else old(tokens.rows)
  {
    var sessionToken := session.Get(AUTH_TOKEN_KEY);
    if Truthy(sessionToken) {
      if tokens.Get(sessionToken.value).Some? {
        tokens.Delete(sessionToken.value);
      }
    }
    session.Flush();
  }

  /** After a successful login the gate's lookup of the session token finds the new row, valid now. */
  lemma LoginEstablishesValidSession(rows: map<string, SessionToken>, teacher: int, now: Instant, minted: string)
    requires !Collides(rows, teacher, minted)
    ensures minted in Issue(rows, teacher, now, minted)
    ensures Issue(rows, teacher, now, minted)[minted].IsValid(now)
    ensures Issue(rows, teacher, now, minted)[minted].teacher == teacher
  {
    IssueLeavesOneToken(rows, teacher, now, minted);
  }
}
