/**
 * The auth gate: `CustomAuthMiddleware.__call__`, the ordered decision
 * taken on every request before any view runs. The view itself
 * (`get_response`) is outside the model; the outcome says whether it runs
 * and with which teacher attached as `request.user`.
 */
module AuthGate {
  import opened Common
  import opened Text
  import opened Sessions

  const STATIC_PREFIX: string := "/static/"
  const ADMIN_PREFIX: string := "/admin/"

  datatype GateOutcome =
    | PassThrough              // the view runs, nothing attached here
    | Authenticated(teacher: int)  // the view runs with this teacher as `request.user`
    | RedirectToLogin

  /** The excluded prefixes: the login page (`reverse('login')`) and static assets. */
  predicate Excluded(path: string, loginPath: string) {
    StartsWith(path, loginPath) || StartsWith(path, STATIC_PREFIX)
  }

  predicate IsAdmin(path: string) {
    StartsWith(path, ADMIN_PREFIX)
  }

  /** The login page itself is always excluded, so the gate never reaches its last fall-through for it. */
  lemma LoginPageExcluded(loginPath: string)
    ensures Excluded(loginPath, loginPath)
  {
  }

  /**
   * `__call__`. The login path is configuration, passed in; the clock is `now`.
   * Excluded and admin paths bypass everything; otherwise a truthy `auth_token`
   * in the session is looked up: a valid row attaches its teacher, an invalid
   * row is deleted and the session flushed, a missing row flushes the session;
   * every case but the valid row redirects to the login page.
   */
  method Call(path: string, loginPath: string, tokens: TokenTable, session: SessionStore, now: Instant)
      returns (r: GateOutcome)
    requires tokens.Valid()
    modifies tokens, session
    ensures tokens.Valid()
    ensures Excluded(path, loginPath) || IsAdmin(path) ==>
      r == PassThrough && tokens.rows == old(tokens.rows) && session.data == old(session.data)
    ensures !Excluded(path, loginPath) && !IsAdmin(path) ==>
      var sessionToken := old(session.Get(AUTH_TOKEN_KEY));
      if !Truthy(sessionToken) then
        r == RedirectToLogin && tokens.rows == old(tokens.rows) && session.data == old(session.data)
      else if sessionToken.value !in old(tokens.rows) then
        r == RedirectToLogin && tokens.rows == old(tokens.rows) && session.data == map[]
      else if old(tokens.rows)[sessionToken.value].IsValid(now) then
        r == Authenticated(old(tokens.rows)[sessionToken.value].teacher)
        && tokens.rows == old(tokens.rows) && session.data == old(session.data)
      else
        r == RedirectToLogin && tokens.rows == old(tokens.rows) - {sessionToken.value} && session.data == map[]
  {
    if Excluded(path, loginPath) {
      return PassThrough;
    }
    if IsAdmin(path) {
      return PassThrough;
    }
    var sessionToken := session.Get(AUTH_TOKEN_KEY);
    if Truthy(sessionToken) {
      var row := tokens.Get(sessionToken.value);
      if row.Some? {
        if row.value.IsValid(now) {
          return Authenticated(row.value.teacher);
        } else {
          tokens.Delete(sessionToken.value);
          session.Flush();
        }
      } else {
        session.Flush();
      }
    }
    if path != loginPath {
      return RedirectToLogin;
    }
    // The login page matched the first exclusion, so the final pass-through to the view is dead.
    assert false;
    r := PassThrough;
  }
}
