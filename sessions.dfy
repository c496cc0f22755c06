/**
 * The session manager: the table of session tokens (one row per token,
 * keyed by the token string) and the per-request session store in which
 * the login view keeps the token under `auth_token`.
 */
module Sessions {
  import opened Common

  /** `timedelta(hours=24)` in microseconds. */
  const SESSION_LIFETIME: int := 24 * 60 * 60 * 1000000

  /** The session key under which the login view stores the token. */
  const AUTH_TOKEN_KEY: string := "auth_token"

  datatype SessionToken = SessionToken(token: string, teacher: int, createdAt: Instant, expiresAt: Instant, isActive: bool)
  {
    /** `is_valid`: active, and the expiry lies strictly after now. */
    predicate IsValid(now: Instant) {
      isActive && expiresAt > now
    }
  }

  /** A token expiring exactly now is already invalid, and an invalid token stays invalid as the clock moves on. */
  lemma ExpiryIsStrict(t: SessionToken, now: Instant, later: Instant)
    requires now <= later
    ensures t.expiresAt == now ==> !t.IsValid(now)
    ensures !t.IsValid(now) ==> !t.IsValid(later)
    ensures t.IsValid(now) <==> t.isActive && now < t.expiresAt
  {
  }

  /** The row `create_session_token` inserts: the defaults of the model make it active, expiring 24 hours on. */
  function NewToken(token: string, teacher: int, now: Instant): (t: SessionToken)
    ensures t.token == token && t.teacher == teacher
    ensures t.expiresAt == now + SESSION_LIFETIME && t.isActive
    ensures t.IsValid(now) && !t.IsValid(now + SESSION_LIFETIME)
  {
    SessionToken(token, teacher, now, now + SESSION_LIFETIME, true)
  }

  /** `SessionToken.objects.filter(teacher=teacher).delete()`. */
  function WithoutTeacher(rows: map<string, SessionToken>, teacher: int): (r: map<string, SessionToken>)
    ensures forall k :: k in r <==> k in rows && rows[k].teacher != teacher
    ensures forall k :: k in r ==> r[k] == rows[k]
  {
    map k | k in rows && rows[k].teacher != teacher :: rows[k]
  }

  /**
   * The token table after `create_session_token(teacher)` with the oracle's token `minted`:
   * the teacher's rows are gone, and the new row is added unless `minted` collides with a
   * remaining row, in which case the unique constraint makes the insert fail.
   */
  function Issue(rows: map<string, SessionToken>, teacher: int, now: Instant, minted: string): (r: map<string, SessionToken>)
    ensures minted in r
    ensures forall k :: k in r && r[k].teacher == teacher ==> k == minted
    ensures forall k :: k in r && k != minted ==> k in rows && r[k] == rows[k]
  {
    var kept := WithoutTeacher(rows, teacher);
    if minted in kept then kept else kept[minted := NewToken(minted, teacher, now)]
  }

  predicate Collides(rows: map<string, SessionToken>, teacher: int, minted: string) {
    minted in WithoutTeacher(rows, teacher)
  }

  /** After a successful issue the teacher owns exactly one token, the new one, and it is valid now. */
  lemma IssueLeavesOneToken(rows: map<string, SessionToken>, teacher: int, now: Instant, minted: string)
    requires !Collides(rows, teacher, minted)
    ensures minted in Issue(rows, teacher, now, minted)
    ensures forall k :: k in Issue(rows, teacher, now, minted) && Issue(rows, teacher, now, minted)[k].teacher == teacher <==> k == minted
    ensures Issue(rows, teacher, now, minted)[minted] == NewToken(minted, teacher, now)
  {
  }

  /** Issuing never touches another teacher's tokens, and adds nothing but the new one. */
  lemma IssueKeepsOthers(rows: map<string, SessionToken>, teacher: int, now: Instant, minted: string)
    ensures forall k :: k in rows && rows[k].teacher != teacher ==>
      k in Issue(rows, teacher, now, minted) && Issue(rows, teacher, now, minted)[k] == rows[k]
    ensures forall k :: k in Issue(rows, teacher, now, minted) && k != minted ==>
      k in rows && rows[k].teacher != teacher
    ensures Collides(rows, teacher, minted) ==> Issue(rows, teacher, now, minted) == WithoutTeacher(rows, teacher)
  {
  }

  /** A table where each row is filed under its own token and no teacher holds two tokens. */
  ghost predicate WellFormed(rows: map<string, SessionToken>) {
    && (forall k :: k in rows ==> rows[k].token == k)
    && (forall j, k :: j in rows && k in rows && rows[j].teacher == rows[k].teacher ==> j == k)
  }

  /** Issuing keeps the table well formed, whether or not the insert succeeds. */
  lemma {:induction false} IssuePreservesWellFormed(rows: map<string, SessionToken>, teacher: int, now: Instant, minted: string)
    requires WellFormed(rows)
    ensures WellFormed(Issue(rows, teacher, now, minted))
  {
    var r := Issue(rows, teacher, now, minted);
    forall j, k | j in r && k in r && r[j].teacher == r[k].teacher
      ensures j == k
    {
      if j != minted && k != minted {
        assert rows[j] == r[j] && rows[k] == r[k];
      } else if !Collides(rows, teacher, minted) {
        IssueLeavesOneToken(rows, teacher, now, minted);
      }
    }
  }

  class TokenTable {
    var rows: map<string, SessionToken>

    ghost predicate Valid()
      reads this
    {
      WellFormed(rows)
    }

    constructor ()
      ensures Valid() && rows == map[]
    {
      rows := map[];
    }

    /** `SessionToken.objects.get(token=token)`, with `DoesNotExist` as None. */
    function Get(token: string): (r: Option<SessionToken>)
      reads this
      ensures r.Some? <==> token in rows
      ensures r.Some? ==> r.value == rows[token]
    {
      if token in rows then Some(rows[token]) else None
    }

    /** `create_session_token`: delete the teacher's tokens, then insert the oracle's minted token. */
    method CreateSessionToken(teacher: int, now: Instant, minted: string) returns (r: Option<string>)
      requires Valid()
      modifies this
      ensures Valid()
      ensures rows == Issue(old(rows), teacher, now, minted)
      ensures r == if Collides(old(rows), teacher, minted) then None else Some(minted)
    {
      IssuePreservesWellFormed(rows, teacher, now, minted);
      rows := WithoutTeacher(rows, teacher);
      if minted in rows {
        r := None;
      } else {
        rows := rows[minted := NewToken(minted, teacher, now)];
        r := Some(minted);
      }
    }

    /** `token_obj.delete()`: only that row goes. */
    method Delete(token: string)
      requires Valid()
      modifies this
      ensures Valid()
      ensures rows == old(rows) - {token}
    {
      rows := rows - {token};
    }
  }

  /** `request.session`: a per-browser key/value store. */
  class SessionStore {
    var data: map<string, string>

    constructor ()
      ensures data == map[]
    {
      data := map[];
    }

    /** `request.session.get(key)`. */
    function Get(key: string): (r: Option<string>)
      reads this
      ensures r.Some? <==> key in data
      ensures r.Some? ==> r.value == data[key]
    {
      if key in data then Some(data[key]) else None
    }

    /** `request.session[key] = value`. */
    method Put(key: string, value: string)
      modifies this
      ensures data == old(data)[key := value]
    {
      data := data[key := value];
    }

    /** `request.session.flush()`: everything in the session is gone. */
    method Flush()
      modifies this
      ensures data == map[]
    {
      data := map[];
    }
  }

  /** Python's truthiness of the value read from the session: present and non-empty. */
  predicate Truthy(v: Option<string>) {
    v.Some? && v.value != ""
  }
}
