# Teacher portal: a verified model

This project models the core of a small Django teacher portal in Dafny. In the portal, teachers log in and then list, add, update and delete student marks. Each change to a student record leaves an audit entry.

The model covers five parts:

- **Credential store** (`credentials.dfy`). A `Teacher` keeps a random 32-hex-digit salt and the SHA-256 digest of `password + salt`, hashed 10000 times over. SHA-256 is a function parameter `h` whose inside the model never looks at.
- **Session manager and auth gate** (`sessions.dfy`, `middleware.dfy`).
  - Session tokens live in a table keyed by token string. Each teacher holds at most one token, and it expires 24 hours after issue.
  - The per-request middleware walks an ordered decision tree over the path and the session's token. Along the way it deletes a stale token row and flushes the session.
  - The clock is the parameter `now`, in microseconds. The random token is the parameter `minted`.
- **Grade ledger** (`ledger.dfy`, `audit.dfy`, `utils.dfy`).
  - The student table is a `map<int, Student>` with an auto-increment id. The audit log is an append-only `seq<AuditEntry>`.
  - The three JSON handlers either answer `success: false` and change nothing, or change the table and append exactly one audit entry.
  - Every handler keeps marks in [0, 100], names and subjects within 100 characters, and (name, subject) pairs unique.
  - `home_view` lists the students sorted by (name, subject).
- **Login and logout views** (`auth_views.dfy`). Small decision procedures over the teacher table, the token table and the session.
- **Browser script** (`client.dfy`).
  - `getCookie` is a loop that stops at the first entry of `document.cookie` whose trimmed text starts with `name=`.
  - `validateForm` and the inline save handler check the marks range before any request is sent.

`common.dfy` holds `Option` and the `Instant` clock type. `text.dfy` models the string built-ins the code relies on: `strip`/`trim`, `split`, prefix slicing, string order and decimal formatting. It also proves their split/join round trip.

`add_student` tests `new_marks > 100` only after `calculate_new_marks` has already capped the total with `min(total, 100)`. Its "would exceed 100" error branch (`views.py:154-158`) is therefore unreachable, and `MergeMarks` marks it dead with `assert false`.

The model also proves that the middleware's final pass-through (`middleware.py:48-49`) is unreachable. A path equal to the login path already matched the first prefix test.

## Model

| member | source | states |
|---|---|---|
| `Credentials.HashPassword` | tailwebs_teacherportal/portal/models.py:17-19 | the loop leaves `raw + salt` hashed exactly 10000 times |
| `Credentials.StretchInjective` | tailwebs_teacherportal/portal/models.py:18-19 | iterating an injective hash any number of times stays injective |
| `Credentials.WrongPasswordRejected` | tailwebs_teacherportal/portal/models.py:22-27 | with an injective hash and the same salt, two different passwords give different stored digests |
| `Credentials.Teacher.SetPassword` | tailwebs_teacherportal/portal/models.py:13-20 | replaces both salt and hash with a fresh 32-hex salt and the iterated digest; afterwards that password is accepted and, with an injective hash, every other password is refused |
| `Credentials.Teacher.CheckPassword` | tailwebs_teacherportal/portal/models.py:22-27 | true exactly when rehashing with the stored salt gives the stored digest; changes nothing |
| `Credentials.SetThenCheck` | tailwebs_teacherportal/portal/models.py:13-27 | checking the password just set succeeds; checking a different one fails under an injective hash |
| `Sessions.ExpiryIsStrict` | tailwebs_teacherportal/portal/models.py:52-54 | valid iff active and expiry strictly after now; a token expiring exactly now is invalid and stays invalid later |
| `Sessions.NewToken` | tailwebs_teacherportal/portal/utils.py:16-22 | the inserted row is active, expires exactly 24 hours on, is valid at issue and invalid once 24 hours have passed |
| `Sessions.WithoutTeacher` | tailwebs_teacherportal/portal/utils.py:13 | keeps exactly the rows of other teachers, unchanged |
| `Sessions.Issue` | tailwebs_teacherportal/portal/utils.py:13-22 | the table after the delete and insert: the minted token is present, the teacher owns no token but that one, and every other row is an old row unchanged |
| `Sessions.IssueLeavesOneToken` | tailwebs_teacherportal/portal/utils.py:10-23 | after a successful issue the teacher owns exactly one token, the new one |
| `Sessions.IssueKeepsOthers` | tailwebs_teacherportal/portal/utils.py:13-22 | other teachers' tokens survive unchanged, nothing but the new token is added, and a colliding token inserts nothing |
| `Sessions.IssuePreservesWellFormed` | tailwebs_teacherportal/portal/models.py:45-47 | issuing keeps every row filed under its own token and at most one token per teacher |
| `Sessions.TokenTable.Get` | tailwebs_teacherportal/portal/middleware.py:30 | finds the row filed under the token, or reports it missing |
| `Sessions.TokenTable.CreateSessionToken` | tailwebs_teacherportal/portal/utils.py:10-23 | deletes the teacher's tokens and inserts the minted one, or fails on a token collision; the table stays well formed |
| `Sessions.TokenTable.Delete` | tailwebs_teacherportal/portal/middleware.py:37 | removes that one row and no other |
| `Sessions.SessionStore.Get` | tailwebs_teacherportal/portal/middleware.py:27 | reads the key's value, or reports it missing |
| `Sessions.SessionStore.Put` | tailwebs_teacherportal/portal/views.py:39 | sets one key and leaves the others |
| `Sessions.SessionStore.Flush` | tailwebs_teacherportal/portal/middleware.py:38 | empties the session |
| `Audit.ParseAction` | tailwebs_teacherportal/portal/models.py:57-64 | a stored action reads back exactly when it is UPDATE, DELETE or CREATE |
| `Audit.ActionCodeRoundTrip` | tailwebs_teacherportal/portal/models.py:57-61 | every action is stored as one of the three choices and reads back as itself |
| `Audit.IpOrLoopback` | tailwebs_teacherportal/portal/utils.py:42 | an absent or empty address becomes 127.0.0.1; any other is kept; the result is never empty |
| `Audit.AuditLog.Log` | tailwebs_teacherportal/portal/utils.py:33-43 | appends exactly one entry with the given fields, nullable marks and the defaulted address |
| `PortalUtils.CalculateNewMarks` | tailwebs_teacherportal/portal/utils.py:25-31 | never above 100; the plain sum when that is at most 100, else 100 |
| `PortalUtils.MergeStaysInRange` | tailwebs_teacherportal/portal/utils.py:25-31 | merging two in-range amounts lands in range and never lowers the marks |
| `PortalUtils.ValidateMarks` | tailwebs_teacherportal/portal/utils.py:54-60 | true iff the value converts to an integer in [0, 100]; missing or unconvertible input is false |
| `PortalUtils.GetClientIp` | tailwebs_teacherportal/portal/utils.py:45-52 | no address exactly when X-Forwarded-For is absent or empty and REMOTE_ADDR is absent; with a non-empty X-Forwarded-For, a comma-free prefix of it |
| `PortalUtils.ForwardedIpIsFirstHop` | tailwebs_teacherportal/portal/utils.py:47-49 | a non-empty X-Forwarded-For gives its untrimmed prefix before the first comma, which holds no comma, or the whole header when it has none |
| `PortalUtils.RemoteAddrFallback` | tailwebs_teacherportal/portal/utils.py:50-52 | with X-Forwarded-For absent or empty the result is REMOTE_ADDR as given, possibly absent |
| `AuthGate.LoginPageExcluded` | tailwebs_teacherportal/portal/middleware.py:14-15 | the login path itself always matches the exclusion test |
| `AuthGate.Call` | tailwebs_teacherportal/portal/middleware.py:12-49 | the full decision tree, covering state for each case: excluded or admin paths pass with nothing touched; no token redirects with nothing touched; an unknown token flushes only the session; a valid token attaches its teacher and changes nothing; an invalid one deletes that row alone, flushes the session and redirects |
| `AuthViews.LoginInputError` | tailwebs_teacherportal/portal/views.py:25-32 | no error exactly when username and password are non-empty and the username has none of `<`, `>`, `"`, `'`; emptiness is reported first, and any other error is the invalid-characters message |
| `AuthViews.Login` | tailwebs_teacherportal/portal/views.py:17-46 | GET shows the page; bad input is refused before any lookup; unknown user and wrong password get the same message and change nothing; success issues the token and stores it under `auth_token` |
| `AuthViews.SignIn` | tailwebs_teacherportal/portal/views.py:36-42 | a wrong password changes nothing; a right one issues the token and stores it in the session, or ends in a server error with no session change on a collision |
| `AuthViews.Logout` | tailwebs_teacherportal/portal/views.py:201-212 | deletes the session's token row if there is one, ignores its absence, always empties the session |
| `AuthViews.LoginEstablishesValidSession` | tailwebs_teacherportal/portal/views.py:36-40 | after a successful login the token in the session finds a row that is valid now and belongs to the teacher |
| `Text.Strip` | tailwebs_teacherportal/portal/views.py:21 | never longer than its input, and neither starts nor ends with whitespace |
| `Text.StripIsCleanSlice` | tailwebs_teacherportal/portal/views.py:130-131 | strip keeps a contiguous slice with no edge whitespace and drops only whitespace |
| `Text.StripEmptyIffBlank` | tailwebs_teacherportal/portal/views.py:135 | a string strips to nothing exactly when it is all whitespace |
| `Text.Truncate` | tailwebs_teacherportal/portal/views.py:142-143 | at most n characters, a prefix, the whole string when it is short enough |
| `Text.Split` | tailwebs_teacherportal/portal/utils.py:49 | at least one piece, and no piece holds the separator |
| `Text.JoinSplit` | tailwebs_teacherportal/portal/utils.py:49 | joining the pieces of a split restores the string |
| `Text.SplitJoin` | tailwebs_teacherportal/static/js/main.js:4 | splitting pieces joined by a separator they do not contain gives the same pieces |
| `Text.FirstPiece` | tailwebs_teacherportal/portal/utils.py:49 | the first piece is the prefix before the first separator |
| `Text.LexLeTotal` | tailwebs_teacherportal/portal/views.py:50 | string order is total |
| `Text.LexLeTransitive` | tailwebs_teacherportal/portal/views.py:50 | string order is transitive |
| `Text.LexLeAntisymmetric` | tailwebs_teacherportal/portal/views.py:50 | string order is antisymmetric |
| `Text.Decimal` | tailwebs_teacherportal/portal/views.py:176 | a non-empty string of decimal digits |
| `Text.DecimalReadsBack` | tailwebs_teacherportal/portal/views.py:176 | the digits written for the marks in the merge message read back as the same number, with no leading zero |
| `Ledger.PrecedesTransitive` | tailwebs_teacherportal/portal/views.py:50 | ordering by (name, subject) is transitive |
| `Ledger.SortStudents` | tailwebs_teacherportal/portal/views.py:50 | the listing is sorted by (name, subject) and is a permutation of the rows given |
| `Ledger.TableRows` | tailwebs_teacherportal/portal/views.py:50 | for rows filed under their own ids: collects every row of the table, with no repeats, and nothing else |
| `Ledger.SetMarksPreserves` | tailwebs_teacherportal/portal/views.py:69-73 | setting one row's marks to an in-range value keeps the table invariant |
| `Ledger.InsertPreserves` | tailwebs_teacherportal/portal/models.py:39-40 | inserting a new pair under the next id keeps pairs unique and the table invariant |
| `Ledger.GradeLedger.HomeView` | tailwebs_teacherportal/portal/views.py:48-51 | every student of the table, none repeated and nothing else, sorted by (name, subject) |
| `Ledger.GradeLedger.UpdateMarks` | tailwebs_teacherportal/portal/views.py:55-89 | a falsy id, null marks, invalid marks or an unknown id: an error, no change, no audit; otherwise the marks are replaced and one UPDATE entry (old, new) is appended |
| `Ledger.GradeLedger.DeleteStudent` | tailwebs_teacherportal/portal/views.py:93-122 | a falsy or unknown id: an error, no change; otherwise one DELETE entry with the previous marks and null new marks, then the row alone goes |
| `Ledger.GradeLedger.AddStudent` | tailwebs_teacherportal/portal/views.py:126-199 | strips, requires both fields, validates marks, truncates to 100 characters, then merges into the existing pair or creates a row; each error leaves all state unchanged |
| `Ledger.GradeLedger.MergeMarks` | tailwebs_teacherportal/portal/views.py:148-177 | sets the marks to min(old + added, 100), appends one UPDATE (old, new), reports both values; the over-100 rejection is unreachable |
| `Ledger.GradeLedger.CreateStudent` | tailwebs_teacherportal/portal/views.py:179-196 | inserts the row under a fresh id and appends one CREATE entry with null old marks |
| `ClientScript.ClientAgreesWithServer` | tailwebs_teacherportal/static/js/main.js:63-68 | an integer passes the browser's range test exactly when the server's `validate_marks` accepts it; NaN never passes |
| `ClientScript.EntryMatchesIffPrefix` | tailwebs_teacherportal/static/js/main.js:6-7 | an entry matches iff its trimmed text starts with `name=`, so an entry for a longer name such as `csrftokenX=` does not match `csrftoken` |
| `ClientScript.GetCookie` | tailwebs_teacherportal/static/js/main.js:1-14 | the loop with its `break` returns the decoded value of the first matching entry, or nothing for an empty cookie string |
| `ClientScript.CookieValue` | tailwebs_teacherportal/static/js/main.js:2-13 | nothing for an empty cookie string; otherwise nothing exactly when no `;`-separated entry matches |
| `ClientScript.FirstMatchNone` | tailwebs_teacherportal/static/js/main.js:5-13 | nothing is found exactly when no entry matches |
| `ClientScript.FirstMatchIsFirst` | tailwebs_teacherportal/static/js/main.js:7-10 | the value found is that of the first matching entry |
| `ClientScript.LaterEntriesIgnored` | tailwebs_teacherportal/static/js/main.js:8-9 | once a match is found, later entries and duplicates are ignored |
| `ClientScript.CookieOfEntries` | tailwebs_teacherportal/static/js/main.js:3-4 | a cookie string made of `;`-free entries reads as those entries |
| `ClientScript.CleanEntryMatches` | tailwebs_teacherportal/static/js/main.js:6-8 | the entry `name=value` with no blank edge matches `name` and carries `value` |
| `ClientScript.ReadsBackFirstEntry` | tailwebs_teacherportal/static/js/main.js:1-14 | in a cookie string whose first entry is `name=value`, `getCookie(name)` yields the decoded value whatever follows |
| `ClientScript.ValidateForm` | tailwebs_teacherportal/static/js/main.js:49-73 | flags each input that is blank or an out-of-range marks field, and the form is valid iff no input is flagged |
| `ClientScript.CheckInput` | tailwebs_teacherportal/static/js/main.js:53-69 | one input ends up flagged exactly when it is not acceptable |
| `ClientScript.AcceptedMarksFieldIsValid` | tailwebs_teacherportal/static/js/main.js:63-68 | a marks field the browser accepts parses to a value the server accepts |
| `ClientScript.SaveMarks` | tailwebs_teacherportal/static/js/main.js:131-150 | the update request is sent iff the parse passes the range test, with the parsed marks and the row's id; otherwise the range message is shown |
| `ClientScript.SaveSendsOnlyValidMarks` | tailwebs_teacherportal/static/js/main.js:131-138 | every update request that leaves the browser carries marks the server accepts; unparsable input shows the error |

## Left out

- JSON decoding of request bodies and Python's `int()` coercion. The handlers take a student id as `Option<int>` (absent, or an integer, where 0 is falsy) and marks as absent, an integer `int()` produces, or a value `int()` rejects. String ids such as `"5"` sent by the browser (`main.js:129`) are taken as already converted. This hides one visible difference: in Python `not "0"` is false, so the source answers the string id `"0"` with the not-found message, where the model, taking the id 0, answers `Missing required fields` (or `Student ID required` on delete).
- PortalUtils.ValidateMarks: abstracts `int()` to "converts to this integer or fails"; the string, float and boolean cases behind that conversion are not modelled.
- Ledger.GradeLedger.AddStudent: takes name and subject as strings. A JSON `null` name, or a non-string one, that makes `.strip()` raise is not modelled, nor is the `IntegrityError` a concurrent insert of the same pair would raise.
- Exceptions other than the missing row: the handlers' catch-all `except` returns `str(e)`. Only `get_object_or_404`'s message is modelled.
- Sessions.TokenTable.CreateSessionToken: the token oracle `minted` stands for `secrets.token_urlsafe(64)`. Two concurrent logins of one teacher racing between the delete and the insert are not modelled.
- Text.Strip: removes only ASCII whitespace (space, tab, newline, carriage return, vertical tab, form feed). Python's `str.strip` and JavaScript's `trim` also remove further Unicode whitespace, and they differ from each other on some of it.
- SHA-256, its hex encoding, `secrets.token_hex(16)` and `secrets.token_urlsafe(64)`: the hash is the parameter `h`, the salt is a parameter required to be 32 lower-case hex digits, and the token is the parameter `minted`.
- `timezone.now()`: the parameter `now`, in microseconds. `created_at`/`updated_at` stamps of `Teacher` and `Student` are not modelled.
- AuthGate.Call: the login path is a parameter, since `reverse('login')` depends on URL configuration. The view the gate hands over to (`get_response`) and its response are not modelled; the outcome only says whether it runs and with which teacher.
- Rendering, `messages`, redirects as HTTP objects, CSRF protection and the 405 method checks. Views return result variants instead: the login page with its error, a redirect, a server error, or the `{success, message | error}` JSON body.
- `print` debugging output in the middleware and the views.
- Ledger.TableRows: returns the rows in an unspecified order, as the database does before `order_by`. String order is taken as code-point order, which assumes a binary collation in the database.
- The transaction machinery: each handler's checks come before any write, so on every error path nothing has changed. The model states that outcome directly instead of modelling rollback.
- `decodeURIComponent`: the parameter `decode`. The `URIError` it throws on malformed escapes is not modelled.
- `parseInt`: the parameter `parseInt`, returning NaN or an integer. Its prefix parsing is not modelled.
- The DOM, toasts, modals, `fetch` and its response handling, the delete and add-student submit handlers beyond `validateForm`, the real-time input listener, and keyboard shortcuts.
- `create_sample_data` and the module-level code at the end of `views.py`, `admin.py`, `urls.py`, and the setup scripts `add_student.py` and `super_user.py`: seed data, configuration and command-line tools.
