/**
 * The audit logger: an append-only sequence of entries, one per mutation
 * of a student record.
 */
module Audit {
  import opened Common

  /** The three values `AuditLog.ACTION_CHOICES` admits. */
  datatype Action = Update | Delete | Create

  /** The value stored in the `action` column. */
  function ActionCode(a: Action): string
  {
    match a
    case Update => "UPDATE"
    case Delete => "DELETE"
    case Create => "CREATE"
  }

  /** Reads a stored `action` value back; anything outside the choices is refused. */
  function ParseAction(s: string): (r: Option<Action>)
    ensures r.Some? <==> s == "UPDATE" || s == "DELETE" || s == "CREATE"
  {
    if s == "UPDATE" then Some(Update)
    else if s == "DELETE" then Some(Delete)
    else if s == "CREATE" then Some(Create)
    else None
  }

  /** Every action is stored as one of the choices and reads back as itself. */
  lemma ActionCodeRoundTrip(a: Action)
    ensures ParseAction(ActionCode(a)) == Some(a)
  {
  }

  /** The address recorded when the request yields none. */
  const LOOPBACK: string := "127.0.0.1"

  /** `ip_address or '127.0.0.1'`: an absent or empty address falls back to loopback. */
  function IpOrLoopback(ip: Option<string>): (r: string)
    ensures r != ""
    ensures ip.Some? && ip.value != "" ==> r == ip.value
    ensures ip.None? || ip.value == "" ==> r == LOOPBACK
  {
    if ip.Some? && ip.value != "" then ip.value else LOOPBACK
  }

  /** One `AuditLog` row; `oldMarks` and `newMarks` are nullable. */
  datatype AuditEntry = AuditEntry(
    teacher: int,
    action: Action,
    studentName: string,
    subject: string,
    oldMarks: Option<int>,
    newMarks: Option<int>,
    timestamp: Instant,
    ipAddress: string)

  class AuditLog {
    var entries: seq<AuditEntry>

    constructor ()
      ensures entries == []
    {
      entries := [];
    }

    /** `log_audit_action`: appends exactly one entry carrying the given fields. */
    method Log(teacher: int, action: Action, studentName: string, subject: string,
               oldMarks: Option<int>, newMarks: Option<int>, ip: Option<string>, now: Instant)
      modifies this
      ensures entries == old(entries) + [AuditEntry(teacher, action, studentName, subject, oldMarks, newMarks, now, IpOrLoopback(ip))]
    {
      entries := entries + [AuditEntry(teacher, action, studentName, subject, oldMarks, newMarks, now, IpOrLoopback(ip))];
    }
  }
}
