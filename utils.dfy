/** The pure helpers of the portal's utility module. */
module PortalUtils {
  import opened Common
  import opened Text

  /** The ceiling on a student's marks. */
  const MAX_MARKS: int := 100

  /** `calculate_new_marks`: the sum, capped at the ceiling. */
  function CalculateNewMarks(existing: int, added: int): (r: int)
    ensures r <= MAX_MARKS
    ensures existing + added <= MAX_MARKS ==> r == existing + added
    ensures existing + added > MAX_MARKS ==> r == MAX_MARKS
  {
    var total := existing + added;
    if total < MAX_MARKS then total else MAX_MARKS
  }

  /** Merging two in-range amounts always lands in range again, so the cap is all the guard there is. */
  lemma MergeStaysInRange(existing: int, added: int)
    requires 0 <= existing <= MAX_MARKS && 0 <= added <= MAX_MARKS
    ensures 0 <= CalculateNewMarks(existing, added) <= MAX_MARKS
    ensures existing <= CalculateNewMarks(existing, added)
  {
  }

  /**
   * A marks value as the request delivers it: missing (Python `None`), one that `int()`
   * converts, or one that `int()` rejects with `ValueError` or `TypeError`.
   */
  datatype MarksInput = Absent | Integral(value: int) | NotIntegral

  /** `validate_marks`: true exactly for values converting to an integer in [0, 100]; never raises. */
  function ValidateMarks(m: MarksInput): (ok: bool)
    ensures ok <==> m.Integral? && 0 <= m.value <= MAX_MARKS
    ensures m.Absent? || m.NotIntegral? ==> !ok
  {
    match m
    case Integral(n) => 0 <= n <= MAX_MARKS
    case _ => false
  }

  const FORWARDED_FOR: string := "HTTP_X_FORWARDED_FOR"
  const REMOTE_ADDR: string := "REMOTE_ADDR"

  /** `request.META.get(key)`. */
  function MetaGet(meta: map<string, string>, key: string): Option<string>
  {
    if key in meta then Some(meta[key]) else None
  }

  /** `get_client_ip`: the text before the first comma of a non-empty X-Forwarded-For, else REMOTE_ADDR (which may be absent). */
  function GetClientIp(meta: map<string, string>): (r: Option<string>)
    ensures r.None? <==> (FORWARDED_FOR !in meta || meta[FORWARDED_FOR] == "") && REMOTE_ADDR !in meta
    ensures FORWARDED_FOR in meta && meta[FORWARDED_FOR] != "" ==> r.value <= meta[FORWARDED_FOR] && ',' !in r.value
  {
    var forwarded := MetaGet(meta, FORWARDED_FOR);
    if forwarded.Some? && forwarded.value != "" then
      FirstPiece(forwarded.value, ',');
      Some(Split(forwarded.value, ',')[0])
    else MetaGet(meta, REMOTE_ADDR)
  }

  /** A non-empty X-Forwarded-For gives its untrimmed text up to the first comma, which holds no comma itself. */
  lemma ForwardedIpIsFirstHop(meta: map<string, string>)
    requires FORWARDED_FOR in meta && meta[FORWARDED_FOR] != ""
    ensures GetClientIp(meta).Some?
    ensures GetClientIp(meta).value <= meta[FORWARDED_FOR]
    ensures ',' !in GetClientIp(meta).value
    ensures |GetClientIp(meta).value| < |meta[FORWARDED_FOR]| ==>
      meta[FORWARDED_FOR][|GetClientIp(meta).value|] == ','
    ensures ',' !in meta[FORWARDED_FOR] ==> GetClientIp(meta) == Some(meta[FORWARDED_FOR])
  {
    FirstPiece(meta[FORWARDED_FOR], ',');
  }

  /** Without a usable X-Forwarded-For the result is REMOTE_ADDR as given, or nothing. */
  lemma RemoteAddrFallback(meta: map<string, string>)
    requires FORWARDED_FOR !in meta || meta[FORWARDED_FOR] == ""
    ensures GetClientIp(meta) == MetaGet(meta, REMOTE_ADDR)
  {
  }
}
