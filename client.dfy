/**
 * The browser side of the portal: the cookie reader that fetches the CSRF
 * token, the required-field check run before a form is submitted, and the
 * range check that guards the inline marks update. `parseInt` and
 * `decodeURIComponent` are parameters; the DOM is reduced to the values the
 * code reads from it.
 */
module ClientScript {
  import opened Common
  import opened Text
  import opened PortalUtils

  /** What JavaScript's `parseInt` yields: NaN, or an integer. */
  datatype ParsedInt = NaN | Num(n: int)

  /** The client's marks test: `isNaN(marks) || marks < 0 || marks > 100`. */
  predicate MarksRejected(p: ParsedInt) {
    p.NaN? || p.n < 0 || p.n > 100
  }

  /** The client and the server draw the same line: an integer gets past the client exactly when `validate_marks` accepts it. */
  lemma ClientAgreesWithServer(n: int)
    ensures !MarksRejected(Num(n)) <==> ValidateMarks(Integral(n))
    ensures MarksRejected(NaN)
  {
  }

  // ---------------------------------------------------------------- getCookie

  /** The comparison in `getCookie`: the trimmed entry's first `name.length + 1` characters are `name=`. */
  predicate EntryMatches(entry: string, name: string) {
    Truncate(Strip(entry), |name| + 1) == name + "="
  }

  /** An entry matches exactly when, once trimmed, it starts with `name=`; a longer name sharing the prefix does not. */
  lemma EntryMatchesIffPrefix(entry: string, name: string, c: char)
    ensures EntryMatches(entry, name) <==> StartsWith(Strip(entry), name + "=")
    ensures c != '=' && StartsWith(Strip(entry), name + [c]) ==> !EntryMatches(entry, name)
  {
    var s := Strip(entry);
    if EntryMatches(entry, name) {
      assert s[..|name| + 1] == name + "=";
    }
    if StartsWith(s, name + "=") {
      assert Truncate(s, |name| + 1) == s[..|name| + 1];
    }
    if c != '=' && StartsWith(s, name + [c]) {
      assert s[|name|] == c;
    }
  }

  /** The text after `name=` in a matching entry, which `getCookie` decodes. */
  function EntryValue(entry: string, name: string, decode: string -> string): (v: string)
    requires EntryMatches(entry, name)
  {
    decode(Strip(entry)[|name| + 1..])
  }

  /** The decoded value of the first entry that matches, if any. */
  function FirstMatch(entries: seq<string>, name: string, decode: string -> string): Option<string>
  {
    if entries == [] then None
    else if EntryMatches(entries[0], name) then Some(EntryValue(entries[0], name, decode))
    else FirstMatch(entries[1..], name, decode)
  }

  /** The value `getCookie(name)` reads from `document.cookie`: nothing from an empty cookie string, else the first match among its `;`-separated entries. */
  function CookieValue(documentCookie: string, name: string, decode: string -> string): (r: Option<string>)
    ensures documentCookie == "" ==> r.None?
    ensures documentCookie != "" ==>
      (r.None? <==> forall i :: 0 <= i < |Split(documentCookie, ';')| ==> !EntryMatches(Split(documentCookie, ';')[i], name))
  {
    if documentCookie == "" then None
    else
      var entries := Split(documentCookie, ';');
      FirstMatchNone(entries, name, decode);
      assert forall i :: 0 <= i < |entries| ==> entries[i] == Split(documentCookie, ';')[i];
      FirstMatch(entries, name, decode)
  }

  /** `getCookie`: walk the entries, trim each, and stop at the first one that starts with `name=`. */
  method GetCookie(documentCookie: string, name: string, decode: string -> string) returns (cookieValue: Option<string>)
    ensures cookieValue == CookieValue(documentCookie, name, decode)
  {
    cookieValue := None;
    if documentCookie != "" {
      var cookies := Split(documentCookie, ';');
      var i := 0;
      while i < |cookies|
        invariant 0 <= i <= |cookies|
        invariant cookieValue == None
        invariant FirstMatch(cookies[i..], name, decode) == FirstMatch(cookies, name, decode)
      {
        var cookie := Strip(cookies[i]);
        if Truncate(cookie, |name| + 1) == name + "=" {
          cookieValue := Some(decode(cookie[|name| + 1..]));
          break;
        }
        assert cookies[i..][1..] == cookies[i + 1..];
        i := i + 1;
      }
    }
  }

  /** Nothing is found exactly when no entry matches. */
  lemma {:induction false} FirstMatchNone(entries: seq<string>, name: string, decode: string -> string)
    ensures FirstMatch(entries, name, decode) == None <==> forall i :: 0 <= i < |entries| ==> !EntryMatches(entries[i], name)
  {
    if entries != [] {
      FirstMatchNone(entries[1..], name, decode);
      assert forall i :: 1 <= i < |entries| ==> entries[i] == entries[1..][i - 1];
    }
  }

  /** The value found is that of the first matching entry: every entry before it fails to match. */
  lemma {:induction false} FirstMatchIsFirst(entries: seq<string>, name: string, decode: string -> string, j: nat)
    requires j < |entries| && EntryMatches(entries[j], name)
    requires forall i :: 0 <= i < j ==> !EntryMatches(entries[i], name)
    ensures FirstMatch(entries, name, decode) == Some(EntryValue(entries[j], name, decode))
  {
    if j > 0 {
      assert forall i :: 0 <= i < j - 1 ==> entries[1..][i] == entries[i + 1];
      FirstMatchIsFirst(entries[1..], name, decode, j - 1);
    }
  }

  /** Once a match is found, whatever comes after it, duplicates included, is ignored. */
  lemma {:induction false} LaterEntriesIgnored(entries: seq<string>, more: seq<string>, name: string, decode: string -> string)
    requires FirstMatch(entries, name, decode).Some?
    ensures FirstMatch(entries + more, name, decode) == FirstMatch(entries, name, decode)
  {
    var all := entries + more;
    assert all[0] == entries[0];
    if !EntryMatches(entries[0], name) {
      assert all[1..] == entries[1..] + more;
      LaterEntriesIgnored(entries[1..], more, name, decode);
    }
  }

  /**
   * Reading back what was written: in a cookie string whose first entry is `name=value`
   * (no `;` in either, neither edge blank), `getCookie(name)` yields the decoded value,
   * whatever the remaining entries say.
   */
  lemma ReadsBackFirstEntry(name: string, value: string, rest: seq<string>, decode: string -> string)
    requires ';' !in name && ';' !in value
    requires name != [] && !IsSpace(name[0])
    requires value != [] ==> !IsSpace(value[|value| - 1])
    requires forall i :: 0 <= i < |rest| ==> ';' !in rest[i]
    ensures CookieValue(Join([name + "=" + value] + rest, ';'), name, decode) == Some(decode(value))
  {
    var entry := name + "=" + value;
    var parts := [entry] + rest;
    EntryHasNoSeparator(name, value);
    PartsHaveNoSeparator(entry, rest);
    CookieOfEntries(parts, name, decode);
    CleanEntryMatches(name, value, decode);
    FirstMatchIsFirst(parts, name, decode, 0);
  }

  /** A cookie string made of entries free of `;`, the first non-empty, reads as the entries themselves. */
  lemma CookieOfEntries(parts: seq<string>, name: string, decode: string -> string)
    requires |parts| >= 1 && parts[0] != ""
    requires forall i :: 0 <= i < |parts| ==> ';' !in parts[i]
    ensures CookieValue(Join(parts, ';'), name, decode) == FirstMatch(parts, name, decode)
  {
    SplitJoin(parts, ';');
    var doc := Join(parts, ';');
    assert |doc| >= |parts[0]| by {
      if |parts| > 1 {
        assert doc == parts[0] + [';'] + Join(parts[1..], ';');
      }
    }
  }

  lemma EntryHasNoSeparator(name: string, value: string)
    requires ';' !in name && ';' !in value
    ensures ';' !in name + "=" + value
  {
    var entry := name + "=" + value;
    forall i | 0 <= i < |entry|
      ensures entry[i] != ';'
    {
      if i < |name| {
        assert entry[i] == name[i];
      } else if i > |name| {
        assert entry[i] == value[i - |name| - 1];
      }
    }
  }

  lemma PartsHaveNoSeparator(entry: string, rest: seq<string>)
    requires ';' !in entry
    requires forall i :: 0 <= i < |rest| ==> ';' !in rest[i]
    ensures forall i :: 0 <= i < |[entry] + rest| ==> ';' !in ([entry] + rest)[i]
  {
    var parts := [entry] + rest;
    forall i | 0 <= i < |parts|
      ensures ';' !in parts[i]
    {
      if i > 0 {
        assert parts[i] == rest[i - 1];
      }
    }
  }

  /** The entry `name=value`, with no blank edge, matches `name` and carries `value`. */
  lemma CleanEntryMatches(name: string, value: string, decode: string -> string)
    requires name != [] && !IsSpace(name[0])
    requires value != [] ==> !IsSpace(value[|value| - 1])
    ensures EntryMatches(name + "=" + value, name)
    ensures EntryValue(name + "=" + value, name, decode) == decode(value)
  {
    var entry := name + "=" + value;
    assert entry[0] == name[0];
    assert entry[|entry| - 1] == if value == [] then '=' else value[|value| - 1];
    StripClean(entry);
    assert entry[..|name| + 1] == name + "=";
    assert entry[|name| + 1..] == value;
  }

  // ------------------------------------------------------------- validateForm

  /** One `input[required]` of a form, as far as `validateForm` looks at it. */
  datatype FormInput = FormInput(value: string, inputType: string, name: string)

  predicate IsMarksField(input: FormInput) {
    input.inputType == "number" && input.name == "marks"
  }

  /** A value that trims to nothing: every character is whitespace. */
  predicate Blank(s: string) {
    forall i :: 0 <= i < |s| ==> IsSpace(s[i])
  }

  /** What `validateForm` lets through: a value that is not blank, and for the marks field a parse in [0, 100]. */
  predicate InputAcceptable(input: FormInput, parseInt: string -> ParsedInt) {
    !Blank(input.value) && !(IsMarksField(input) && MarksRejected(parseInt(input.value)))
  }

  /**
   * `validateForm`: visit every required input, flagging it `is-invalid` when it is
   * blank or, as the marks field, out of range; the form is valid when none is flagged.
   * `invalid[i]` is whether input i carries `is-invalid` afterwards.
   */
  method ValidateForm(inputs: seq<FormInput>, parseInt: string -> ParsedInt) returns (isValid: bool, invalid: seq<bool>)
    ensures |invalid| == |inputs|
    ensures forall i :: 0 <= i < |inputs| ==> invalid[i] == !InputAcceptable(inputs[i], parseInt)
    ensures isValid <==> forall i :: 0 <= i < |inputs| ==> InputAcceptable(inputs[i], parseInt)
  {
    isValid := true;
    invalid := [];
    var k := 0;
    while k < |inputs|
      invariant 0 <= k <= |inputs| && |invalid| == k
      invariant forall i :: 0 <= i < k ==> invalid[i] == !InputAcceptable(inputs[i], parseInt)
      invariant isValid <==> forall i :: 0 <= i < k ==> !invalid[i]
    {
      var flagged := CheckInput(inputs[k], parseInt);
      if flagged {
        isValid := false;
      }
      invalid := invalid + [flagged];
      k := k + 1;
    }
  }

  /** The `forEach` callback of `validateForm` for one input: whether it ends up flagged `is-invalid`. */
  method CheckInput(input: FormInput, parseInt: string -> ParsedInt) returns (flagged: bool)
    ensures flagged == !InputAcceptable(input, parseInt)
  {
    StripEmptyIffBlank(input.value);
    if Strip(input.value) == "" {
      flagged := true;
    } else {
      flagged := false;
    }
    if input.inputType == "number" && input.name == "marks" {
      var marks := parseInt(input.value);
      if marks.NaN? || marks.n < 0 || marks.n > 100 {
        flagged := true;
      }
    }
  }

  /** A marks field the client accepts carries a value the server's `validate_marks` accepts too. */
  lemma AcceptedMarksFieldIsValid(input: FormInput, parseInt: string -> ParsedInt)
    requires IsMarksField(input) && InputAcceptable(input, parseInt)
    ensures parseInt(input.value).Num?
    ensures ValidateMarks(Integral(parseInt(input.value).n))
  {
  }

  // --------------------------------------------------------- save marks click

  const MARKS_RANGE_MESSAGE: string := "Marks must be between 0 and 100"

  /** What a click on a row's save button leads to: an error toast, or the update request. */
  datatype SaveOutcome =
    | ShowError(message: string)
    | SendUpdate(studentId: string, marks: int)  // the body of the POST to the update endpoint

  /** The save handler: parse the edited marks and send them only when they pass the range test. */
  function SaveMarks(studentId: string, rawMarks: string, parseInt: string -> ParsedInt): (r: SaveOutcome)
    ensures r.SendUpdate? <==> !MarksRejected(parseInt(rawMarks))
    ensures r.ShowError? ==> r.message == MARKS_RANGE_MESSAGE
    ensures r.SendUpdate? ==> r.studentId == studentId && Num(r.marks) == parseInt(rawMarks)
  {
    var newMarks := parseInt(rawMarks);
    if newMarks.NaN? || newMarks.n < 0 || newMarks.n > 100 then ShowError(MARKS_RANGE_MESSAGE)
    else SendUpdate(studentId, newMarks.n)
  }

  /** No request leaves the browser with marks the server would reject as out of range. */
  lemma SaveSendsOnlyValidMarks(studentId: string, rawMarks: string, parseInt: string -> ParsedInt)
    ensures SaveMarks(studentId, rawMarks, parseInt).SendUpdate? ==>
      ValidateMarks(Integral(SaveMarks(studentId, rawMarks, parseInt).marks))
    ensures parseInt(rawMarks).NaN? ==> SaveMarks(studentId, rawMarks, parseInt) == ShowError(MARKS_RANGE_MESSAGE)
  {
  }
}
