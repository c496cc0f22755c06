/**
 * The grade ledger: the student table, the JSON handlers that change it
 * (`update_marks`, `delete_student`, `add_student`) and the sorted listing
 * of `home_view`. Each handler either answers `success: false` and changes
 * nothing, or changes the table and appends exactly one audit entry, as its
 * `transaction.atomic()` block commits both or neither.
 */
module Ledger {
  import opened Common
  import opened Text
  import opened Audit
  import opened PortalUtils

  /** The `max_length` of `Student.name` and `Student.subject`. */
  const FIELD_LENGTH: nat := 100

  datatype Student = Student(id: int, name: string, subject: string, marks: int)

  /** The JSON body `{success, message}` or `{success: false, error}`. */
  datatype ApiResponse = Ok(message: string) | Error(error: string)

  const MISSING_FIELDS: string := "Missing required fields"
  const MARKS_OUT_OF_RANGE: string := "Marks must be between 0 and 100"
  const ID_REQUIRED: string := "Student ID required"
  const NAME_SUBJECT_REQUIRED: string := "Name and subject are required"
  /** `str()` of the `Http404` that `get_object_or_404` raises, which the handlers' `except` returns. */
  const NOT_FOUND: string := "No Student matches the given query."
  const MARKS_UPDATED: string := "Marks updated successfully"
  const STUDENT_DELETED: string := "Student deleted successfully"
  const STUDENT_ADDED: string := "Student added successfully"

  function MergedMessage(oldMarks: nat, newMarks: nat): string
  {
    "Updated existing student. Marks increased from " + Decimal(oldMarks) + " to " + Decimal(newMarks)
  }

  /** Python's `not student_id` for an id that arrives as an integer or not at all. */
  predicate FalsyId(id: Option<int>) {
    id.None? || id.value == 0
  }

  /** `order_by('name', 'subject')`: by name, then by subject. */
  predicate Precedes(x: Student, y: Student) {
    if x.name == y.name then LexLe(x.subject, y.subject) else LexLe(x.name, y.name)
  }

  lemma PrecedesTotal(x: Student, y: Student)
    ensures Precedes(x, y) || Precedes(y, x)
  {
    LexLeTotal(x.name, y.name);
    LexLeTotal(x.subject, y.subject);
  }

  lemma PrecedesTransitive(x: Student, y: Student, z: Student)
    requires Precedes(x, y) && Precedes(y, z)
    ensures Precedes(x, z)
  {
    if x.name == y.name && y.name == z.name {
      LexLeTransitive(x.subject, y.subject, z.subject);
    } else if x.name == y.name {
      assert LexLe(y.name, z.name);
    } else if y.name == z.name {
      assert LexLe(x.name, y.name);
    } else {
      LexLeTransitive(x.name, y.name, z.name);
      if x.name == z.name {
        LexLeAntisymmetric(x.name, y.name);
      }
    }
  }

  ghost predicate Sorted(s: seq<Student>) {
    forall i, j :: 0 <= i < j < |s| ==> Precedes(s[i], s[j])
  }

  function Insert(x: Student, s: seq<Student>): (r: seq<Student>)
    requires Sorted(s)
    ensures Sorted(r)
    ensures multiset(r) == multiset(s) + multiset{x}
  {
    if s == [] then [x]
    else if Precedes(x, s[0]) then
      assert forall j :: 0 <= j < |s| ==> Precedes(x, s[j]) by {
        forall j | 0 <= j < |s| ensures Precedes(x, s[j]) {
          if j > 0 { PrecedesTransitive(x, s[0], s[j]); }
        }
      }
      [x] + s
    else
      PrecedesTotal(x, s[0]);
      var rest := Insert(x, s[1..]);
      assert s == [s[0]] + s[1..];
      assert forall j :: 0 <= j < |rest| ==> Precedes(s[0], rest[j]) by {
        forall j | 0 <= j < |rest| ensures Precedes(s[0], rest[j]) {
          assert rest[j] in multiset(rest);
          if rest[j] != x {
            assert rest[j] in multiset(s[1..]);
            var k :| 0 <= k < |s[1..]| && s[1..][k] == rest[j];
            assert s[k + 1] == rest[j];
          }
        }
      }
      [s[0]] + rest
  }

  /** The listing order: sorted by (name, subject), holding exactly the rows it was given. */
  function SortStudents(s: seq<Student>): (r: seq<Student>)
    ensures Sorted(r)
    ensures multiset(r) == multiset(s)
  {
    if s == [] then []
    else
      assert s == s[..|s| - 1] + [s[|s| - 1]];
      Insert(s[|s| - 1], SortStudents(s[..|s| - 1]))
  }

  /** Two sequences with the same multiset have the same length and the same members. */
  lemma SameElements(a: seq<Student>, b: seq<Student>)
    requires multiset(a) == multiset(b)
    ensures |a| == |b|
    ensures forall x :: x in a <==> x in b
  {
    assert |a| == |multiset(a)| && |b| == |multiset(b)|;
    forall x
      ensures x in a <==> x in b
    {
      assert x in a <==> x in multiset(a);
      assert x in b <==> x in multiset(b);
    }
  }

  /** No two rows share a (name, subject) pair: `unique_together`. */
  ghost predicate UniquePairs(students: map<int, Student>) {
    forall j, k :: j in students && k in students && j != k ==>
      students[j].name != students[k].name || students[j].subject != students[k].subject
  }

  /** The invariant every handler keeps: rows filed under their own ids, marks in range, fields within length, pairs unique. */
  ghost predicate WellFormed(students: map<int, Student>, nextId: int) {
    && (forall k :: k in students ==> students[k].id == k && 0 < k < nextId)
    && (forall k :: k in students ==> 0 <= students[k].marks <= MAX_MARKS)
    && (forall k :: k in students ==> |students[k].name| <= FIELD_LENGTH && |students[k].subject| <= FIELD_LENGTH)
    && UniquePairs(students)
  }

  ghost predicate HasPair(students: map<int, Student>, name: string, subject: string) {
    exists k :: k in students && students[k].name == name && students[k].subject == subject
  }

  /** Changing one row's marks to an in-range value keeps the table well formed. */
  lemma SetMarksPreserves(students: map<int, Student>, nextId: int, k: int, m: int)
    requires WellFormed(students, nextId) && k in students && 0 <= m <= MAX_MARKS
    ensures WellFormed(students[k := students[k].(marks := m)], nextId)
  {
    var after := students[k := students[k].(marks := m)];
    forall i, j | i in after && j in after && i != j
      ensures after[i].name != after[j].name || after[i].subject != after[j].subject
    {
      assert after[i].name == students[i].name && after[i].subject == students[i].subject;
      assert after[j].name == students[j].name && after[j].subject == students[j].subject;
    }
  }

  /** Adding a row under the next id, for a pair not yet present, keeps the table well formed. */
  lemma InsertPreserves(students: map<int, Student>, nextId: int, name: string, subject: string, m: int)
    requires WellFormed(students, nextId) && nextId > 0
    requires !HasPair(students, name, subject)
    requires |name| <= FIELD_LENGTH && |subject| <= FIELD_LENGTH && 0 <= m <= MAX_MARKS
    ensures nextId !in students
    ensures WellFormed(students[nextId := Student(nextId, name, subject, m)], nextId + 1)
  {
    var after := students[nextId := Student(nextId, name, subject, m)];
    forall i, j | i in after && j in after && i != j
      ensures after[i].name != after[j].name || after[i].subject != after[j].subject
    {
      if i == nextId {
        assert after[j] == students[j];
      } else if j == nextId {
        assert after[i] == students[i];
      }
    }
  }

  /** A set with no members is the empty set. */
  lemma NoMemberMeansEmpty(s: set<int>)
    ensures (forall x :: x !in s) ==> s == {}
  {
    if forall x :: x !in s {
      assert s == {};
    }
  }

  /** `Student.objects.all()`: the rows of the table, each once, in the order the store returns them. */
  method TableRows(students: map<int, Student>) returns (rows: seq<Student>)
    requires forall k :: k in students ==> students[k].id == k
    ensures |rows| == |students|
    ensures forall k :: k in students ==> students[k] in rows
    ensures forall i :: 0 <= i < |rows| ==> rows[i] in students.Values
    ensures forall i, j :: 0 <= i < j < |rows| ==> rows[i] != rows[j]
  {
    var remaining := students.Keys;
    rows := [];
    while remaining != {}
      invariant remaining <= students.Keys
      invariant |rows| + |remaining| == |students.Keys|
      invariant forall k :: k in students.Keys - remaining ==> students[k] in rows
      invariant forall i :: 0 <= i < |rows| ==> rows[i] in students.Values && rows[i].id in students.Keys - remaining
      invariant forall i, j :: 0 <= i < j < |rows| ==> rows[i] != rows[j]
      decreases |remaining|
    {
      NoMemberMeansEmpty(remaining);
      var k :| k in remaining;
      rows := rows + [students[k]];
      remaining := remaining - {k};
    }
  }

  /** A sequence without repeats has every element exactly once in its multiset. */
  lemma {:induction false} DistinctCountsOnce(s: seq<Student>)
    requires forall i, j :: 0 <= i < j < |s| ==> s[i] != s[j]
    ensures forall x :: x in s ==> multiset(s)[x] == 1
  {
    if s != [] {
      var t := s[..|s| - 1];
      var last := s[|s| - 1];
      assert s == t + [last];
      DistinctCountsOnce(t);
      assert last !in t by {
        forall i | 0 <= i < |t|
          ensures t[i] != last
        {
          assert t[i] == s[i];
        }
      }
      forall x | x in s
        ensures multiset(s)[x] == 1
      {
        if x != last {
          assert x in t;
        }
      }
    }
  }

  /** A sequence whose every element occurs once in its multiset has no repeats. */
  lemma {:induction false} CountsOnceDistinct(s: seq<Student>)
    requires forall x :: x in s ==> multiset(s)[x] == 1
    ensures forall i, j :: 0 <= i < j < |s| ==> s[i] != s[j]
  {
    forall i, j | 0 <= i < j < |s|
      ensures s[i] != s[j]
    {
      assert s == s[..j] + s[j..];
      assert s[j..][0] == s[j];
      assert multiset(s)[s[j]] == multiset(s[..j])[s[j]] + multiset(s[j..])[s[j]];
      assert s[..j][i] == s[i];
    }
  }

  class GradeLedger {
    var students: map<int, Student>
    /** The next value of the table's auto-increment primary key. */
    var nextId: int
    const audit: AuditLog

    ghost predicate Valid()
      reads this
    {
      nextId > 0 && WellFormed(students, nextId)
    }

    constructor (audit: AuditLog)
      ensures Valid() && students == map[] && this.audit == audit
    {
      students := map[];
      nextId := 1;
      this.audit := audit;
    }

    /** `home_view`: every student exactly once, ordered by (name, subject). */
    method HomeView() returns (r: seq<Student>)
      requires Valid()
      ensures Sorted(r)
      ensures |r| == |students|
      ensures forall k :: k in students ==> students[k] in r
      ensures forall i :: 0 <= i < |r| ==> r[i] in students.Values
      ensures forall i, j :: 0 <= i < j < |r| ==> r[i] != r[j]
    {
      var rows := TableRows(students);
      r := SortStudents(rows);
      SameElements(rows, r);
      DistinctCountsOnce(rows);
      CountsOnceDistinct(r);
      forall i | 0 <= i < |r|
        ensures r[i] in students.Values
      {
        assert r[i] in rows;
        var j :| 0 <= j < |rows| && rows[j] == r[i];
      }
    }

    /** `update_marks`. */
    method UpdateMarks(teacher: int, studentId: Option<int>, marks: MarksInput, meta: map<string, string>, now: Instant)
        returns (r: ApiResponse)
      requires Valid()
      modifies this, audit
      ensures Valid() && nextId == old(nextId)
      ensures r.Error? ==> students == old(students) && audit.entries == old(audit.entries)
      ensures FalsyId(studentId) || marks.Absent? ==> r == Error(MISSING_FIELDS)
      ensures !(FalsyId(studentId) || marks.Absent?) && !ValidateMarks(marks) ==> r == Error(MARKS_OUT_OF_RANGE)
      ensures !FalsyId(studentId) && ValidateMarks(marks) && studentId.value !in old(students) ==> r == Error(NOT_FOUND)
      ensures !FalsyId(studentId) && ValidateMarks(marks) && studentId.value in old(students) ==>
        var id := studentId.value;
        var before := old(students)[id];
        && r == Ok(MARKS_UPDATED)
        && students == old(students)[id := before.(marks := marks.value)]
        && audit.entries == old(audit.entries) +
             [AuditEntry(teacher, Update, before.name, before.subject, Some(before.marks), Some(marks.value), now, IpOrLoopback(GetClientIp(meta)))]
    {
      if FalsyId(studentId) || marks.Absent? {
        return Error(MISSING_FIELDS);
      }
      if !ValidateMarks(marks) {
        return Error(MARKS_OUT_OF_RANGE);
      }
      var id := studentId.value;
      if id !in students {
        return Error(NOT_FOUND);
      }
      var student := students[id];
      var oldMarks := student.marks;
      student := student.(marks := marks.value);
      SetMarksPreserves(students, nextId, id, marks.value);
      students := students[id := student];
      audit.Log(teacher, Update, student.name, student.subject, Some(oldMarks), Some(student.marks), GetClientIp(meta), now);
      r := Ok(MARKS_UPDATED);
    }

    /** `delete_student`: the DELETE entry records the marks held before the row goes. */
    method DeleteStudent(teacher: int, studentId: Option<int>, meta: map<string, string>, now: Instant)
        returns (r: ApiResponse)
      requires Valid()
      modifies this, audit
      ensures Valid() && nextId == old(nextId)
      ensures r.Error? ==> students == old(students) && audit.entries == old(audit.entries)
      ensures FalsyId(studentId) ==> r == Error(ID_REQUIRED)
      ensures !FalsyId(studentId) && studentId.value !in old(students) ==> r == Error(NOT_FOUND)
      ensures !FalsyId(studentId) && studentId.value in old(students) ==>
        var before := old(students)[studentId.value];
        && r == Ok(STUDENT_DELETED)
        && students == old(students) - {studentId.value}
        && audit.entries == old(audit.entries) +
             [AuditEntry(teacher, Delete, before.name, before.subject, Some(before.marks), None, now, IpOrLoopback(GetClientIp(meta)))]
    {
      if FalsyId(studentId) {
        return Error(ID_REQUIRED);
      }
      var id := studentId.value;
      if id !in students {
        return Error(NOT_FOUND);
      }
      var student := students[id];
      audit.Log(teacher, Delete, student.name, student.subject, Some(student.marks), None, GetClientIp(meta), now);
      students := students - {id};
      r := Ok(STUDENT_DELETED);
    }

    /**
     * `add_student`: strip both fields, require them non-empty and the marks valid,
     * truncate both fields to 100 characters, then merge into the row with the same
     * (name, subject), capping at 100, or create a new row.
     */
    method AddStudent(teacher: int, rawName: string, rawSubject: string, marks: MarksInput, meta: map<string, string>, now: Instant)
        returns (r: ApiResponse)
      requires Valid()
      modifies this, audit
      ensures Valid()
      ensures r.Error? ==> students == old(students) && nextId == old(nextId) && audit.entries == old(audit.entries)
      ensures Strip(rawName) == "" || Strip(rawSubject) == "" ==> r == Error(NAME_SUBJECT_REQUIRED)
      ensures Strip(rawName) != "" && Strip(rawSubject) != "" && !ValidateMarks(marks) ==> r == Error(MARKS_OUT_OF_RANGE)
      ensures Strip(rawName) != "" && Strip(rawSubject) != "" && ValidateMarks(marks) ==>
        var name := Truncate(Strip(rawName), FIELD_LENGTH);
        var subject := Truncate(Strip(rawSubject), FIELD_LENGTH);
        && r.Ok?
        && (forall k :: k in old(students) && old(students)[k].name == name && old(students)[k].subject == subject ==>
              var merged := CalculateNewMarks(old(students)[k].marks, marks.value);
              && r == Ok(MergedMessage(old(students)[k].marks, merged))
              && students == old(students)[k := old(students)[k].(marks := merged)]
              && nextId == old(nextId)
              && audit.entries == old(audit.entries) +
                   [AuditEntry(teacher, Update, name, subject, Some(old(students)[k].marks), Some(merged), now, IpOrLoopback(GetClientIp(meta)))])
        && (!HasPair(old(students), name, subject) ==>
              && r == Ok(STUDENT_ADDED)
              && students == old(students)[old(nextId) := Student(old(nextId), name, subject, marks.value)]
              && nextId == old(nextId) + 1
              && audit.entries == old(audit.entries) +
                   [AuditEntry(teacher, Create, name, subject, None, Some(marks.value), now, IpOrLoopback(GetClientIp(meta)))])
    {
      var name := Strip(rawName);
      var subject := Strip(rawSubject);
      if name == "" || subject == "" {
        return Error(NAME_SUBJECT_REQUIRED);
      }
      if !ValidateMarks(marks) {
        return Error(MARKS_OUT_OF_RANGE);
      }
      name := Truncate(name, FIELD_LENGTH);
      subject := Truncate(subject, FIELD_LENGTH);
      var amount := marks.value;
      if k :| k in students && students[k].name == name && students[k].subject == subject {
        assert forall j :: j in students && students[j].name == name && students[j].subject == subject ==> j == k;
        r := MergeMarks(teacher, k, amount, meta, now);
      } else {
        r := CreateStudent(teacher, name, subject, amount, meta, now);
      }
    }

    /** The existing-row branch of `add_student`: add to the marks, capped at 100, and record the UPDATE. */
    method MergeMarks(teacher: int, k: int, amount: int, meta: map<string, string>, now: Instant) returns (r: ApiResponse)
      requires Valid() && k in students && 0 <= amount <= MAX_MARKS
      modifies this, audit
      ensures Valid() && nextId == old(nextId)
      ensures
        var before := old(students)[k];
        var merged := CalculateNewMarks(before.marks, amount);
        && r == Ok(MergedMessage(before.marks, merged))
        && students == old(students)[k := before.(marks := merged)]
        && audit.entries == old(audit.entries) +
             [AuditEntry(teacher, Update, before.name, before.subject, Some(before.marks), Some(merged), now, IpOrLoopback(GetClientIp(meta)))]
    {
      var existing := students[k];
      var oldMarks := existing.marks;
      var newMarks := CalculateNewMarks(oldMarks, amount);
      if newMarks > MAX_MARKS {
        // The "would exceed 100" rejection: the cap above makes it unreachable.
        assert false;
      }
      SetMarksPreserves(students, nextId, k, newMarks);
      students := students[k := existing.(marks := newMarks)];
      audit.Log(teacher, Update, existing.name, existing.subject, Some(oldMarks), Some(newMarks), GetClientIp(meta), now);
      r := Ok(MergedMessage(oldMarks, newMarks));
    }

    /** The new-pair branch of `add_student`: insert the row under the next id and record the CREATE. */
    method CreateStudent(teacher: int, name: string, subject: string, amount: int, meta: map<string, string>, now: Instant)
        returns (r: ApiResponse)
      requires Valid() && !HasPair(students, name, subject)
      requires |name| <= FIELD_LENGTH && |subject| <= FIELD_LENGTH && 0 <= amount <= MAX_MARKS
      modifies this, audit
      ensures Valid()
      ensures r == Ok(STUDENT_ADDED)
      ensures students == old(students)[old(nextId) := Student(old(nextId), name, subject, amount)]
      ensures old(nextId) !in old(students) && nextId == old(nextId) + 1
      ensures audit.entries == old(audit.entries) +
        [AuditEntry(teacher, Create, name, subject, None, Some(amount), now, IpOrLoopback(GetClientIp(meta)))]
    {
      var id := nextId;
      InsertPreserves(students, nextId, name, subject, amount);
      students := students[id := Student(id, name, subject, amount)];
      nextId := nextId + 1;
      audit.Log(teacher, Create, name, subject, None, Some(amount), GetClientIp(meta), now);
      r := Ok(STUDENT_ADDED);
    }
  }
}
