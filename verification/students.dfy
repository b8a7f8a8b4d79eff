/** The data layer over the `students` table. The table is kept abstract:
    a map from id to row plus the next value of the `serial` id column.
    Each operation of the source wraps one SQL statement; its meaning is
    given here by the pure functions that the statements compute. */
module Students {
  import opened Wrappers
  import opened Email

  datatype Student = Student(id: int, name: string, age: int, grade: string, email: string)

  /** A row of `SELECT id, name, email`. */
  datatype EmailRow = EmailRow(id: int, name: string, email: string)

  /** A row of `SELECT grade, COUNT(*) ... GROUP BY grade`. */
  datatype GradeCount = GradeCount(grade: string, count: nat)

  const InvalidEmailMessage := "Invalid email address"
  const NotFoundMessage := "Student not found"
  /** PostgreSQL's rejection of the NaN that `parseInt` yields for a non-numeric id. */
  const NanIdMessage := "invalid input syntax for type integer: \"NaN\""

  // ---------------------------------------------------------------- the table

  /** Every row is stored under its own id. */
  ghost predicate KeyedById(rows: map<int, Student>) {
    forall id :: id in rows ==> rows[id].id == id
  }

  /** The serial column: ids start at 1 and stay below the next value it hands out. */
  ghost predicate WellKeyed(rows: map<int, Student>, nextId: int) {
    KeyedById(rows) && 1 <= nextId && forall id :: id in rows ==> 1 <= id < nextId
  }

  ghost predicate AscendingIds(s: seq<Student>) {
    forall i, j :: 0 <= i < j < |s| ==> s[i].id < s[j].id
  }

  /** The rows whose ids lie in [lo, hi), in ascending id order. */
  function RowsInRange(rows: map<int, Student>, lo: int, hi: int): (r: seq<Student>)
    requires KeyedById(rows)
    ensures forall i :: 0 <= i < |r| ==> lo <= r[i].id < hi && r[i].id in rows && rows[r[i].id] == r[i]
    ensures AscendingIds(r)
    decreases hi - lo
  {
    if lo >= hi then []
    else (if lo in rows then [rows[lo]] else []) + RowsInRange(rows, lo + 1, hi)
  }

  lemma {:induction false} RowsInRangeComplete(rows: map<int, Student>, lo: int, hi: int, id: int)
    requires KeyedById(rows) && id in rows && lo <= id < hi
    ensures rows[id] in RowsInRange(rows, lo, hi)
    decreases hi - lo
  {
    if id != lo {
      RowsInRangeComplete(rows, lo + 1, hi, id);
    }
  }

  lemma {:induction false} RowsInRangeSize(rows: map<int, Student>, lo: int, hi: int)
    requires KeyedById(rows)
    ensures |RowsInRange(rows, lo, hi)| == |set id | id in rows && lo <= id < hi|
    decreases hi - lo
  {
    var keys := set id | id in rows && lo <= id < hi;
    if lo >= hi {
      assert keys == {};
    } else {
      var rest := set id | id in rows && lo + 1 <= id < hi;
      RowsInRangeSize(rows, lo + 1, hi);
      if lo in rows {
        assert keys == {lo} + rest;
      } else {
        assert keys == rest;
      }
    }
  }

  /** `SELECT * FROM students ORDER BY id`. */
  function AllStudents(rows: map<int, Student>, nextId: int): seq<Student>
    requires KeyedById(rows)
  {
    RowsInRange(rows, 1, nextId)
  }

  /** The listing holds every row once, in ascending id order, and nothing else. */
  lemma AllStudentsSpec(rows: map<int, Student>, nextId: int)
    requires WellKeyed(rows, nextId)
    ensures AscendingIds(AllStudents(rows, nextId))
    ensures forall s :: s in AllStudents(rows, nextId) <==> s.id in rows && rows[s.id] == s
    ensures |AllStudents(rows, nextId)| == |rows|
  {
    var all := AllStudents(rows, nextId);
    forall s: Student | s.id in rows && rows[s.id] == s ensures s in all {
      RowsInRangeComplete(rows, 1, nextId, s.id);
    }
    RowsInRangeSize(rows, 1, nextId);
    assert (set id | id in rows && 1 <= id < nextId) == rows.Keys;
  }

  /** The rows of `students` with grade `g`, in their original order. */
  function WithGrade(students: seq<Student>, g: string): (r: seq<Student>)
    ensures forall s :: s in r <==> s in students && s.grade == g
  {
    if |students| == 0 then []
    else (if students[0].grade == g then [students[0]] else []) + WithGrade(students[1..], g)
  }

  /** Filtering keeps the ascending id order. */
  lemma {:induction false} WithGradeAscending(students: seq<Student>, g: string)
    requires AscendingIds(students)
    ensures AscendingIds(WithGrade(students, g))
  {
    if |students| > 0 {
      var tail := students[1..];
      assert AscendingIds(tail) by {
        forall i, j | 0 <= i < j < |tail| ensures tail[i].id < tail[j].id {
          assert tail[i] == students[i + 1] && tail[j] == students[j + 1];
        }
      }
      WithGradeAscending(tail, g);
      var rest := WithGrade(tail, g);
      if students[0].grade == g {
        forall s | s in rest ensures students[0].id < s.id {
          var k :| 0 <= k < |tail| && tail[k] == s;
          assert students[k + 1] == s;
        }
        AscendingCons(students[0], rest);
      }
    }
  }

  lemma AscendingCons(a: Student, rest: seq<Student>)
    requires AscendingIds(rest)
    requires forall s :: s in rest ==> a.id < s.id
    ensures AscendingIds([a] + rest)
  {
    var r := [a] + rest;
    forall i, j | 0 <= i < j < |r| ensures r[i].id < r[j].id {
      assert r[j] == rest[j - 1];
      if i > 0 {
        assert r[i] == rest[i - 1];
      } else {
        assert r[j] in rest;
      }
    }
  }

  /** `SELECT * FROM students WHERE grade = $1 ORDER BY id`: exactly the rows
      with that grade, ascending by id, possibly none. */
  lemma StudentsByGradeSpec(rows: map<int, Student>, nextId: int, g: string)
    requires WellKeyed(rows, nextId)
    ensures AscendingIds(WithGrade(AllStudents(rows, nextId), g))
    ensures forall s :: s in WithGrade(AllStudents(rows, nextId), g) <==>
      s.id in rows && rows[s.id] == s && s.grade == g
  {
    AllStudentsSpec(rows, nextId);
    WithGradeAscending(AllStudents(rows, nextId), g);
  }

  // ---------------------------------------------------------------- average age

  function SumAges(students: seq<Student>): int {
    if |students| == 0 then 0 else students[0].age + SumAges(students[1..])
  }

  /** `parseFloat(AVG(age)) || 0`: the mean age, and 0 for an empty table,
      where AVG is NULL and parseFloat yields NaN. */
  function AverageAge(students: seq<Student>): real {
    if |students| == 0 then 0.0 else SumAges(students) as real / |students| as real
  }

  lemma AverageAgeSpec(students: seq<Student>)
    ensures |students| == 0 ==> AverageAge(students) == 0.0
    ensures AverageAge(students) * |students| as real == SumAges(students) as real
  {
  }

  lemma {:induction false} SumAgesBounds(students: seq<Student>, lo: int, hi: int)
    requires forall i :: 0 <= i < |students| ==> lo <= students[i].age <= hi
    ensures |students| * lo <= SumAges(students) <= |students| * hi
  {
    if |students| > 0 {
      SumAgesBounds(students[1..], lo, hi);
    }
  }

  /** The mean of a non-empty table lies between its youngest and oldest ages. */
  lemma AverageAgeWithinBounds(students: seq<Student>, lo: int, hi: int)
    requires |students| > 0
    requires forall i :: 0 <= i < |students| ==> lo <= students[i].age <= hi
    ensures lo as real <= AverageAge(students) <= hi as real
  {
    SumAgesBounds(students, lo, hi);
    var n := |students|;
    ProductAsReal(n, lo);
    ProductAsReal(n, hi);
    QuotientBounds(SumAges(students) as real, n as real, lo as real, hi as real);
  }

  lemma ProductAsReal(a: int, b: int)
    ensures (a * b) as real == a as real * b as real
  {
  }

  lemma QuotientBounds(sum: real, n: real, lo: real, hi: real)
    requires n > 0.0 && n * lo <= sum <= n * hi
    ensures lo <= sum / n <= hi
  {
    var q := sum / n;
    assert q * n == sum;
    assert (q - lo) * n >= 0.0;
    assert (hi - q) * n >= 0.0;
  }

  // ---------------------------------------------------------------- grade distribution

  /** Number of rows with grade `g`. */
  function Tally(students: seq<Student>, g: string): nat {
    if |students| == 0 then 0
    else Tally(students[..|students| - 1], g) + (if students[|students| - 1].grade == g then 1 else 0)
  }

  ghost function GradesPresent(students: seq<Student>): set<string> {
    set s | s in students :: s.grade
  }

  /** The grades present, each once, in order of first appearance. */
  function DistinctGrades(students: seq<Student>): (gs: seq<string>)
    ensures forall i, j :: 0 <= i < j < |gs| ==> gs[i] != gs[j]
    ensures forall g :: g in gs <==> g in GradesPresent(students)
  {
    if |students| == 0 then []
    else
      var init := students[..|students| - 1];
      var last := students[|students| - 1];
      assert students == init + [last];
      assert GradesPresent(students) == GradesPresent(init) + {last.grade};
      var d := DistinctGrades(init);
      if last.grade in d then d else d + [last.grade]
  }

  function Groups(gs: seq<string>, students: seq<Student>): (r: seq<GradeCount>)
    ensures |r| == |gs| && forall i :: 0 <= i < |gs| ==> r[i] == GradeCount(gs[i], Tally(students, gs[i]))
  {
    if |gs| == 0 then [] else [GradeCount(gs[0], Tally(students, gs[0]))] + Groups(gs[1..], students)
  }

  /** `SELECT grade, COUNT(*) FROM students GROUP BY grade`. */
  function GradeGroups(students: seq<Student>): seq<GradeCount> {
    Groups(DistinctGrades(students), students)
  }

  function SumCounts(groups: seq<GradeCount>): nat {
    if |groups| == 0 then 0 else groups[0].count + SumCounts(groups[1..])
  }

  function Occurrences(gs: seq<string>, g: string): nat {
    if |gs| == 0 then 0 else (if gs[0] == g then 1 else 0) + Occurrences(gs[1..], g)
  }

  lemma {:induction false} OccurrencesDistinct(gs: seq<string>, g: string)
    requires forall i, j :: 0 <= i < j < |gs| ==> gs[i] != gs[j]
    ensures Occurrences(gs, g) == if g in gs then 1 else 0
  {
    if |gs| > 0 {
      OccurrencesDistinct(gs[1..], g);
      if gs[0] == g {
        assert g !in gs[1..];
      }
    }
  }

  lemma {:induction false} SumGroupsAppendRow(gs: seq<string>, students: seq<Student>, x: Student)
    ensures SumCounts(Groups(gs, students + [x])) == SumCounts(Groups(gs, students)) + Occurrences(gs, x.grade)
  {
    if |gs| > 0 {
      SumGroupsAppendRow(gs[1..], students, x);
      assert (students + [x])[..|students|] == students;
    }
  }

  lemma {:induction false} SumGroupsAppendGrade(gs: seq<string>, g: string, students: seq<Student>)
    ensures SumCounts(Groups(gs + [g], students)) == SumCounts(Groups(gs, students)) + Tally(students, g)
  {
    if |gs| == 0 {
      assert gs + [g] == [g];
    } else {
      assert (gs + [g])[1..] == gs[1..] + [g];
      SumGroupsAppendGrade(gs[1..], g, students);
    }
  }

  lemma {:induction false} TallyAbsent(students: seq<Student>, g: string)
    requires g !in GradesPresent(students)
    ensures Tally(students, g) == 0
  {
    if |students| > 0 {
      var init := students[..|students| - 1];
      assert students[|students| - 1] in students;
      assert forall s :: s in init ==> s in students;
      TallyAbsent(init, g);
    }
  }

  /** The grouped counts cover every row exactly once. */
  lemma {:induction false} GradeGroupsSumToSize(students: seq<Student>)
    ensures SumCounts(GradeGroups(students)) == |students|
  {
    if |students| > 0 {
      var init := students[..|students| - 1];
      var last := students[|students| - 1];
      assert students == init + [last];
      GradeGroupsSumToSize(init);
      var d := DistinctGrades(init);
      SumGroupsAppendRow(d, init, last);
      OccurrencesDistinct(d, last.grade);
      if last.grade !in d {
        SumGroupsAppendGrade(d, last.grade, students);
        TallyAbsent(init, last.grade);
      }
    }
  }

  /** The grouped rows: one per grade present, each grade once, each count
      the number of rows with that grade (so at least one), and the counts
      add up to the number of rows. */
  lemma GradeGroupsSpec(students: seq<Student>)
    ensures forall i, j :: 0 <= i < j < |GradeGroups(students)| ==>
      GradeGroups(students)[i].grade != GradeGroups(students)[j].grade
    ensures forall g :: g in GradesPresent(students) <==>
      exists i :: 0 <= i < |GradeGroups(students)| && GradeGroups(students)[i].grade == g
    ensures forall i :: 0 <= i < |GradeGroups(students)| ==>
      GradeGroups(students)[i].count == Tally(students, GradeGroups(students)[i].grade) >= 1
    ensures SumCounts(GradeGroups(students)) == |students|
  {
    var d := DistinctGrades(students);
    var groups := GradeGroups(students);
    forall g | g in GradesPresent(students)
      ensures exists i :: 0 <= i < |groups| && groups[i].grade == g
    {
      var i :| 0 <= i < |d| && d[i] == g;
      assert groups[i].grade == g;
    }
    forall i | 0 <= i < |groups| ensures groups[i].count >= 1 {
      assert d[i] in d;
      TallyPresent(students, d[i]);
    }
    GradeGroupsSumToSize(students);
  }

  lemma {:induction false} TallyPresent(students: seq<Student>, g: string)
    requires g in GradesPresent(students)
    ensures Tally(students, g) >= 1
  {
    var init := students[..|students| - 1];
    var last := students[|students| - 1];
    assert students == init + [last];
    if last.grade != g {
      var s :| s in students && s.grade == g;
      assert s in init;
      TallyPresent(init, g);
    }
  }

  /** The one key an assignment to a plain `{}` does not create: writing a
      number to `__proto__` goes to the inherited prototype setter, which
      ignores anything that is not an object. */
  const ProtoKey := "__proto__"

  /** The loop of getGradeDistribution: `distribution[row.grade] = row.count`
      for each grouped row in turn. Every grade of a row except `__proto__`
      becomes a key, and a grade's value is the count of the last row that
      carries it. */
  method BuildDistribution(groups: seq<GradeCount>) returns (dist: map<string, nat>)
    ensures forall g :: g in dist <==> g != ProtoKey && exists i :: 0 <= i < |groups| && groups[i].grade == g
    ensures forall i :: 0 <= i < |groups| && LastWithGrade(groups, i) && groups[i].grade != ProtoKey ==>
      dist[groups[i].grade] == groups[i].count
  {
    dist := map[];
    var k := 0;
    while k < |groups|
      invariant 0 <= k <= |groups|
      invariant forall g :: g in dist <==> g != ProtoKey && exists i :: 0 <= i < k && groups[i].grade == g
      invariant forall i :: 0 <= i < k && LastWithGrade(groups[..k], i) && groups[i].grade != ProtoKey ==>
        dist[groups[i].grade] == groups[i].count
    {
      forall i | 0 <= i < k && LastWithGrade(groups[..k + 1], i)
        ensures LastWithGrade(groups[..k], i) && groups[i].grade != groups[k].grade
      {
        LastWithGradeOfPrefix(groups, k, i);
      }
      if groups[k].grade != ProtoKey {
        dist := dist[groups[k].grade := groups[k].count];
      }
      k := k + 1;
    }
    assert groups[..k] == groups;
  }

  /** A row that is the last of its grade in a longer prefix is so in the
      shorter one, and differs in grade from the row that was added. */
  lemma LastWithGradeOfPrefix(groups: seq<GradeCount>, k: int, i: int)
    requires 0 <= i < k < |groups|
    requires LastWithGrade(groups[..k + 1], i)
    ensures LastWithGrade(groups[..k], i) && groups[i].grade != groups[k].grade
  {
    assert groups[..k + 1][k] == groups[k];
  }

  /** No later row of `groups` has the grade of row i. */
  ghost predicate LastWithGrade(groups: seq<GradeCount>, i: int)
    requires 0 <= i < |groups|
  {
    forall j :: i < j < |groups| ==> groups[j].grade != groups[i].grade
  }

  // ---------------------------------------------------------------- e-mail audit

  function Projection(s: Student): EmailRow {
    EmailRow(s.id, s.name, s.email)
  }

  /** The rows whose e-mail fails the check, as (id, name, email), in row order. */
  function InvalidEmails(students: seq<Student>): seq<EmailRow> {
    if |students| == 0 then []
    else
      var last := students[|students| - 1];
      InvalidEmails(students[..|students| - 1]) + (if IsValidEmail(last.email) then [] else [Projection(last)])
  }

  /** Exactly the rows with a failing e-mail are reported. */
  lemma {:induction false} InvalidEmailsSpec(students: seq<Student>)
    ensures forall r :: r in InvalidEmails(students) <==>
      exists s :: s in students && !IsValidEmail(s.email) && r == Projection(s)
    ensures |InvalidEmails(students)| <= |students|
  {
    if |students| > 0 {
      var init := students[..|students| - 1];
      assert students == init + [students[|students| - 1]];
      InvalidEmailsSpec(init);
    }
  }

  /** The loop of validateAllEmails: push each row whose e-mail fails. */
  method CollectInvalidEmails(students: seq<Student>) returns (invalid: seq<EmailRow>)
    ensures invalid == InvalidEmails(students)
  {
    invalid := [];
    var k := 0;
    while k < |students|
      invariant 0 <= k <= |students|
      invariant invalid == InvalidEmails(students[..k])
    {
      assert students[..k + 1][..k] == students[..k];
      if !IsValidEmail(students[k].email) {
        invalid := invalid + [Projection(students[k])];
      }
      k := k + 1;
    }
    assert students[..k] == students;
  }

  // ---------------------------------------------------------------- the store

  /** The students table behind the connection pool. */
  class StudentStore {
    var rows: map<int, Student>
    var nextId: int
    /** A failed connection: while set, every statement fails with this message. */
    var fault: Option<string>

    ghost predicate Valid()
      reads this
    {
      WellKeyed(rows, nextId)
    }

    constructor (fault: Option<string>)
      ensures Valid() && rows == map[] && nextId == 1 && this.fault == fault
    {
      rows := map[];
      nextId := 1;
      this.fault := fault;
    }

    /** getAllStudents */
    method GetAllStudents() returns (r: Result<seq<Student>>)
      requires Valid()
      ensures fault.Some? ==> r == Failure(fault.value)
      ensures fault.None? ==> r == Success(AllStudents(rows, nextId))
      ensures r.Success? ==>
        && AscendingIds(r.value) && |r.value| == |rows|
        && forall s :: s in r.value <==> s.id in rows && rows[s.id] == s
    {
      if fault.Some? {
        return Failure(fault.value);
      }
      AllStudentsSpec(rows, nextId);
      r := Success(AllStudents(rows, nextId));
    }

    /** getStudentById: the row with that id, if any. */
    method GetStudentById(id: Option<int>) returns (r: Result<Student>)
      requires Valid()
      ensures fault.Some? ==> r == Failure(fault.value)
      ensures fault.None? && id.None? ==> r == Failure(NanIdMessage)
      ensures fault.None? && id.Some? && id.value !in rows ==> r == Failure(NotFoundMessage)
      ensures fault.None? && id.Some? && id.value in rows ==> r == Success(rows[id.value])
      ensures r.Success? ==> r.value.id == id.value
    {
      if fault.Some? {
        r := Failure(fault.value);
      } else if id.None? {
        r := Failure(NanIdMessage);
      } else if id.value !in rows {
        r := Failure(NotFoundMessage);
      } else {
        r := Success(rows[id.value]);
      }
    }

    /** getStudentsByGrade */
    method GetStudentsByGrade(g: string) returns (r: Result<seq<Student>>)
      requires Valid()
      ensures fault.Some? ==> r == Failure(fault.value)
      ensures fault.None? ==> r == Success(WithGrade(AllStudents(rows, nextId), g))
      ensures r.Success? ==>
        && AscendingIds(r.value)
        && forall s :: s in r.value <==> s.id in rows && rows[s.id] == s && s.grade == g
    {
      if fault.Some? {
        return Failure(fault.value);
      }
      StudentsByGradeSpec(rows, nextId, g);
      r := Success(WithGrade(AllStudents(rows, nextId), g));
    }

    /** getAverageAge */
    method GetAverageAge() returns (r: Result<real>)
      requires Valid()
      ensures fault.Some? ==> r == Failure(fault.value)
      ensures fault.None? ==> r == Success(AverageAge(AllStudents(rows, nextId)))
      ensures fault.None? && rows == map[] ==> r == Success(0.0)
    {
      if fault.Some? {
        return Failure(fault.value);
      }
      AllStudentsSpec(rows, nextId);
      r := Success(AverageAge(AllStudents(rows, nextId)));
    }

    /** getGradeDistribution: one key per grade present, except `__proto__`,
        mapped to its row count. */
    method GetGradeDistribution() returns (r: Result<map<string, nat>>)
      requires Valid()
      ensures fault.Some? ==> r == Failure(fault.value)
      ensures fault.None? ==> r.Success?
      ensures r.Success? ==>
        && r.value.Keys == GradesPresent(AllStudents(rows, nextId)) - {ProtoKey}
        && forall g :: g in r.value ==> r.value[g] == Tally(AllStudents(rows, nextId), g) >= 1
    {
      if fault.Some? {
        return Failure(fault.value);
      }
      var all := AllStudents(rows, nextId);
      var groups := GradeGroups(all);
      var dist := BuildDistribution(groups);
      GradeGroupsSpec(all);
      forall g | g in dist ensures dist[g] == Tally(all, g) >= 1 {
        var i :| 0 <= i < |groups| && groups[i].grade == g;
        assert LastWithGrade(groups, i);
      }
      forall g ensures g in dist <==> g in GradesPresent(all) - {ProtoKey} {
        if g in GradesPresent(all) {
          var i :| 0 <= i < |groups| && groups[i].grade == g;
        }
      }
      r := Success(dist);
    }

    /** validateAllEmails: the rows whose e-mail fails the check, projected to
        id, name and e-mail. */
    method ValidateAllEmails() returns (r: Result<seq<EmailRow>>)
      requires Valid()
      ensures fault.Some? ==> r == Failure(fault.value)
      ensures fault.None? ==> r == Success(InvalidEmails(AllStudents(rows, nextId)))
    {
      if fault.Some? {
        return Failure(fault.value);
      }
      var invalid := CollectInvalidEmails(AllStudents(rows, nextId));
      r := Success(invalid);
    }

    /** addStudent: validate the e-mail, then insert under a fresh id. */
    method AddStudent(name: string, age: int, grade: string, email: string) returns (r: Result<Student>)
      requires Valid()
      modifies this`rows, this`nextId
      ensures Valid()
      ensures !IsValidEmail(email) ==>
        r == Failure(InvalidEmailMessage) && rows == old(rows) && nextId == old(nextId)
      ensures IsValidEmail(email) && fault.Some? ==>
        r == Failure(fault.value) && rows == old(rows) && nextId == old(nextId)
      ensures IsValidEmail(email) && fault.None? ==>
        && old(nextId) !in old(rows)
        && r == Success(Student(old(nextId), name, age, grade, email))
        && rows == old(rows)[old(nextId) := r.value]
        && nextId == old(nextId) + 1
    {
      if !IsValidEmail(email) {
        return Failure(InvalidEmailMessage);
      }
      if fault.Some? {
        return Failure(fault.value);
      }
      var s := Student(nextId, name, age, grade, email);
      rows := rows[nextId := s];
      nextId := nextId + 1;
      r := Success(s);
    }

    /** updateStudent: a non-empty e-mail is validated first; then all four
        fields of the row with that id are replaced. */
    method UpdateStudent(id: Option<int>, name: string, age: int, grade: string, email: string)
      returns (r: Result<Student>)
      requires Valid()
      modifies this`rows
      ensures Valid() && nextId == old(nextId)
      ensures email != "" && !IsValidEmail(email) ==>
        r == Failure(InvalidEmailMessage) && rows == old(rows)
      ensures !(email != "" && !IsValidEmail(email)) ==>
        && (fault.Some? ==> r == Failure(fault.value) && rows == old(rows))
        && (fault.None? && id.None? ==> r == Failure(NanIdMessage) && rows == old(rows))
        && (fault.None? && id.Some? && id.value !in old(rows) ==>
              r == Failure(NotFoundMessage) && rows == old(rows))
        && (fault.None? && id.Some? && id.value in old(rows) ==>
              r == Success(Student(id.value, name, age, grade, email)) &&
              rows == old(rows)[id.value := r.value])
    {
      if email != "" && !IsValidEmail(email) {
        return Failure(InvalidEmailMessage);
      }
      if fault.Some? {
        return Failure(fault.value);
      }
      if id.None? {
        return Failure(NanIdMessage);
      }
      if id.value !in rows {
        return Failure(NotFoundMessage);
      }
      var s := Student(id.value, name, age, grade, email);
      rows := rows[id.value := s];
      r := Success(s);
    }

    /** deleteStudent: remove the row with that id and return what it held. */
    method DeleteStudent(id: Option<int>) returns (r: Result<Student>)
      requires Valid()
      modifies this`rows
      ensures Valid() && nextId == old(nextId)
      ensures fault.Some? ==> r == Failure(fault.value) && rows == old(rows)
      ensures fault.None? && id.None? ==> r == Failure(NanIdMessage) && rows == old(rows)
      ensures fault.None? && id.Some? && id.value !in old(rows) ==>
        r == Failure(NotFoundMessage) && rows == old(rows)
      ensures fault.None? && id.Some? && id.value in old(rows) ==>
        r == Success(old(rows)[id.value]) && rows == old(rows) - {id.value}
    {
      if fault.Some? {
        return Failure(fault.value);
      }
      if id.None? {
        return Failure(NanIdMessage);
      }
      if id.value !in rows {
        return Failure(NotFoundMessage);
      }
      r := Success(rows[id.value]);
      rows := rows - {id.value};
    }
  }

  /** Creating a student and then reading it back by the returned id gives
      the same record. */
  method CreateThenRead(store: StudentStore, name: string, age: int, grade: string, email: string)
    returns (created: Result<Student>, read: Result<Student>)
    requires store.Valid() && store.fault.None? && IsValidEmail(email)
    modifies store`rows, store`nextId
    ensures store.Valid()
    ensures created.Success? && created.value == Student(old(store.nextId), name, age, grade, email)
    ensures read == created
  {
    created := store.AddStudent(name, age, grade, email);
    read := store.GetStudentById(Some(created.value.id));
  }

  /** Deleting a student and then asking for it by id: the delete returns
      the row it removed, and the read fails with "Student not found". */
  method DeleteThenRead(store: StudentStore, id: int) returns (deleted: Result<Student>, read: Result<Student>)
    requires store.Valid() && store.fault.None? && id in store.rows
    modifies store`rows
    ensures store.Valid()
    ensures deleted == Success(old(store.rows)[id])
    ensures read == Failure(NotFoundMessage)
  {
    deleted := store.DeleteStudent(Some(id));
    read := store.GetStudentById(Some(id));
  }
}
