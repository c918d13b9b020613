/** The per-student result view and record editing: `get_results_by_session`
    splits a session's courses into the professional and external lists of
    each semester and computes the session CGPA; `removeSemester`,
    `removeSession` and `removeCourseFromSemester` delete from the ledger;
    `updateMoe` sets a student's mode of entry. */
module StudentController {
  import opened Common
  import opened Records
  import opened Database
  import opened GradeUtils

  // ---------------------------------------------------------------------------
  // get_results_by_session
  // ---------------------------------------------------------------------------

  /** The response of the session view. */
  datatype SessionView = SessionView(
    student: Student,
    level: int,
    session: string,
    firstSemester: seq<Course>,
    secondSemester: seq<Course>,
    firstExternal: seq<Course>,
    secondExternal: seq<Course>,
    sessionCgpa: nat)

  function FindStudentById(students: seq<Student>, id: nat): (r: Option<nat>)
    ensures r.Some? ==> r.value < |students| && students[r.value].id == id
    ensures r.None? ==> forall k :: 0 <= k < |students| ==> students[k].id != id
  {
    FirstWhere(students, (s: Student) => s.id == id)
  }

  /** The courses of the first result of the semester, or none. */
  function SemesterCourses(results: seq<SemesterResult>, semester: int): seq<Course> {
    match FirstWhere(results, (r: SemesterResult) => r.semester == semester)
    case None => []
    case Some(j) => results[j].courses
  }

  /** A course code is a key of the professional curriculum (exact case). */
  function InCurriculum(professionals: set<string>): Course -> bool {
    (c: Course) => c.code in professionals
  }

  function Professional(cs: seq<Course>, professionals: set<string>): seq<Course> {
    Filter(cs, InCurriculum(professionals))
  }

  function External(cs: seq<Course>, professionals: set<string>): seq<Course> {
    Filter(cs, Not(InCurriculum(professionals)))
  }

  /** `get_results_by_session` as a function of the store: not found when
      the student has no result for the session, a server error when the
      results' student document is missing, otherwise the view. */
  function ResultsBySessionSpec(db: Db, professionals: set<string>, studentId: nat, session: string)
    : (Outcome, Option<SessionView>)
  {
    var results := SessionRecordsOf(db.results, studentId, session);
    if results == [] then (NotFound, None)
    else
      match FindStudentById(db.students, results[0].studentId)
      case None => (ServerError, None)
      case Some(k) =>
        var first := SemesterCourses(results, 1);
        var second := SemesterCourses(results, 2);
        (Ok, Some(SessionView(db.students[k], results[0].level, session,
                              Professional(first, professionals), Professional(second, professionals),
                              External(first, professionals), External(second, professionals),
                              GpaOf(AllCourses(results)))))
  }

  /** The nested accumulation of grade points and unit loads over every
      course of the session's results. */
  method SessionTotals(results: seq<SemesterResult>) returns (totalGradePoints: nat, totalUnitLoad: nat)
    ensures totalGradePoints == Points(AllCourses(results)) && totalUnitLoad == Units(AllCourses(results))
  {
    totalGradePoints, totalUnitLoad := 0, 0;
    for i := 0 to |results|
      invariant totalGradePoints == Points(AllCourses(results[..i])) && totalUnitLoad == Units(AllCourses(results[..i]))
    {
      AllCoursesSnoc(results, i);
      var cs := results[i].courses;
      ghost var p0, u0 := totalGradePoints, totalUnitLoad;
      for j := 0 to |cs|
        invariant totalGradePoints == p0 + Points(cs[..j]) && totalUnitLoad == u0 + Units(cs[..j])
      {
        CoursesSnoc(cs, j);
        totalGradePoints := totalGradePoints + cs[j].unitLoad * cs[j].grade;
        totalUnitLoad := totalUnitLoad + cs[j].unitLoad;
      }
      assert cs[..|cs|] == cs;
    }
    assert results[..|results|] == results;
  }

  /** The totals over one more result. */
  lemma AllCoursesSnoc(results: seq<SemesterResult>, i: nat)
    requires i < |results|
    ensures Points(AllCourses(results[..i + 1])) == Points(AllCourses(results[..i])) + Points(results[i].courses)
    ensures Units(AllCourses(results[..i + 1])) == Units(AllCourses(results[..i])) + Units(results[i].courses)
  {
    assert results[..i + 1][..i] == results[..i];
    SumsAppend(AllCourses(results[..i]), results[i].courses);
  }

  /** The totals over one more course. */
  lemma CoursesSnoc(cs: seq<Course>, j: nat)
    requires j < |cs|
    ensures Points(cs[..j + 1]) == Points(cs[..j]) + cs[j].unitLoad * cs[j].grade
    ensures Units(cs[..j + 1]) == Units(cs[..j]) + cs[j].unitLoad
  {
    assert cs[..j + 1][..j] == cs[..j];
  }

  method ResultsBySession(db: Store, professionals: set<string>, studentId: nat, session: string)
    returns (outcome: Outcome, view: Option<SessionView>)
    ensures (outcome, view) == ResultsBySessionSpec(db.Snapshot(), professionals, studentId, session)
  {
    var results := SessionRecordsOf(db.results, studentId, session);
    if |results| == 0 {
      return NotFound, None;
    }
    var k := FindStudentById(db.students, results[0].studentId);
    if k.None? {
      return ServerError, None;
    }
    var first := SemesterCourses(results, 1);
    var second := SemesterCourses(results, 2);
    var totalGradePoints, totalUnitLoad := SessionTotals(results);
    var sessionCgpa := if totalUnitLoad > 0 then Hundredths(totalGradePoints, totalUnitLoad) else 0;
    outcome := Ok;
    view := Some(SessionView(db.students[k.value], results[0].level, session,
                             Professional(first, professionals), Professional(second, professionals),
                             External(first, professionals), External(second, professionals),
                             sessionCgpa));
  }

  /** The view is not found exactly when the student has no result for the
      session. */
  lemma ResultsBySessionNotFound(db: Db, professionals: set<string>, studentId: nat, session: string)
    ensures ResultsBySessionSpec(db, professionals, studentId, session).0 == NotFound
            <==> forall i :: 0 <= i < |db.results| ==> !(db.results[i].studentId == studentId && db.results[i].session == session)
  {
    var results := SessionRecordsOf(db.results, studentId, session);
    if results != [] {
      assert results[0] in db.results;
    }
  }

  /** The professional and external lists of one semester split its
      courses, by whether the code is in the curriculum. */
  lemma SemesterPartition(cs: seq<Course>, professionals: set<string>)
    ensures multiset(Professional(cs, professionals)) + multiset(External(cs, professionals)) == multiset(cs)
    ensures forall c :: c in Professional(cs, professionals) <==> c in cs && c.code in professionals
    ensures forall c :: c in External(cs, professionals) <==> c in cs && c.code !in professionals
  {
    FilterPartition(cs, InCurriculum(professionals));
  }

  /** In the view, each semester's professional and external lists split
      that semester's courses, and a semester without a result gives two
      empty lists. */
  lemma ResultsBySessionPartition(db: Db, professionals: set<string>, studentId: nat, session: string, semester: int)
    requires ResultsBySessionSpec(db, professionals, studentId, session).0 == Ok
    requires semester == 1 || semester == 2
    ensures var v := ResultsBySessionSpec(db, professionals, studentId, session).1.value;
            var results := SessionRecordsOf(db.results, studentId, session);
            var cs := SemesterCourses(results, semester);
            var (pro, ext) := if semester == 1 then (v.firstSemester, v.firstExternal)
                              else (v.secondSemester, v.secondExternal);
            && pro == Professional(cs, professionals) && ext == External(cs, professionals)
            && multiset(pro) + multiset(ext) == multiset(cs)
            && (forall c :: c in pro <==> c in cs && c.code in professionals)
            && (forall c :: c in ext <==> c in cs && c.code !in professionals)
            && ((forall i :: 0 <= i < |results| ==> results[i].semester != semester) ==> pro == ext == [])
  {
    var results := SessionRecordsOf(db.results, studentId, session);
    SemesterPartition(SemesterCourses(results, semester), professionals);
  }

  predicate GradesInRange(cs: seq<Course>) {
    forall i :: 0 <= i < |cs| ==> cs[i].grade <= 5
  }

  /** The session CGPA is the GPA of every course of the session's
      results, so it lies between 0.00 and 5.00 when grades do. */
  lemma ResultsBySessionCgpa(db: Db, professionals: set<string>, studentId: nat, session: string)
    requires ResultsBySessionSpec(db, professionals, studentId, session).0 == Ok
    requires GradesInRange(AllCourses(SessionRecordsOf(db.results, studentId, session)))
    ensures var v := ResultsBySessionSpec(db, professionals, studentId, session).1.value;
            var all := AllCourses(SessionRecordsOf(db.results, studentId, session));
            && v.sessionCgpa == GpaOf(all)
            && v.sessionCgpa <= 500
            && (Units(all) == 0 ==> v.sessionCgpa == 0)
  {
    GpaRange(AllCourses(SessionRecordsOf(db.results, studentId, session)));
  }

  // ---------------------------------------------------------------------------
  // Deletions
  // ---------------------------------------------------------------------------

  /** `removeSemester` as a function of the store: a missing student fails
      (its id is read from nothing), a missing result is not found, and
      otherwise the first result of the triple is deleted. */
  function RemoveSemesterSpec(db: Db, regNo: string, session: string, semester: int): (Db, Outcome) {
    match FindStudent(db.students, regNo)
    case None => (db, ServerError)
    case Some(k) =>
      match FindRecord(db.results, db.students[k].id, session, semester)
      case None => (db, NotFound)
      case Some(j) => (db.(results := db.results[..j] + db.results[j + 1..]), Ok)
  }

  method RemoveSemester(db: Store, regNo: string, session: string, semester: int) returns (outcome: Outcome)
    requires db.Valid()
    modifies db
    ensures db.Valid()
    ensures (db.Snapshot(), outcome) == RemoveSemesterSpec(old(db.Snapshot()), regNo, session, semester)
  {
    var k := FindStudent(db.students, regNo);
    if k.None? {
      return ServerError;
    }
    var j := FindRecord(db.results, db.students[k.value].id, session, semester);
    if j.None? {
      return NotFound;
    }
    db.results := db.results[..j.value] + db.results[j.value + 1..];
    outcome := Ok;
  }

  /** In a ledger with one result per triple, removing a semester leaves no
      result for the triple and keeps every other result, in order; the
      ledger stays valid. */
  lemma RemoveSemesterEffect(db: Db, regNo: string, session: string, semester: int)
    requires LedgerValid(db.results)
    ensures var (db', outcome) := RemoveSemesterSpec(db, regNo, session, semester);
            && LedgerValid(db'.results)
            && db'.(results := db.results) == db
            && (outcome == Ok ==>
                  var sid := db.students[FindStudent(db.students, regNo).value].id;
                  && |db'.results| == |db.results| - 1
                  && (forall i :: 0 <= i < |db'.results| ==> !IsRecordOf(db'.results[i], sid, session, semester))
                  && (forall r :: r in db.results && !IsRecordOf(r, sid, session, semester) ==> r in db'.results))
            && (outcome != Ok ==> db' == db)
  {
    var (db', outcome) := RemoveSemesterSpec(db, regNo, session, semester);
    if outcome == Ok {
      var sid := db.students[FindStudent(db.students, regNo).value].id;
      var j := FindRecord(db.results, sid, session, semester).value;
      DeleteKeepsLedger(db.results, j);
      DeleteRecordOf(db.results, j, sid, session, semester);
    }
  }

  /** Deleting the element at `j` shifts every later element down by one. */
  lemma DeleteAt(rs: seq<SemesterResult>, j: nat)
    requires j < |rs|
    ensures var out := rs[..j] + rs[j + 1..];
            && |out| == |rs| - 1
            && (forall i :: 0 <= i < j ==> out[i] == rs[i])
            && (forall i :: j <= i < |out| ==> out[i] == rs[i + 1])
  {
  }

  /** Deleting one result keeps the ledger valid. */
  lemma DeleteKeepsLedger(rs: seq<SemesterResult>, j: nat)
    requires LedgerValid(rs) && j < |rs|
    ensures LedgerValid(rs[..j] + rs[j + 1..])
  {
    var out := rs[..j] + rs[j + 1..];
    DeleteAt(rs, j);
    forall a | 0 <= a < |out|
      ensures out[a] == rs[if a < j then a else a + 1]
    {
    }
    forall a, b | 0 <= a < b < |out|
      ensures !SameKey(out[a], out[b])
    {
      var a', b' := if a < j then a else a + 1, if b < j then b else b + 1;
      assert out[a] == rs[a'] && out[b] == rs[b'] && a' < b';
    }
  }

  /** Deleting the only result of a triple leaves none for it and keeps
      every other result. */
  lemma DeleteRecordOf(rs: seq<SemesterResult>, j: nat, sid: nat, session: string, semester: int)
    requires LedgerValid(rs) && j < |rs| && IsRecordOf(rs[j], sid, session, semester)
    ensures var out := rs[..j] + rs[j + 1..];
            && (forall i :: 0 <= i < |out| ==> !IsRecordOf(out[i], sid, session, semester))
            && (forall r :: r in rs && !IsRecordOf(r, sid, session, semester) ==> r in out)
  {
    var out := rs[..j] + rs[j + 1..];
    DeleteAt(rs, j);
    forall i | 0 <= i < |out|
      ensures !IsRecordOf(out[i], sid, session, semester)
    {
      if i >= j {
        assert out[i] == rs[i + 1];
      }
    }
    forall r | r in rs && !IsRecordOf(r, sid, session, semester)
      ensures r in out
    {
      var i :| 0 <= i < |rs| && rs[i] == r;
      if i < j {
        assert out[i] == r;
      } else {
        assert i != j;
        assert out[i - 1] == r;
      }
    }
  }

  predicate InSession(r: SemesterResult, sid: nat, session: string) {
    r.studentId == sid && r.session == session
  }

  /** The results `deleteMany` keeps. */
  function Kept(results: seq<SemesterResult>, sid: nat, session: string): seq<SemesterResult> {
    Filter(results, (r: SemesterResult) => !InSession(r, sid, session))
  }

  /** `removeSession` as a function of the store: a missing student fails,
      otherwise every result of the student for the session is deleted, and
      the answer is not found when there were none. */
  function RemoveSessionSpec(db: Db, regNo: string, session: string): (Db, Outcome) {
    match FindStudent(db.students, regNo)
    case None => (db, ServerError)
    case Some(k) =>
      var kept := Kept(db.results, db.students[k].id, session);
      (db.(results := kept), if |kept| == |db.results| then NotFound else Ok)
  }

  method RemoveSession(db: Store, regNo: string, session: string) returns (outcome: Outcome)
    requires db.Valid()
    modifies db
    ensures db.Valid()
    ensures (db.Snapshot(), outcome) == RemoveSessionSpec(old(db.Snapshot()), regNo, session)
  {
    var k := FindStudent(db.students, regNo);
    if k.None? {
      return ServerError;
    }
    var before := |db.results|;
    db.results := Kept(db.results, db.students[k.value].id, session);
    var deletedCount := before - |db.results|;
    outcome := if deletedCount == 0 then NotFound else Ok;
  }

  /** Nothing is deleted exactly when nothing matches. */
  lemma {:induction false} KeptAll(results: seq<SemesterResult>, sid: nat, session: string)
    ensures |Kept(results, sid, session)| == |results|
            <==> forall i :: 0 <= i < |results| ==> !InSession(results[i], sid, session)
  {
    if results != [] {
      var rs := results[..|results| - 1];
      KeptAll(rs, sid, session);
      assert forall i :: 0 <= i < |rs| ==> rs[i] == results[i];
      assert |Kept(rs, sid, session)| <= |rs|;
    }
  }

  /** A result whose key is new to a valid ledger, and whose codes are
      distinct, can be appended to it. */
  lemma LedgerSnoc(f: seq<SemesterResult>, last: SemesterResult)
    requires LedgerValid(f) && CodesDistinctCi(last.courses)
    requires forall a :: 0 <= a < |f| ==> !SameKey(f[a], last)
    ensures LedgerValid(f + [last])
  {
    var g := f + [last];
    assert forall i :: 0 <= i < |f| ==> g[i] == f[i];
  }

  /** Filtering keeps a valid ledger valid. */
  lemma {:induction false} FilterKeepsLedger(results: seq<SemesterResult>, p: SemesterResult -> bool)
    requires LedgerValid(results)
    ensures LedgerValid(Filter(results, p))
  {
    if results != [] {
      var rs, last := results[..|results| - 1], results[|results| - 1];
      assert forall i :: 0 <= i < |rs| ==> rs[i] == results[i];
      FilterKeepsLedger(rs, p);
      var f := Filter(rs, p);
      if p(last) {
        forall a | 0 <= a < |f|
          ensures !SameKey(f[a], last)
        {
          var i :| 0 <= i < |rs| && rs[i] == f[a];
        }
        LedgerSnoc(f, last);
        assert Filter(results, p) == f + [last];
      } else {
        assert Filter(results, p) == f;
      }
    }
  }

  /** After `removeSession` the student has no result for the session,
      every other result is kept, the ledger stays valid, and not found is
      answered exactly when there was nothing to delete. */
  lemma RemoveSessionEffect(db: Db, regNo: string, session: string)
    requires LedgerValid(db.results)
    ensures var (db', outcome) := RemoveSessionSpec(db, regNo, session);
            && LedgerValid(db'.results)
            && db'.(results := db.results) == db
            && (FindStudent(db.students, regNo).Some? ==>
                  var sid := db.students[FindStudent(db.students, regNo).value].id;
                  && ((outcome == NotFound)
                      <==> (forall i :: 0 <= i < |db.results| ==> !InSession(db.results[i], sid, session)))
                  && (forall r :: r in db'.results <==> r in db.results && !InSession(r, sid, session)))
            && (outcome == NotFound ==> db' == db)
  {
    if FindStudent(db.students, regNo).Some? {
      var sid := db.students[FindStudent(db.students, regNo).value].id;
      KeptAll(db.results, sid, session);
      FilterKeepsLedger(db.results, (r: SemesterResult) => !InSession(r, sid, session));
      if |Kept(db.results, sid, session)| == |db.results| {
        FilterIdentity(db.results, (r: SemesterResult) => !InSession(r, sid, session));
      }
    }
  }

  /** A filter that drops nothing returns its input. */
  lemma {:induction false} FilterIdentity<T>(xs: seq<T>, p: T -> bool)
    requires |Filter(xs, p)| == |xs|
    ensures Filter(xs, p) == xs
  {
    if xs != [] {
      var ys := xs[..|xs| - 1];
      assert |Filter(ys, p)| <= |ys|;
      FilterIdentity(ys, p);
    }
  }

  /** The courses `removeCourseFromSemester` keeps. */
  function WithoutCode(cs: seq<Course>, code: string): seq<Course> {
    Filter(cs, (c: Course) => c.code != code)
  }

  /** `removeCourseFromSemester` as a function of the store. */
  function RemoveCourseSpec(db: Db, regNo: string, session: string, semester: int, code: string): (Db, Outcome) {
    match FindStudent(db.students, regNo)
    case None => (db, ServerError)
    case Some(k) =>
      match FindRecord(db.results, db.students[k].id, session, semester)
      case None => (db, NotFound)
      case Some(j) =>
        var r := db.results[j];
        (db.(results := db.results[j := r.(courses := WithoutCode(r.courses, code))]), Ok)
  }

  method RemoveCourseFromSemester(db: Store, regNo: string, session: string, semester: int, code: string)
    returns (outcome: Outcome)
    requires db.Valid()
    modifies db
    ensures db.Valid()
    ensures (db.Snapshot(), outcome) == RemoveCourseSpec(old(db.Snapshot()), regNo, session, semester, code)
  {
    var k := FindStudent(db.students, regNo);
    if k.None? {
      return ServerError;
    }
    var j := FindRecord(db.results, db.students[k.value].id, session, semester);
    if j.None? {
      return NotFound;
    }
    var result := db.results[j.value];
    result := result.(courses := WithoutCode(result.courses, code));
    db.results := db.results[j.value := result];
    outcome := Ok;
  }

  /** A filtered course list keeps distinct codes distinct. */
  lemma {:induction false} FilterKeepsCodes(cs: seq<Course>, p: Course -> bool)
    requires CodesDistinctCi(cs)
    ensures CodesDistinctCi(Filter(cs, p))
  {
    if cs != [] {
      var cs', last := cs[..|cs| - 1], cs[|cs| - 1];
      assert forall i :: 0 <= i < |cs'| ==> cs'[i] == cs[i];
      FilterKeepsCodes(cs', p);
      var f := Filter(cs', p);
      forall a | 0 <= a < |f|
        ensures !SameCodeCi(f[a].code, last.code)
      {
        var i :| 0 <= i < |cs'| && cs'[i] == f[a];
      }
    }
  }

  /** Removing a course keeps exactly the entries with a different code, in
      order, and changes nothing else: not the record's key, not its GPA,
      not the other records; the ledger stays valid. */
  lemma RemoveCourseEffect(db: Db, regNo: string, session: string, semester: int, code: string)
    requires LedgerValid(db.results)
    ensures var (db', outcome) := RemoveCourseSpec(db, regNo, session, semester, code);
            && LedgerValid(db'.results)
            && db'.(results := db.results) == db
            && |db'.results| == |db.results|
            && (outcome == Ok ==>
                  var j := FindRecord(db.results, db.students[FindStudent(db.students, regNo).value].id, session, semester).value;
                  && (forall i :: 0 <= i < |db.results| && i != j ==> db'.results[i] == db.results[i])
                  && db'.results[j].(courses := db.results[j].courses) == db.results[j]
                  && (forall c :: c in db'.results[j].courses <==> c in db.results[j].courses && c.code != code))
            && (outcome != Ok ==> db' == db)
  {
    var (db', outcome) := RemoveCourseSpec(db, regNo, session, semester, code);
    if outcome == Ok {
      var j := FindRecord(db.results, db.students[FindStudent(db.students, regNo).value].id, session, semester).value;
      FilterKeepsCodes(db.results[j].courses, (c: Course) => c.code != code);
      forall a, b | 0 <= a < b < |db'.results|
        ensures !SameKey(db'.results[a], db'.results[b])
      {
        assert SameKey(db'.results[a], db.results[a]) && SameKey(db'.results[b], db.results[b]);
      }
    }
  }

  // ---------------------------------------------------------------------------
  // updateMoe
  // ---------------------------------------------------------------------------

  /** `updateMoe` as a function of the store: both fields are required (a
      missing field reads as the empty string), the answer is not found when
      no student has the registration number, and otherwise the first such
      student's mode of entry is set. */
  function UpdateMoeSpec(db: Db, regNo: string, moe: string): (Db, Outcome) {
    if regNo == "" || moe == "" then (db, BadRequest)
    else
      match FindStudent(db.students, regNo)
      case None => (db, NotFound)
      case Some(k) => (db.(students := db.students[k := db.students[k].(moe := moe)]), Ok)
  }

  method UpdateMoe(db: Store, regNo: string, moe: string) returns (outcome: Outcome)
    requires db.Valid()
    modifies db
    ensures db.Valid()
    ensures (db.Snapshot(), outcome) == UpdateMoeSpec(old(db.Snapshot()), regNo, moe)
  {
    if regNo == "" || moe == "" {
      return BadRequest;
    }
    var k := FindStudent(db.students, regNo);
    if k.None? {
      return NotFound;
    }
    db.students := db.students[k.value := db.students[k.value].(moe := moe)];
    outcome := Ok;
  }

  /** The guard rejects a missing field before the store is read; on success
      exactly the one student's mode of entry changes. */
  lemma UpdateMoeEffect(db: Db, regNo: string, moe: string)
    ensures var (db', outcome) := UpdateMoeSpec(db, regNo, moe);
            && (outcome == BadRequest <==> regNo == "" || moe == "")
            && (outcome == NotFound <==> regNo != "" && moe != "" && forall k :: 0 <= k < |db.students| ==> db.students[k].regNo != regNo)
            && (outcome != Ok ==> db' == db)
            && (outcome == Ok ==>
                  && db'.(students := db.students) == db
                  && |db'.students| == |db.students|
                  && exists k :: 0 <= k < |db.students| && db.students[k].regNo == regNo
                                 && db'.students[k] == db.students[k].(moe := moe)
                                 && forall m :: 0 <= m < |db.students| && m != k ==> db'.students[m] == db.students[m])
  {
    var (db', outcome) := UpdateMoeSpec(db, regNo, moe);
    if outcome == Ok {
      var k := FindStudent(db.students, regNo).value;
      assert db'.students[k] == db.students[k].(moe := moe);
    }
  }
}
