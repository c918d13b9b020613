/** Score entry (`add_score`): each listed student's course entry gets its
    CA, exam, total and grade point; the semester GPA, the session GPA and
    the CGPA are recomputed. The records and the CGPA source are read from
    the store as it stood when the request began, and the results are
    written back together at the end. */
module ClassScores {
  import opened Common
  import opened Records
  import opened Database
  import opened GradeUtils

  /** One row of the request: a registration number and two scores. */
  datatype ScoreEntry = ScoreEntry(regNo: string, ca: real, exam: real)

  /** The part of the request shared by every row. */
  datatype ScoreRequest = ScoreRequest(session: string, semester: int, code: string)

  /** One `updateOne` of the final bulk write: the result at index `record`
      gets these courses, GPA and session GPA. */
  datatype PendingUpdate = PendingUpdate(record: nat, courses: seq<Course>, gpa: nat, sessionGpa: Option<nat>)

  /** The course codes graded in the two-tier band, in lower case. */
  const CeuticsCodes: seq<string> := ["pct224", "pct422"]

  /** The grading band of a course code: the two listed codes in any letter
      case take "ceutics", codes whose lower-case form is in the
      professional curriculum take "regular", everything else "external". */
  function Band(code: string, professionals: set<string>): (band: string)
    ensures IsGradeType(band)
  {
    if ToLower(code) in CeuticsCodes then "ceutics"
    else if ToLower(code) in professionals then "regular"
    else "external"
  }

  /** The first course entry with exactly this code. */
  function FindCourse(cs: seq<Course>, code: string): (r: Option<nat>)
    ensures r.Some? ==> r.value < |cs| && cs[r.value].code == code
    ensures r.None? ==> forall k :: 0 <= k < |cs| ==> cs[k].code != code
  {
    FirstWhere(cs, (c: Course) => c.code == code)
  }

  /** A course entry after scoring: the two scores, their sum as the total,
      and the grade point of the total in the band. */
  function Scored(c: Course, ca: real, exam: real, band: string): Course
    requires IsGradeType(band)
  {
    c.(ca := ca, exam := exam, total := ca + exam, grade := CalculateGrade(ca + exam, band).value)
  }

  /** `value || null` on a stored number: zero is written as null. */
  function NullIfZero(x: Option<nat>): (r: Option<nat>)
    ensures r.Some? <==> x.Some? && x.value != 0
    ensures r.Some? ==> r == x
  {
    if x == Some(0) then None else x
  }

  /** Records handed to the session-GPA routine, none of them missing. */
  function AsSession(rs: seq<SemesterResult>): (r: seq<Option<SemesterResult>>)
    ensures |r| == |rs| && forall i :: 0 <= i < |rs| ==> r[i] == Some(rs[i])
  {
    seq(|rs|, i requires 0 <= i < |rs| => Some(rs[i]))
  }

  /** The session GPA the write-back stores: recomputed over the session's
      records when the semester is 2 and there are any, otherwise the
      record's own value; a zero is written as null. */
  function SessionGpaField(results: seq<SemesterResult>, sid: nat, req: ScoreRequest, current: Option<nat>): Option<nat> {
    var rs := SessionRecordsOf(results, sid, req.session);
    NullIfZero(if req.semester == 2 && |rs| > 0 then Some(GpaOf(SessionCourses(AsSession(rs)))) else current)
  }

  /** One row against the store `s0` the request began with: `None` when the
      student, the semester result or a course with exactly this code is
      missing; otherwise the student's index and the pending write. */
  function ScoreStep(s0: Db, professionals: set<string>, req: ScoreRequest, e: ScoreEntry): Option<(nat, PendingUpdate)> {
    match FindStudent(s0.students, e.regNo)
    case None => None
    case Some(k) =>
      var sid := s0.students[k].id;
      match FindRecord(s0.results, sid, req.session, req.semester)
      case None => None
      case Some(j) =>
        var r := s0.results[j];
        match FindCourse(r.courses, req.code)
        case None => None
        case Some(ci) =>
          var cs := r.courses[ci := Scored(r.courses[ci], e.ca, e.exam, Band(req.code, professionals))];
          Some((k, PendingUpdate(j, cs, GpaOf(cs), SessionGpaField(s0.results, sid, req, r.sessionGpa))))
  }

  /** The batch loop: the students as saved row by row (the CGPA is taken
      over the student's records in `s0`) and the pending writes in order. */
  function ScoreAll(s0: Db, professionals: set<string>, req: ScoreRequest, es: seq<ScoreEntry>)
    : (r: (seq<Student>, seq<PendingUpdate>))
    ensures |r.0| == |s0.students|
  {
    if es == [] then (s0.students, [])
    else
      var (students, ups) := ScoreAll(s0, professionals, req, es[..|es| - 1]);
      match ScoreStep(s0, professionals, req, es[|es| - 1])
      case None => (students, ups)
      case Some((k, u)) =>
        (students[k := students[k].(cgpa := CgpaOf(RecordsOf(s0.results, s0.students[k].id)))], ups + [u])
  }

  function Apply(results: seq<SemesterResult>, u: PendingUpdate): seq<SemesterResult> {
    if u.record < |results| then
      results[u.record := results[u.record].(courses := u.courses, gpa := u.gpa, sessionGpa := u.sessionGpa)]
    else results
  }

  /** The bulk write: the pending updates applied in order. */
  function ApplyAll(results: seq<SemesterResult>, ups: seq<PendingUpdate>): (r: seq<SemesterResult>)
    ensures |r| == |results|
  {
    if ups == [] then results else Apply(ApplyAll(results, ups[..|ups| - 1]), ups[|ups| - 1])
  }

  /** `add_score` as a function of the store. */
  function AddScoreSpec(db: Db, professionals: set<string>, req: ScoreRequest, es: seq<ScoreEntry>): Db {
    var (students, ups) := ScoreAll(db, professionals, req, es);
    db.(students := students, results := ApplyAll(db.results, ups))
  }

  // ---------------------------------------------------------------------------
  // add_score, on the store
  // ---------------------------------------------------------------------------

  /** The scoring of one row, reading the store; returns the write it queues
      and the CGPA it saves, or nothing for a skipped row. */
  method ScoreRow(db: Store, studentRecords: seq<Student>, professionals: set<string>, req: ScoreRequest, e: ScoreEntry)
    returns (step: Option<(nat, PendingUpdate)>, cgpa: nat)
    ensures step == ScoreStep(db.Snapshot().(students := studentRecords), professionals, req, e)
    ensures step.Some? ==> cgpa == CgpaOf(RecordsOf(db.results, studentRecords[step.value.0].id))
  {
    cgpa := 0;
    step := None;
    var k := FindStudent(studentRecords, e.regNo);
    if k.None? {
      return;
    }
    var sid := studentRecords[k.value].id;
    var j := FindRecord(db.results, sid, req.session, req.semester);
    if j.None? {
      return;
    }
    var sessionResult := SessionRecordsOf(db.results, sid, req.session);
    var r := db.results[j.value];
    var ci := FindCourse(r.courses, req.code);
    if ci.None? {
      return;
    }
    var band := Band(req.code, professionals);
    var grade := CalculateGrade(e.ca + e.exam, band);
    var course := r.courses[ci.value].(ca := e.ca, exam := e.exam, total := e.ca + e.exam, grade := grade.value);
    assert course == Scored(r.courses[ci.value], e.ca, e.exam, band);
    var scored := r.(courses := r.courses[ci.value := course]);
    var gpa := GetGpa(scored);
    cgpa := GetCgpa(RecordsOf(db.results, sid));
    var sessionGpa := scored.sessionGpa;
    if req.semester == 2 && |sessionResult| > 0 {
      var sg := GetSessionGpa(AsSession(sessionResult));
      sessionGpa := Some(sg);
    }
    assert NullIfZero(sessionGpa) == SessionGpaField(db.results, sid, req, r.sessionGpa);
    step := Some((k.value, PendingUpdate(j.value, scored.courses, gpa, NullIfZero(sessionGpa))));
  }

  /** The batch loop extended by one row. */
  lemma ScoreAllSnoc(s0: Db, professionals: set<string>, req: ScoreRequest, es: seq<ScoreEntry>, i: nat)
    requires i < |es|
    ensures ScoreAll(s0, professionals, req, es[..i + 1])
         == var (students, ups) := ScoreAll(s0, professionals, req, es[..i]);
            match ScoreStep(s0, professionals, req, es[i])
            case None => (students, ups)
            case Some((k, u)) =>
              (students[k := students[k].(cgpa := CgpaOf(RecordsOf(s0.results, s0.students[k].id)))], ups + [u])
  {
    assert es[..i + 1][..i] == es[..i];
  }

  /** The bulk write extended by one update. */
  lemma ApplyAllSnoc(results: seq<SemesterResult>, ups: seq<PendingUpdate>, n: nat)
    requires n < |ups|
    ensures ApplyAll(results, ups[..n + 1]) == Apply(ApplyAll(results, ups[..n]), ups[n])
  {
    assert ups[..n + 1][..n] == ups[..n];
  }

  /** `SemesterResult.bulkWrite`: the queued updates, applied in order. */
  method BulkWrite(db: Store, updates: seq<PendingUpdate>)
    modifies db
    ensures db.Snapshot() == old(db.Snapshot()).(results := ApplyAll(old(db.results), updates))
  {
    ghost var s1 := db.Snapshot();
    for n := 0 to |updates|
      invariant db.Snapshot() == s1.(results := ApplyAll(s1.results, updates[..n]))
    {
      ApplyAllSnoc(s1.results, updates, n);
      var u := updates[n];
      if u.record < |db.results| {
        db.results := db.results[u.record := db.results[u.record].(courses := u.courses, gpa := u.gpa, sessionGpa := u.sessionGpa)];
      }
    }
    assert updates[..|updates|] == updates;
  }

  method AddScore(db: Store, professionals: set<string>, req: ScoreRequest, entries: seq<ScoreEntry>)
    returns (outcome: Outcome)
    requires db.Valid()
    modifies db
    ensures db.Valid()
    ensures outcome == Ok
    ensures db.Snapshot() == AddScoreSpec(old(db.Snapshot()), professionals, req, entries)
  {
    ghost var s0 := db.Snapshot();
    AddScorePreservesValid(s0, professionals, req, entries);
    var updates := ScoreRows(db, professionals, req, entries);
    BulkWrite(db, updates);
    outcome := Ok;
  }

  /** The loop over the rows: each student found is saved with its new CGPA
      at once, and the result writes are queued. */
  method ScoreRows(db: Store, professionals: set<string>, req: ScoreRequest, entries: seq<ScoreEntry>)
    returns (updates: seq<PendingUpdate>)
    modifies db
    ensures (db.students, updates) == ScoreAll(old(db.Snapshot()), professionals, req, entries)
    ensures db.Snapshot() == old(db.Snapshot()).(students := db.students)
  {
    ghost var s0 := db.Snapshot();
    var studentRecords := db.students;
    updates := [];
    for i := 0 to |entries|
      invariant db.Snapshot() == s0.(students := db.students) && studentRecords == s0.students
      invariant (db.students, updates) == ScoreAll(s0, professionals, req, entries[..i])
    {
      ScoreAllSnoc(s0, professionals, req, entries, i);
      var step, cgpa := ScoreRow(db, studentRecords, professionals, req, entries[i]);
      assert db.Snapshot().(students := studentRecords) == s0;
      match step {
        case None =>
        case Some((k, u)) =>
          updates := updates + [u];
          db.students := db.students[k := db.students[k].(cgpa := cgpa)];
      }
    }
    assert entries[..|entries|] == entries;
  }

  // ---------------------------------------------------------------------------
  // Properties
  // ---------------------------------------------------------------------------

  /** The band follows the course code: the two listed codes in any letter
      case grade as "ceutics", other codes whose lower-case form is
      professional grade as "regular", and all others as "external". */
  lemma BandRule(code: string, professionals: set<string>)
    ensures Band(code, professionals) == "ceutics" <==> ToLower(code) == "pct224" || ToLower(code) == "pct422"
    ensures Band(code, professionals) == "regular" <==>
      ToLower(code) != "pct224" && ToLower(code) != "pct422" && ToLower(code) in professionals
    ensures Band(code, professionals) == "external" <==>
      ToLower(code) != "pct224" && ToLower(code) != "pct422" && ToLower(code) !in professionals
  {
  }

  /** A scored row: the first course with exactly the code gets the two
      scores, their sum as total and the grade point of that total in the
      code's band; every other course is unchanged; the GPA is the GPA of
      the new course list and the session GPA follows the semester-2 rule.
      A row is skipped exactly when its student, its result or its course is
      missing. */
  lemma ScoreStepEffect(s0: Db, professionals: set<string>, req: ScoreRequest, e: ScoreEntry)
    ensures ScoreStep(s0, professionals, req, e).None? <==>
      || FindStudent(s0.students, e.regNo).None?
      || FindRecord(s0.results, s0.students[FindStudent(s0.students, e.regNo).value].id, req.session, req.semester).None?
      || !HasExactCode(s0.results[FindRecord(s0.results, s0.students[FindStudent(s0.students, e.regNo).value].id,
                                             req.session, req.semester).value].courses, req.code)
    ensures match ScoreStep(s0, professionals, req, e)
      case None => true
      case Some((k, u)) =>
        var sid := s0.students[k].id;
        var old_ := s0.results[u.record].courses;
        && FindStudent(s0.students, e.regNo) == Some(k)
        && FindRecord(s0.results, sid, req.session, req.semester) == Some(u.record)
        && |u.courses| == |old_|
        && (exists ci :: 0 <= ci < |old_| && FindCourse(old_, req.code) == Some(ci)
              && u.courses[ci].code == req.code
              && u.courses[ci].ca == e.ca && u.courses[ci].exam == e.exam && u.courses[ci].total == e.ca + e.exam
              && Some(u.courses[ci].grade) == CalculateGrade(e.ca + e.exam, Band(req.code, professionals))
              && u.courses[ci].unitLoad == old_[ci].unitLoad
              && forall c :: 0 <= c < |old_| && c != ci ==> u.courses[c] == old_[c])
        && u.gpa == GpaOf(u.courses)
        && u.sessionGpa == SessionGpaField(s0.results, sid, req, s0.results[u.record].sessionGpa)
  {
    ScoreStepSkips(s0, professionals, req, e);
    ScoreStepWrites(s0, professionals, req, e);
  }

  /** When a row is skipped. */
  lemma ScoreStepSkips(s0: Db, professionals: set<string>, req: ScoreRequest, e: ScoreEntry)
    ensures ScoreStep(s0, professionals, req, e).None? <==>
      || FindStudent(s0.students, e.regNo).None?
      || FindRecord(s0.results, s0.students[FindStudent(s0.students, e.regNo).value].id, req.session, req.semester).None?
      || !HasExactCode(s0.results[FindRecord(s0.results, s0.students[FindStudent(s0.students, e.regNo).value].id,
                                             req.session, req.semester).value].courses, req.code)
  {
    match FindStudent(s0.students, e.regNo)
    case None =>
    case Some(k) =>
      var sid := s0.students[k].id;
      match FindRecord(s0.results, sid, req.session, req.semester)
      case None =>
      case Some(j) =>
        match FindCourse(s0.results[j].courses, req.code)
        case None =>
        case Some(ci) =>
          assert HasExactCode(s0.results[j].courses, req.code);
  }

  /** What a row that is not skipped writes. */
  lemma ScoreStepWrites(s0: Db, professionals: set<string>, req: ScoreRequest, e: ScoreEntry)
    ensures match ScoreStep(s0, professionals, req, e)
      case None => true
      case Some((k, u)) =>
        var sid := s0.students[k].id;
        var old_ := s0.results[u.record].courses;
        && FindStudent(s0.students, e.regNo) == Some(k)
        && FindRecord(s0.results, sid, req.session, req.semester) == Some(u.record)
        && |u.courses| == |old_|
        && (exists ci :: 0 <= ci < |old_| && FindCourse(old_, req.code) == Some(ci)
              && u.courses[ci].code == req.code
              && u.courses[ci].ca == e.ca && u.courses[ci].exam == e.exam && u.courses[ci].total == e.ca + e.exam
              && Some(u.courses[ci].grade) == CalculateGrade(e.ca + e.exam, Band(req.code, professionals))
              && u.courses[ci].unitLoad == old_[ci].unitLoad
              && forall c :: 0 <= c < |old_| && c != ci ==> u.courses[c] == old_[c])
        && u.gpa == GpaOf(u.courses)
        && u.sessionGpa == SessionGpaField(s0.results, sid, req, s0.results[u.record].sessionGpa)
  {
    match FindStudent(s0.students, e.regNo)
    case None =>
    case Some(k) =>
      var sid := s0.students[k].id;
      match FindRecord(s0.results, sid, req.session, req.semester)
      case None =>
      case Some(j) =>
        match FindCourse(s0.results[j].courses, req.code)
        case None =>
        case Some(ci) =>
          var old_ := s0.results[j].courses;
          var c' := Scored(old_[ci], e.ca, e.exam, Band(req.code, professionals));
          var cs := old_[ci := c'];
          assert cs[ci] == c';
          assert forall c :: 0 <= c < |old_| && c != ci ==> cs[c] == old_[c];
  }

  /** A scored row names a student of the store and a record that exists,
      whose course codes the write keeps. */
  lemma ScoreStepKeepsCodes(s0: Db, professionals: set<string>, req: ScoreRequest, e: ScoreEntry)
    ensures match ScoreStep(s0, professionals, req, e)
      case None => true
      case Some((k, u)) => k < |s0.students| && KeepsCodes(s0.results, u)
  {
    match FindStudent(s0.students, e.regNo)
    case None =>
    case Some(k) =>
      match FindRecord(s0.results, s0.students[k].id, req.session, req.semester)
      case None =>
      case Some(j) =>
        match FindCourse(s0.results[j].courses, req.code)
        case None =>
        case Some(ci) =>
          var old_ := s0.results[j].courses;
          var cs := old_[ci := Scored(old_[ci], e.ca, e.exam, Band(req.code, professionals))];
          assert forall c :: 0 <= c < |cs| ==> cs[c].code == old_[c].code;
  }

  /** Some course entry has exactly this code. */
  predicate HasExactCode(cs: seq<Course>, code: string) {
    exists i :: 0 <= i < |cs| && cs[i].code == code
  }

  /** A pending write keeps the record's course codes and targets a record
      that exists. */
  predicate KeepsCodes(results: seq<SemesterResult>, u: PendingUpdate) {
    u.record < |results| && |u.courses| == |results[u.record].courses|
    && forall c :: 0 <= c < |u.courses| ==> u.courses[c].code == results[u.record].courses[c].code
  }

  lemma ScoreAllKeepsCodes(s0: Db, professionals: set<string>, req: ScoreRequest, es: seq<ScoreEntry>)
    ensures forall n :: 0 <= n < |ScoreAll(s0, professionals, req, es).1| ==>
      KeepsCodes(s0.results, ScoreAll(s0, professionals, req, es).1[n])
    ensures forall i :: 0 <= i < |s0.students| ==>
      var st := ScoreAll(s0, professionals, req, es).0[i];
      st == s0.students[i].(cgpa := st.cgpa)
  {
    ScoreUpdatesKeepCodes(s0, professionals, req, es);
    ScoreStudentsKeepFields(s0, professionals, req, es);
  }

  /** Every queued write keeps its record's course codes. */
  lemma {:induction false} ScoreUpdatesKeepCodes(s0: Db, professionals: set<string>, req: ScoreRequest, es: seq<ScoreEntry>)
    ensures forall n :: 0 <= n < |ScoreAll(s0, professionals, req, es).1| ==>
      KeepsCodes(s0.results, ScoreAll(s0, professionals, req, es).1[n])
  {
    if es != [] {
      var es', e := es[..|es| - 1], es[|es| - 1];
      ScoreUpdatesKeepCodes(s0, professionals, req, es');
      ScoreStepKeepsCodes(s0, professionals, req, e);
    }
  }

  /** The batch changes a student's CGPA only. */
  lemma {:induction false} ScoreStudentsKeepFields(s0: Db, professionals: set<string>, req: ScoreRequest, es: seq<ScoreEntry>)
    ensures forall i :: 0 <= i < |s0.students| ==>
      var st := ScoreAll(s0, professionals, req, es).0[i];
      st == s0.students[i].(cgpa := st.cgpa)
  {
    if es != [] {
      var es', e := es[..|es| - 1], es[|es| - 1];
      ScoreStudentsKeepFields(s0, professionals, req, es');
      ScoreStepTarget(s0, professionals, req, e);
    }
  }

  lemma {:induction false} ApplyAllKeepsCodes(results: seq<SemesterResult>, ups: seq<PendingUpdate>)
    requires forall n :: 0 <= n < |ups| ==> KeepsCodes(results, ups[n])
    ensures forall i :: 0 <= i < |results| ==>
      var r := ApplyAll(results, ups)[i];
      && SameKey(r, results[i]) && |r.courses| == |results[i].courses|
      && forall c :: 0 <= c < |r.courses| ==> r.courses[c].code == results[i].courses[c].code
  {
    if ups != [] {
      ApplyAllKeepsCodes(results, ups[..|ups| - 1]);
    }
  }

  lemma LedgerFromCodes(a: seq<SemesterResult>, b: seq<SemesterResult>)
    requires LedgerValid(a) && |a| == |b|
    requires forall i :: 0 <= i < |a| ==>
      && SameKey(b[i], a[i]) && |b[i].courses| == |a[i].courses|
      && forall c :: 0 <= c < |b[i].courses| ==> b[i].courses[c].code == a[i].courses[c].code
    ensures LedgerValid(b)
  {
    forall i | 0 <= i < |b|
      ensures CodesDistinctCi(b[i].courses)
    {
      assert CodesDistinctCi(a[i].courses);
    }
  }

  /** Score entry keeps the store invariant and the ledger invariant: it
      changes no key, no course code, and of a student only the CGPA. */
  lemma AddScorePreservesValid(db: Db, professionals: set<string>, req: ScoreRequest, es: seq<ScoreEntry>)
    requires db.Valid()
    ensures AddScoreSpec(db, professionals, req, es).Valid()
    ensures LedgerValid(db.results) ==> LedgerValid(AddScoreSpec(db, professionals, req, es).results)
    ensures var db' := AddScoreSpec(db, professionals, req, es);
      && |db'.results| == |db.results|
      && db'.classes == db.classes && db'.sessions == db.sessions && db'.catalog == db.catalog
      && forall i :: 0 <= i < |db.results| ==> SameKey(db'.results[i], db.results[i])
  {
    ScoreAllKeepsCodes(db, professionals, req, es);
    var (students, ups) := ScoreAll(db, professionals, req, es);
    ApplyAllKeepsCodes(db.results, ups);
    if LedgerValid(db.results) {
      LedgerFromCodes(db.results, ApplyAll(db.results, ups));
    }
  }

  // ---------------------------------------------------------------------------
  // The aggregates are read before the write-back
  // ---------------------------------------------------------------------------

  /** A store holding one student whose only result, in semester 2 of the
      session, lists one unscored three-unit course, and a row that scores
      it to grade point 5. */
  predicate StaleScenario(db: Db, professionals: set<string>, req: ScoreRequest, e: ScoreEntry) {
    && |db.students| == 1 && db.students[0].regNo == e.regNo && db.students[0].cgpa == 0
    && |db.results| == 1
    && db.results[0].studentId == db.students[0].id
    && db.results[0].session == req.session
    && db.results[0].semester == 2 && req.semester == 2
    && db.results[0].sessionGpa == Some(0)
    && |db.results[0].courses| == 1
    && db.results[0].courses[0].code == req.code
    && db.results[0].courses[0].unitLoad == 3
    && db.results[0].courses[0].grade == 0
    && CalculateGrade(e.ca + e.exam, Band(req.code, professionals)) == Some(5)
  }

  /** The scored course of the scenario. */
  function StaleScored(db: Db, professionals: set<string>, req: ScoreRequest, e: ScoreEntry): Course
    requires |db.results| == 1 && |db.results[0].courses| == 1
  {
    Scored(db.results[0].courses[0], e.ca, e.exam, Band(req.code, professionals))
  }

  lemma StaleScoredGrade(db: Db, professionals: set<string>, req: ScoreRequest, e: ScoreEntry)
    requires StaleScenario(db, professionals, req, e)
    ensures StaleScored(db, professionals, req, e).grade == 5
    ensures StaleScored(db, professionals, req, e).unitLoad == 3
  {
  }

  /** A single 3-unit course of grade 5 gives GPA 5.00. */
  lemma GpaOfGradeFive(c: Course)
    requires c.grade == 5 && c.unitLoad == 3
    ensures GpaOf([c]) == 500
  {
    GpaOfOne(c);
    assert Hundredths(15, 3) == 500;
  }

  lemma GpaOfOne(c: Course)
    ensures Points([c]) == c.grade * c.unitLoad && Units([c]) == c.unitLoad
  {
    assert [c][..0] == [];
  }

  /** What the scenario reads before anything is written: the session GPA
      of the old records is 0, written as null, and so is their CGPA. */
  lemma StaleReads(db: Db, professionals: set<string>, req: ScoreRequest, e: ScoreEntry)
    requires StaleScenario(db, professionals, req, e)
    ensures RecordsOf(db.results, db.students[0].id) == db.results
    ensures SessionGpaField(db.results, db.students[0].id, req, Some(0)) == None
    ensures CgpaOf(RecordsOf(db.results, db.students[0].id)) == 0
  {
    var r := db.results[0];
    var c := r.courses[0];
    assert r.courses == [c];
    GpaOfOne(c);
    assert db.results == [r];
    assert db.results[..0] == [];
    var rs := SessionRecordsOf(db.results, r.studentId, req.session);
    assert rs == [r];
    assert AsSession(rs) == [Some(r)];
    assert [Some(r)][..0] == [];
    assert SessionCourses(AsSession(rs)) == [c];
    assert Filter([c], CountsForCgpa) == [];
    assert CgpaCourses([r]) == [];
  }

  lemma StaleStep(db: Db, professionals: set<string>, req: ScoreRequest, e: ScoreEntry)
    requires StaleScenario(db, professionals, req, e)
    ensures ScoreStep(db, professionals, req, e)
         == Some((0, PendingUpdate(0, [StaleScored(db, professionals, req, e)], 500, None)))
  {
    var r := db.results[0];
    var c' := StaleScored(db, professionals, req, e);
    assert FindStudent(db.students, e.regNo) == Some(0);
    assert FindRecord(db.results, r.studentId, req.session, 2) == Some(0);
    assert FindCourse(r.courses, req.code) == Some(0);
    assert r.courses[0 := c'] == [c'];
    StaleScoredGrade(db, professionals, req, e);
    GpaOfGradeFive(c');
    StaleReads(db, professionals, req, e);
  }

  /** A batch of one row that is not skipped. */
  lemma ScoreAllOne(s0: Db, professionals: set<string>, req: ScoreRequest, e: ScoreEntry, k: nat, u: PendingUpdate)
    requires ScoreStep(s0, professionals, req, e) == Some((k, u))
    ensures k < |s0.students|
    ensures ScoreAll(s0, professionals, req, [e])
         == (s0.students[k := s0.students[k].(cgpa := CgpaOf(RecordsOf(s0.results, s0.students[k].id)))], [u])
  {
    assert [e][..0] == [];
    assert ScoreAll(s0, professionals, req, []) == (s0.students, []);
    assert [e][|[e]| - 1] == e;
    assert [] + [u] == [u];
  }

  lemma ApplyAllOne(results: seq<SemesterResult>, u: PendingUpdate)
    ensures ApplyAll(results, [u]) == Apply(results, u)
  {
    assert [u][..0] == [];
  }

  lemma StaleAfter(db: Db, professionals: set<string>, req: ScoreRequest, e: ScoreEntry)
    requires StaleScenario(db, professionals, req, e)
    ensures AddScoreSpec(db, professionals, req, [e])
         == db.(results := [db.results[0].(courses := [StaleScored(db, professionals, req, e)], gpa := 500, sessionGpa := None)])
  {
    var u := PendingUpdate(0, [StaleScored(db, professionals, req, e)], 500, None);
    StaleStep(db, professionals, req, e);
    ScoreAllOne(db, professionals, req, e, 0, u);
    StaleReads(db, professionals, req, e);
    assert db.students[0 := db.students[0].(cgpa := 0)] == db.students;
    ApplyAllOne(db.results, u);
  }

  /** The stored records after the write give 5.00 for the session and for
      the CGPA. */
  lemma StaleAfterAggregates(r: SemesterResult, c: Course)
    requires r.courses == [c] && c.grade == 5 && c.unitLoad == 3
    ensures GpaOf(SessionCourses(AsSession(SessionRecordsOf([r], r.studentId, r.session)))) == 500
    ensures CgpaOf(RecordsOf([r], r.studentId)) == 500
  {
    GpaOfOne(c);
    assert [r][..0] == [];
    assert RecordsOf([r], r.studentId) == [r];
    assert SessionRecordsOf([r], r.studentId, r.session) == [r];
    assert AsSession([r]) == [Some(r)];
    assert [Some(r)][..0] == [];
    assert SessionCourses([Some(r)]) == [c];
    assert Filter([c], CountsForCgpa) == [c];
    assert CgpaCourses([r]) == [c];
  }

  /** As written, the CGPA and the session GPA come from the store before
      the score is written: a student whose only course is scored to grade
      point 5 gets a semester GPA of 5.00 while the saved CGPA stays 0 and
      the session GPA is written as null, although the stored records give
      5.00 for both. */
  lemma AddScoreStaleAggregates(db: Db, professionals: set<string>, req: ScoreRequest, e: ScoreEntry)
    requires StaleScenario(db, professionals, req, e)
    ensures var after := AddScoreSpec(db, professionals, req, [e]);
            && |after.results[0].courses| == 1 && after.results[0].courses[0].grade == 5
            && after.results[0].gpa == 500
            && GpaOf(SessionCourses(AsSession(SessionRecordsOf(after.results, db.students[0].id, req.session)))) == 500
            && CgpaOf(RecordsOf(after.results, db.students[0].id)) == 500
            && after.students[0].cgpa == 0
            && after.results[0].sessionGpa.None?
  {
    StaleAfter(db, professionals, req, e);
    StaleScoredGrade(db, professionals, req, e);
    StaleOutcome(db, req, StaleScored(db, professionals, req, e), AddScoreSpec(db, professionals, req, [e]));
  }

  /** The aggregates of the store the scenario ends in. */
  lemma StaleOutcome(db: Db, req: ScoreRequest, c: Course, after: Db)
    requires |db.students| == 1 && db.students[0].cgpa == 0 && |db.results| == 1
    requires db.results[0].studentId == db.students[0].id && db.results[0].session == req.session
    requires c.grade == 5 && c.unitLoad == 3
    requires after == db.(results := [db.results[0].(courses := [c], gpa := 500, sessionGpa := None)])
    ensures && |after.results[0].courses| == 1 && after.results[0].courses[0].grade == 5
            && after.results[0].gpa == 500
            && GpaOf(SessionCourses(AsSession(SessionRecordsOf(after.results, db.students[0].id, req.session)))) == 500
            && CgpaOf(RecordsOf(after.results, db.students[0].id)) == 500
            && after.students[0].cgpa == 0
            && after.results[0].sessionGpa.None?
  {
    StaleAfterAggregates(after.results[0], c);
  }

  /** The scenario can happen in a well-formed store: one student, one
      second-semester result holding a 3-unit course, scored 30 + 45. */
  lemma StaleScenarioExample(c: Course, db: Db, req: ScoreRequest, e: ScoreEntry)
    requires c == Course("MTH101", "Calculus", 3, 3, 0.0, 0.0, 0.0, 0, false)
    requires db == Db([Student(0, "R1", "Ann", 100, 0, "")], [SemesterResult(0, "S", 100, 2, 0, Some(0), [c])], [], [], [], 1)
    requires req == ScoreRequest("S", 2, "MTH101") && e == ScoreEntry("R1", 30.0, 45.0)
    ensures db.Valid() && StaleScenario(db, {}, req, e)
  {
    StaleStoreValid(c, db);
    assert ToLower("MTH101") == "mth101";
    assert Band("MTH101", {}) == "external";
    StaleGrade();
  }

  /** The store of the scenario is valid. */
  lemma StaleStoreValid(c: Course, db: Db)
    requires db == Db([Student(0, "R1", "Ann", 100, 0, "")], [SemesterResult(0, "S", 100, 2, 0, Some(0), [c])], [], [], [], 1)
    ensures db.Valid()
  {
  }

  /** A total of 75 grades 5 in the external band. */
  lemma StaleGrade()
    ensures CalculateGrade(30.0 + 45.0, "external") == Some(5)
  {
  }

  /** The evidently intended order: each row's write lands before the
      aggregates are taken, so the session GPA and the CGPA see the new
      grade. */
  function FreshStep(db: Db, professionals: set<string>, req: ScoreRequest, e: ScoreEntry): Db {
    match ScoreStep(db, professionals, req, e)
    case None => db
    case Some((k, u)) => FreshWrite(db, req, k, u)
  }

  /** The pending write of student `k`'s record stored first; the session GPA
      and then the CGPA recomputed from the records as written. */
  function FreshWrite(db: Db, req: ScoreRequest, k: nat, u: PendingUpdate): Db
    requires k < |db.students| && u.record < |db.results|
  {
    var sid := db.students[k].id;
    var written := Apply(db.results, u.(sessionGpa := db.results[u.record].sessionGpa));
    var results := written[u.record := written[u.record].(sessionGpa := SessionGpaField(written, sid, req, written[u.record].sessionGpa))];
    db.(results := results, students := db.students[k := db.students[k].(cgpa := CgpaOf(RecordsOf(results, sid)))])
  }

  /** `add_score` with the write-back in order. */
  function AddScoreCorrected(db: Db, professionals: set<string>, req: ScoreRequest, es: seq<ScoreEntry>): Db {
    if es == [] then db
    else FreshStep(AddScoreCorrected(db, professionals, req, es[..|es| - 1]), professionals, req, es[|es| - 1])
  }

  /** Every cached CGPA either is the one the request started with or is the
      CGPA of the student's records in the store. */
  predicate CgpasCurrent(db0: Db, db: Db) {
    && |db.students| == |db0.students|
    && (forall k :: 0 <= k < |db.students| ==> db.students[k] == db0.students[k].(cgpa := db.students[k].cgpa))
    && (forall k :: 0 <= k < |db.students| ==>
          db.students[k] == db0.students[k] || db.students[k].cgpa == CgpaOf(RecordsOf(db.results, db.students[k].id)))
  }

  lemma {:induction false} RecordsOfUpdateOther(results: seq<SemesterResult>, j: nat, r: SemesterResult, sid: nat)
    requires j < |results| && results[j].studentId != sid && r.studentId != sid
    ensures RecordsOf(results[j := r], sid) == RecordsOf(results, sid)
  {
    var p := (x: SemesterResult) => x.studentId == sid;
    var n := |results|;
    if j == n - 1 {
      assert results[j := r][..n - 1] == results[..n - 1];
    } else {
      assert results[j := r][..n - 1] == results[..n - 1][j := r];
      RecordsOfUpdateOther(results[..n - 1], j, r, sid);
    }
  }

  /** A row that is scored names a student of the store and one of that
      student's records. */
  lemma ScoreStepTarget(s0: Db, professionals: set<string>, req: ScoreRequest, e: ScoreEntry)
    ensures match ScoreStep(s0, professionals, req, e)
      case None => true
      case Some((k, u)) =>
        k < |s0.students| && u.record < |s0.results| && s0.results[u.record].studentId == s0.students[k].id
  {
  }

  /** Writing one record of student `k` and recomputing that student's
      CGPA from the new records keeps every cached CGPA current. */
  lemma WriteKeepsCurrent(db0: Db, db: Db, k: nat, j: nat, r: SemesterResult)
    requires db0.Valid() && CgpasCurrent(db0, db)
    requires k < |db.students| && j < |db.results|
    requires db.results[j].studentId == db.students[k].id && r.studentId == db.students[k].id
    ensures var results := db.results[j := r];
            var sid := db.students[k].id;
            CgpasCurrent(db0, db.(results := results, students := db.students[k := db.students[k].(cgpa := CgpaOf(RecordsOf(results, sid)))]))
  {
    var results := db.results[j := r];
    var sid := db.students[k].id;
    var students := db.students[k := db.students[k].(cgpa := CgpaOf(RecordsOf(results, sid)))];
    forall k' | 0 <= k' < |students| && k' != k && db.students[k'] != db0.students[k']
      ensures students[k'].cgpa == CgpaOf(RecordsOf(results, students[k'].id))
    {
      assert db.students[k'].id == db0.students[k'].id && sid == db0.students[k].id;
      assert db.students[k'].id != sid;
      RecordsOfUpdateOther(db.results, j, r, db.students[k'].id);
    }
  }

  /** The shape of one scored row in the corrected order: one record of the
      student written, then that student's CGPA recomputed. */
  lemma FreshStepShape(db: Db, professionals: set<string>, req: ScoreRequest, e: ScoreEntry)
    ensures match ScoreStep(db, professionals, req, e)
      case None => FreshStep(db, professionals, req, e) == db
      case Some((k, u)) =>
        && k < |db.students| && u.record < |db.results|
        && db.results[u.record].studentId == db.students[k].id
        && var db' := FreshStep(db, professionals, req, e);
           var sid := db.students[k].id;
           && db'.results[u.record].studentId == sid
           && db' == db.(results := db.results[u.record := db'.results[u.record]],
                         students := db.students[k := db.students[k].(cgpa := CgpaOf(RecordsOf(db'.results, sid)))])
  {
    match ScoreStep(db, professionals, req, e)
    case None =>
    case Some((k, u)) =>
      ScoreStepTarget(db, professionals, req, e);
      var db' := FreshStep(db, professionals, req, e);
      assert db'.results == db.results[u.record := db'.results[u.record]];
  }

  lemma FreshStepKeepsCurrent(db0: Db, db: Db, professionals: set<string>, req: ScoreRequest, e: ScoreEntry)
    requires db0.Valid() && CgpasCurrent(db0, db)
    ensures CgpasCurrent(db0, FreshStep(db, professionals, req, e))
    ensures |FreshStep(db, professionals, req, e).results| == |db.results|
  {
    FreshStepShape(db, professionals, req, e);
    match ScoreStep(db, professionals, req, e)
    case None =>
    case Some((k, u)) =>
      var db' := FreshStep(db, professionals, req, e);
      WriteKeepsCurrent(db0, db, k, u.record, db'.results[u.record]);
  }

  /** With the write-back in order, every CGPA the request saves is the CGPA
      of the student's records as stored when it ends. */
  lemma {:induction false} AddScoreCorrectedCgpasCurrent(db: Db, professionals: set<string>, req: ScoreRequest, es: seq<ScoreEntry>)
    requires db.Valid()
    ensures CgpasCurrent(db, AddScoreCorrected(db, professionals, req, es))
  {
    if es != [] {
      AddScoreCorrectedCgpasCurrent(db, professionals, req, es[..|es| - 1]);
      FreshStepKeepsCurrent(db, AddScoreCorrected(db, professionals, req, es[..|es| - 1]), professionals, req, es[|es| - 1]);
    }
  }

  /** One more record at the end of a session adds its courses at the end. */
  lemma SessionCoursesSnoc(rs: seq<SemesterResult>, r: SemesterResult)
    ensures SessionCourses(AsSession(rs + [r])) == SessionCourses(AsSession(rs)) + r.courses
  {
    assert AsSession(rs + [r])[..|rs|] == AsSession(rs);
  }

  /** The session's records of a store with one more record at the end. */
  lemma SessionRecordsSnoc(a: seq<SemesterResult>, sid: nat, session: string)
    requires |a| > 0
    ensures SessionRecordsOf(a, sid, session)
         == SessionRecordsOf(a[..|a| - 1], sid, session)
          + (if a[|a| - 1].studentId == sid && a[|a| - 1].session == session then [a[|a| - 1]] else [])
  {
  }

  /** The courses of a session do not depend on the session GPAs stored on
      its records. */
  lemma {:induction false} SessionCoursesIgnoreSessionGpa(a: seq<SemesterResult>, b: seq<SemesterResult>, sid: nat, session: string)
    requires |a| == |b|
    requires forall i :: 0 <= i < |a| ==> a[i].studentId == b[i].studentId
    requires forall i :: 0 <= i < |a| ==> a[i].session == b[i].session
    requires forall i :: 0 <= i < |a| ==> a[i].courses == b[i].courses
    ensures SessionCourses(AsSession(SessionRecordsOf(a, sid, session)))
         == SessionCourses(AsSession(SessionRecordsOf(b, sid, session)))
  {
    var n := |a|;
    if n > 0 {
      var a', b' := a[..n - 1], b[..n - 1];
      SessionCoursesIgnoreSessionGpa(a', b', sid, session);
      var x, y := a[n - 1], b[n - 1];
      SessionRecordsSnoc(a, sid, session);
      SessionRecordsSnoc(b, sid, session);
      if x.studentId == sid && x.session == session {
        SessionCoursesSnoc(SessionRecordsOf(a', sid, session), x);
        SessionCoursesSnoc(SessionRecordsOf(b', sid, session), y);
      } else {
        assert SessionRecordsOf(a', sid, session) + [] == SessionRecordsOf(a', sid, session);
        assert SessionRecordsOf(b', sid, session) + [] == SessionRecordsOf(b', sid, session);
      }
    }
  }

  /** A scored row in the corrected order: for a second-semester request the
      session GPA written is the GPA of the session's records as stored after
      the write (a zero written as null); for a first-semester request the
      record keeps its own session GPA. */
  lemma FreshStepSessionGpaCurrent(db: Db, professionals: set<string>, req: ScoreRequest, e: ScoreEntry)
    requires ScoreStep(db, professionals, req, e).Some?
    ensures var (k, u) := ScoreStep(db, professionals, req, e).value;
            var db' := FreshStep(db, professionals, req, e);
            && k < |db.students| && u.record < |db'.results|
            && (req.semester == 2 ==>
                  var rs := SessionRecordsOf(db'.results, db.students[k].id, req.session);
                  db'.results[u.record].sessionGpa == NullIfZero(Some(GpaOf(SessionCourses(AsSession(rs))))))
            && (req.semester != 2 ==> db'.results[u.record].sessionGpa == NullIfZero(db.results[u.record].sessionGpa))
  {
    var (k, u) := ScoreStep(db, professionals, req, e).value;
    var sid := db.students[k].id;
    var j := FindRecord(db.results, sid, req.session, req.semester).value;
    assert u.record == j;
    var written := Apply(db.results, u.(sessionGpa := db.results[j].sessionGpa));
    var db' := FreshStep(db, professionals, req, e);
    assert db'.results == written[j := written[j].(sessionGpa := SessionGpaField(written, sid, req, written[j].sessionGpa))];
    assert written[j].studentId == sid && written[j].session == req.session;
    assert written[j] in SessionRecordsOf(written, sid, req.session);
    SessionCoursesIgnoreSessionGpa(db'.results, written, sid, req.session);
  }

  /** The stale scenario in the corrected order: the session GPA written is
      5.00 and so is the saved CGPA. */
  lemma AddScoreCorrectedFreshAggregates(db: Db, professionals: set<string>, req: ScoreRequest, e: ScoreEntry)
    requires StaleScenario(db, professionals, req, e)
    ensures var after := AddScoreCorrected(db, professionals, req, [e]);
            && |after.results| == 1 && |after.students| == 1
            && after.results[0].courses == [StaleScored(db, professionals, req, e)]
            && after.results[0].gpa == 500
            && after.results[0].sessionGpa == Some(500)
            && after.students[0].cgpa == 500
  {
    var c := StaleScored(db, professionals, req, e);
    StaleStep(db, professionals, req, e);
    StaleScoredGrade(db, professionals, req, e);
    assert [e][..0] == [];
    assert AddScoreCorrected(db, professionals, req, [e]) == FreshStep(db, professionals, req, e);
    StaleFreshStep(db, req, c);
  }

  /** The one scored row of the stale scenario in the corrected order. */
  lemma StaleFreshStep(db: Db, req: ScoreRequest, c: Course)
    requires |db.students| == 1 && |db.results| == 1
    requires db.results[0].studentId == db.students[0].id && db.results[0].session == req.session
    requires req.semester == 2 && c.grade == 5 && c.unitLoad == 3
    ensures FreshWrite(db, req, 0, PendingUpdate(0, [c], 500, None)).results
         == [db.results[0].(courses := [c], gpa := 500, sessionGpa := Some(500))]
    ensures FreshWrite(db, req, 0, PendingUpdate(0, [c], 500, None)).students[0].cgpa == 500
  {
    StaleFreshResults(db, req, c);
    StaleFreshStudents(db, req, c);
  }

  lemma StaleFreshResults(db: Db, req: ScoreRequest, c: Course)
    requires |db.students| == 1 && |db.results| == 1
    requires db.results[0].studentId == db.students[0].id && db.results[0].session == req.session
    requires req.semester == 2 && c.grade == 5 && c.unitLoad == 3
    ensures FreshWrite(db, req, 0, PendingUpdate(0, [c], 500, None)).results
         == [db.results[0].(courses := [c], gpa := 500, sessionGpa := Some(500))]
  {
    var w := db.results[0].(courses := [c], gpa := 500);
    StaleWritten(db.results, c);
    StaleFreshWrite(w, c, req);
  }

  lemma StaleFreshStudents(db: Db, req: ScoreRequest, c: Course)
    requires |db.students| == 1 && |db.results| == 1
    requires db.results[0].studentId == db.students[0].id && db.results[0].session == req.session
    requires req.semester == 2 && c.grade == 5 && c.unitLoad == 3
    requires FreshWrite(db, req, 0, PendingUpdate(0, [c], 500, None)).results
          == [db.results[0].(courses := [c], gpa := 500, sessionGpa := Some(500))]
    ensures FreshWrite(db, req, 0, PendingUpdate(0, [c], 500, None)).students[0].cgpa == 500
  {
    var w := db.results[0].(courses := [c], gpa := 500);
    var d := FreshWrite(db, req, 0, PendingUpdate(0, [c], 500, None));
    assert d.results == [w.(sessionGpa := Some(500))];
    StaleFreshWrite(w, c, req);
  }

  lemma StaleWritten(results: seq<SemesterResult>, c: Course)
    requires |results| == 1
    ensures Apply(results, PendingUpdate(0, [c], 500, results[0].sessionGpa)) == [results[0].(courses := [c], gpa := 500)]
  {
  }

  /** The write of the stale scenario, followed by the recomputed session
      GPA and CGPA. */
  lemma StaleFreshWrite(r: SemesterResult, c: Course, req: ScoreRequest)
    requires r.courses == [c] && c.grade == 5 && c.unitLoad == 3
    requires r.session == req.session && req.semester == 2
    ensures SessionGpaField([r], r.studentId, req, r.sessionGpa) == Some(500)
    ensures CgpaOf(RecordsOf([r.(sessionGpa := Some(500))], r.studentId)) == 500
  {
    StaleAfterAggregates(r, c);
    StaleAfterAggregates(r.(sessionGpa := Some(500)), c);
  }
}
