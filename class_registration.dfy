/** Course registration (`register_students`, `register_external`): the
    get-or-create steps of the enrolment ledger and the class roster. */
module ClassRegistration {
  import opened Common
  import opened Records
  import opened Database

  /** The part of a registration request shared by every student of a batch. */
  datatype CourseRequest = CourseRequest(
    level: int,
    title: string,
    code: string,
    unitLoad: nat,
    semester: int,
    session: string,
    external: bool)

  /** One `{ reg_no: fullname }` pair of a batch. */
  datatype Entry = Entry(regNo: string, fullname: string)

  /** Entries whose registration number or name is empty are skipped. */
  predicate Complete(e: Entry) { e.regNo != "" && e.fullname != "" }

  /** The course entry registration pushes: scores and grade at their
      defaults, the corrected unit load equal to the unit load. */
  function NewCourse(req: CourseRequest): (c: Course)
    ensures c.correctedUnitLoad == c.unitLoad == req.unitLoad && c.code == req.code
    ensures c.grade == 0 && c.ca == c.exam == c.total == 0.0
  {
    Course(req.code, req.title, req.unitLoad, req.unitLoad, 0.0, 0.0, 0.0, 0, req.external)
  }

  function Descriptor(req: CourseRequest): ExternalEntry {
    ExternalEntry(req.code, req.title, req.unitLoad, req.semester)
  }

  /** `courses.some(c => c.course_code.toLowerCase() === code.toLowerCase())`. */
  predicate HasCodeCi(cs: seq<Course>, code: string) {
    exists i :: 0 <= i < |cs| && SameCodeCi(cs[i].code, code)
  }

  /** `courses.some(c => c.course_code === code)`. */
  predicate HasCode(cs: seq<Course>, code: string) {
    exists i :: 0 <= i < |cs| && cs[i].code == code
  }

  /** The first class of the session (in the session's order) whose level is
      `level`, as an index into the class collection. */
  function CohortForLevel(classes: seq<Cohort>, ids: seq<nat>, level: int): (r: Option<nat>)
    ensures r.Some? ==> r.value < |classes| && classes[r.value].level == level
    ensures r.Some? ==> classes[r.value].id in ids
  {
    if ids == [] then None
    else match FindCohort(classes, ids[0])
      case Some(k) =>
        if classes[k].level == level then Some(k) else CohortForLevel(classes, ids[1..], level)
      case None => CohortForLevel(classes, ids[1..], level)
  }

  // ---------------------------------------------------------------------------
  // register_students, as a function of the store
  // ---------------------------------------------------------------------------

  /** The class of the level within session `si`, created (and attached to
      the session) when missing. */
  function GetOrCreateCohort(db: Db, si: nat, level: int): (r: (Db, nat))
    requires si < |db.sessions|
    ensures r.1 < |r.0.classes| && r.0.classes[r.1].level == level
    ensures r.0.students == db.students && r.0.results == db.results && r.0.catalog == db.catalog
    ensures |r.0.sessions| == |db.sessions| && r.0.sessions[si].externals == db.sessions[si].externals
  {
    match CohortForLevel(db.classes, db.sessions[si].classes, level)
    case Some(k) => (db, k)
    case None =>
      var id := db.nextId;
      (db.(classes := db.classes + [Cohort(id, level, [])],
           sessions := db.sessions[si := db.sessions[si].(classes := db.sessions[si].classes + [id])],
           nextId := id + 1),
       |db.classes|)
  }

  /** The student with this registration number, created when missing;
      an existing student takes the request's level. Returns the student id. */
  function GetOrCreateStudent(db: Db, e: Entry, level: int): (r: (Db, nat))
    ensures r.0.results == db.results && r.0.classes == db.classes
    ensures r.0.sessions == db.sessions && r.0.catalog == db.catalog
  {
    match FindStudent(db.students, e.regNo)
    case None =>
      (db.(students := db.students + [Student(db.nextId, e.regNo, e.fullname, level, 0, "")], nextId := db.nextId + 1),
       db.nextId)
    case Some(k) =>
      var s := db.students[k];
      (if s.level != level then db.(students := db.students[k := s.(level := level)]) else db, s.id)
  }

  /** The student's semester result for the request's session and semester,
      created with the course when missing; an existing one gains the course
      (and the request's level) unless a course with the same code in any
      letter case is already there. */
  function EnrolCourse(results: seq<SemesterResult>, sid: nat, req: CourseRequest): seq<SemesterResult> {
    match FindRecord(results, sid, req.session, req.semester)
    case None =>
      results + [SemesterResult(sid, req.session, req.level, req.semester, 0, Some(0), [NewCourse(req)])]
    case Some(j) =>
      var r := results[j];
      if HasCodeCi(r.courses, req.code) then results
      else results[j := r.(level := req.level, courses := r.courses + [NewCourse(req)])]
  }

  /** The roster is kept as a list with a membership test, as the batch
      loop keeps its set of ids beside the class's student list. */
  function AddToRoster(roster: seq<nat>, sid: nat): (r: seq<nat>)
    ensures sid in r && (forall x :: x in roster ==> x in r)
    ensures forall x :: x in r ==> x in roster || x == sid
  {
    if sid in roster then roster else roster + [sid]
  }

  /** One iteration of the batch loop, on the store and the roster being built. */
  function RegisterEntry(db: Db, roster: seq<nat>, req: CourseRequest, e: Entry): (r: (Db, seq<nat>))
    ensures r.0.classes == db.classes && r.0.sessions == db.sessions && r.0.catalog == db.catalog
  {
    if !Complete(e) then (db, roster)
    else
      var (db1, sid) := GetOrCreateStudent(db, e, req.level);
      (db1.(results := EnrolCourse(db1.results, sid, req)), AddToRoster(roster, sid))
  }

  function RegisterAll(db: Db, roster: seq<nat>, req: CourseRequest, es: seq<Entry>): (r: (Db, seq<nat>))
    ensures r.0.classes == db.classes && r.0.sessions == db.sessions && r.0.catalog == db.catalog
  {
    if es == [] then (db, roster)
    else
      var (db1, roster1) := RegisterAll(db, roster, req, es[..|es| - 1]);
      RegisterEntry(db1, roster1, req, es[|es| - 1])
  }

  function CountComplete(es: seq<Entry>): nat {
    if es == [] then 0 else CountComplete(es[..|es| - 1]) + (if Complete(es[|es| - 1]) then 1 else 0)
  }

  /** `register_students`: 404 without the session; otherwise every complete
      entry is registered in turn, and an external course is recorded on the
      session once per registered entry. */
  function RegisterStudentsSpec(db: Db, req: CourseRequest, es: seq<Entry>): (Db, Outcome) {
    match FindSession(db.sessions, req.session)
    case None => (db, NotFound)
    case Some(si) =>
      var (db1, ci) := GetOrCreateCohort(db, si, req.level);
      var (db2, roster) := RegisterAll(db1, db1.classes[ci].students, req, es);
      var added := if req.external then Repeat(Descriptor(req), CountComplete(es)) else [];
      (db2.(classes := db2.classes[ci := db2.classes[ci].(students := roster)],
            sessions := db2.sessions[si := db2.sessions[si].(externals := db2.sessions[si].externals + added)]),
       Ok)
  }

  // ---------------------------------------------------------------------------
  // register_students, on the store
  // ---------------------------------------------------------------------------

  /** The student lookup and upsert of one entry. */
  method UpsertStudent(db: Store, e: Entry, level: int) returns (sid: nat)
    modifies db
    ensures (db.Snapshot(), sid) == GetOrCreateStudent(old(db.Snapshot()), e, level)
  {
    var k := FindStudent(db.students, e.regNo);
    if k.None? {
      sid := db.nextId;
      db.students := db.students + [Student(sid, e.regNo, e.fullname, level, 0, "")];
      db.nextId := sid + 1;
    } else {
      sid := db.students[k.value].id;
      if db.students[k.value].level != level {
        db.students := db.students[k.value := db.students[k.value].(level := level)];
      }
    }
  }

  /** The semester-result lookup and course push of one entry. */
  method Enrol(db: Store, sid: nat, req: CourseRequest)
    modifies db
    ensures db.Snapshot() == old(db.Snapshot()).(results := EnrolCourse(old(db.results), sid, req))
  {
    var j := FindRecord(db.results, sid, req.session, req.semester);
    if j.None? {
      db.results := db.results + [SemesterResult(sid, req.session, req.level, req.semester, 0, Some(0), [NewCourse(req)])];
    } else {
      var r := db.results[j.value];
      if !HasCodeCi(r.courses, req.code) {
        db.results := db.results[j.value := r.(level := req.level, courses := r.courses + [NewCourse(req)])];
      }
    }
  }

  /** The class of the level within a session, created when missing. */
  method EnsureCohort(db: Store, si: nat, level: int) returns (ci: nat)
    requires si < |db.sessions|
    modifies db
    ensures (db.Snapshot(), ci) == GetOrCreateCohort(old(db.Snapshot()), si, level)
  {
    var cohort := CohortForLevel(db.classes, db.sessions[si].classes, level);
    if cohort.None? {
      var id := db.nextId;
      db.classes := db.classes + [Cohort(id, level, [])];
      db.sessions := db.sessions[si := db.sessions[si].(classes := db.sessions[si].classes + [id])];
      db.nextId := id + 1;
      ci := |db.classes| - 1;
    } else {
      ci := cohort.value;
    }
  }

  /** The batch loop: registers every complete entry, growing the roster and
      collecting one external descriptor per registered entry. */
  method RegisterBatch(db: Store, roster0: seq<nat>, req: CourseRequest, entries: seq<Entry>)
    returns (roster: seq<nat>, externals: seq<ExternalEntry>)
    modifies db
    ensures (db.Snapshot(), roster) == RegisterAll(old(db.Snapshot()), roster0, req, entries)
    ensures externals == if req.external then Repeat(Descriptor(req), CountComplete(entries)) else []
  {
    ghost var db1 := db.Snapshot();
    roster := roster0;
    var studentIds := set x | x in roster;
    externals := [];
    var i := 0;
    while i < |entries|
      invariant 0 <= i <= |entries|
      invariant (db.Snapshot(), roster) == RegisterAll(db1, roster0, req, entries[..i])
      invariant studentIds == set x | x in roster
      invariant externals == if req.external then Repeat(Descriptor(req), CountComplete(entries[..i])) else []
    {
      var e := entries[i];
      assert entries[..i + 1][..i] == entries[..i];
      assert CountComplete(entries[..i + 1]) == CountComplete(entries[..i]) + (if Complete(e) then 1 else 0);
      if e.regNo != "" && e.fullname != "" {
        var sid := UpsertStudent(db, e, req.level);
        Enrol(db, sid, req);
        if req.external {
          assert Repeat(Descriptor(req), CountComplete(entries[..i]) + 1)
              == Repeat(Descriptor(req), CountComplete(entries[..i])) + [Descriptor(req)];
          externals := externals + [Descriptor(req)];
        }
        if sid !in studentIds {
          roster := roster + [sid];
          studentIds := studentIds + {sid};
        }
      }
      i := i + 1;
    }
    assert entries[..i] == entries;
  }

  method RegisterStudents(db: Store, req: CourseRequest, entries: seq<Entry>) returns (outcome: Outcome)
    requires db.Valid()
    modifies db
    ensures db.Valid()
    ensures (db.Snapshot(), outcome) == RegisterStudentsSpec(old(db.Snapshot()), req, entries)
  {
    RegisterStudentsPreservesValid(db.Snapshot(), req, entries);
    var found := FindSession(db.sessions, req.session);
    if found.None? {
      return NotFound;
    }
    var si := found.value;
    var ci := EnsureCohort(db, si, req.level);
    var roster, externals := RegisterBatch(db, db.classes[ci].students, req, entries);
    db.classes := db.classes[ci := db.classes[ci].(students := roster)];
    if |externals| > 0 {
      db.sessions := db.sessions[si := db.sessions[si].(externals := db.sessions[si].externals + externals)];
    } else {
      assert db.sessions[si].externals + externals == db.sessions[si].externals;
      assert db.sessions[si := db.sessions[si].(externals := db.sessions[si].externals + externals)] == db.sessions;
    }
    outcome := Ok;
  }

  // ---------------------------------------------------------------------------
  // register_external
  // ---------------------------------------------------------------------------

  predicate IsLevelRecordOf(r: SemesterResult, studentId: nat, session: string, level: int, semester: int) {
    IsRecordOf(r, studentId, session, semester) && r.level == level
  }

  /** `register_external` looks its semester result up by level as well. */
  function FindLevelRecord(results: seq<SemesterResult>, studentId: nat, session: string, level: int, semester: int)
    : (r: Option<nat>)
    ensures r.Some? ==> r.value < |results| && IsLevelRecordOf(results[r.value], studentId, session, level, semester)
    ensures r.Some? ==> forall k :: 0 <= k < r.value ==> !IsLevelRecordOf(results[k], studentId, session, level, semester)
    ensures r.None? ==> forall k :: 0 <= k < |results| ==> !IsLevelRecordOf(results[k], studentId, session, level, semester)
  {
    FirstWhere(results, (x: SemesterResult) => IsLevelRecordOf(x, studentId, session, level, semester))
  }

  /** The catalog lookup `External.findOne({ session, course_code })`. */
  function FindCatalogEntry(catalog: seq<ExternalCourse>, session: string, code: string): (r: Option<nat>)
    ensures r.Some? ==> r.value < |catalog| && catalog[r.value].session == session && catalog[r.value].entry.code == code
    ensures r.None? ==> forall k :: 0 <= k < |catalog| ==> !(catalog[k].session == session && catalog[k].entry.code == code)
  {
    FirstWhere(catalog, (x: ExternalCourse) => x.session == session && x.entry.code == code)
  }

  /** The record step of `register_external`: the result of (student,
      session, level, semester) is created with the course, or gains it
      unless a course with exactly the same code is there. */
  function EnrolAtLevel(results: seq<SemesterResult>, sid: nat, req: CourseRequest): seq<SemesterResult> {
    match FindLevelRecord(results, sid, req.session, req.level, req.semester)
    case None =>
      results + [SemesterResult(sid, req.session, req.level, req.semester, 0, Some(0), [NewCourse(req)])]
    case Some(j) =>
      if HasCode(results[j].courses, req.code) then results
      else results[j := results[j].(courses := results[j].courses + [NewCourse(req)])]
  }

  /** `register_external`: 404 without the session or without a class of
      the level in it, 500 for an unknown student; otherwise the course is
      registered for the student, and an external course missing from the
      session's catalog is added to it and to the session's list. */
  function RegisterExternalSpec(db: Db, regNo: string, req: CourseRequest): (Db, Outcome) {
    match FindSession(db.sessions, req.session)
    case None => (db, NotFound)
    case Some(si) =>
      if CohortForLevel(db.classes, db.sessions[si].classes, req.level).None? then (db, NotFound)
      else match FindStudent(db.students, regNo)
        case None => (db, ServerError)
        case Some(k) =>
          var db1 := db.(results := EnrolAtLevel(db.results, db.students[k].id, req));
          if req.external && FindCatalogEntry(db.catalog, req.session, req.code).None? then
            (db1.(catalog := db.catalog + [ExternalCourse(req.session, Descriptor(req))],
                  sessions := db.sessions[si := db.sessions[si].(externals := db.sessions[si].externals + [Descriptor(req)])]),
             Ok)
          else (db1, Ok)
  }

  method RegisterExternal(db: Store, regNo: string, req: CourseRequest) returns (outcome: Outcome)
    requires db.Valid()
    modifies db
    ensures db.Valid()
    ensures (db.Snapshot(), outcome) == RegisterExternalSpec(old(db.Snapshot()), regNo, req)
  {
    var found := FindSession(db.sessions, req.session);
    if found.None? {
      return NotFound;
    }
    var si := found.value;
    var cohort := CohortForLevel(db.classes, db.sessions[si].classes, req.level);
    if cohort.None? {
      return NotFound;
    }
    var k := FindStudent(db.students, regNo);
    if k.None? {
      return ServerError;
    }
    RegisterExternalPreservesValid(db.Snapshot(), regNo, req);
    var sid := db.students[k.value].id;
    EnrolStudentAtLevel(db, sid, req);
    if req.external {
      var listed := FindCatalogEntry(db.catalog, req.session, req.code);
      if listed.None? {
        db.catalog := db.catalog + [ExternalCourse(req.session, Descriptor(req))];
        db.sessions := db.sessions[si := db.sessions[si].(externals := db.sessions[si].externals + [Descriptor(req)])];
      }
    }
    outcome := Ok;
  }

  /** The record step of `register_external` on the store. */
  method EnrolStudentAtLevel(db: Store, sid: nat, req: CourseRequest)
    modifies db
    ensures db.Snapshot() == old(db.Snapshot()).(results := EnrolAtLevel(old(db.results), sid, req))
  {
    var j := FindLevelRecord(db.results, sid, req.session, req.level, req.semester);
    if j.None? {
      db.results := db.results + [SemesterResult(sid, req.session, req.level, req.semester, 0, Some(0), [NewCourse(req)])];
    } else if !HasCode(db.results[j.value].courses, req.code) {
      var r := db.results[j.value];
      db.results := db.results[j.value := r.(courses := r.courses + [NewCourse(req)])];
    }
  }

  // ---------------------------------------------------------------------------
  // The store invariant
  // ---------------------------------------------------------------------------

  /** `register_external` keeps the store invariant: the ledger and the
      catalog are not part of it, and the session list keeps its names,
      classes and flags. */
  lemma RegisterExternalPreservesValid(db: Db, regNo: string, req: CourseRequest)
    requires db.Valid()
    ensures RegisterExternalSpec(db, regNo, req).0.Valid()
  {
    match FindSession(db.sessions, req.session)
    case None =>
    case Some(si) =>
      var sessions := db.sessions[si := db.sessions[si].(externals := db.sessions[si].externals + [Descriptor(req)])];
      assert forall i :: 0 <= i < |db.sessions| ==>
        sessions[i].classes == db.sessions[i].classes && sessions[i].name == db.sessions[i].name
        && sessions[i].current == db.sessions[i].current;
      assert SessionsFresh(sessions, db.nextId);
  }

  lemma GetOrCreateCohortPreservesValid(db: Db, si: nat, level: int)
    requires db.Valid() && si < |db.sessions|
    ensures GetOrCreateCohort(db, si, level).0.Valid()
  {
  }

  lemma GetOrCreateStudentPreservesValid(db: Db, e: Entry, level: int)
    requires db.Valid()
    ensures GetOrCreateStudent(db, e, level).0.Valid()
    ensures GetOrCreateStudent(db, e, level).1 < GetOrCreateStudent(db, e, level).0.nextId
  {
    var db' := GetOrCreateStudent(db, e, level).0;
    match FindStudent(db.students, e.regNo)
    case None =>
      assert StudentsFresh(db'.students, db'.nextId);
      assert ClassesFresh(db'.classes, db'.nextId) && SessionsFresh(db'.sessions, db'.nextId);
    case Some(k) =>
      assert db'.nextId == db.nextId;
      assert forall i :: 0 <= i < |db.students| ==>
        db'.students[i].id == db.students[i].id && db'.students[i].regNo == db.students[i].regNo;
      assert StudentsFresh(db'.students, db'.nextId);
  }

  lemma RegisterEntryPreservesValid(db: Db, roster: seq<nat>, req: CourseRequest, e: Entry)
    requires db.Valid() && NoDuplicates(roster)
    ensures RegisterEntry(db, roster, req, e).0.Valid() && NoDuplicates(RegisterEntry(db, roster, req, e).1)
  {
    if Complete(e) {
      GetOrCreateStudentPreservesValid(db, e, req.level);
    }
  }

  lemma {:induction false} RegisterAllPreservesValid(db: Db, roster: seq<nat>, req: CourseRequest, es: seq<Entry>)
    requires db.Valid() && NoDuplicates(roster)
    ensures RegisterAll(db, roster, req, es).0.Valid() && NoDuplicates(RegisterAll(db, roster, req, es).1)
  {
    if es != [] {
      RegisterAllPreservesValid(db, roster, req, es[..|es| - 1]);
      var (db1, roster1) := RegisterAll(db, roster, req, es[..|es| - 1]);
      RegisterEntryPreservesValid(db1, roster1, req, es[|es| - 1]);
    }
  }

  /** Registration keeps the store invariant: in particular no class roster
      ever holds a student twice and registration numbers stay unique. */
  lemma RegisterStudentsPreservesValid(db: Db, req: CourseRequest, es: seq<Entry>)
    requires db.Valid()
    ensures RegisterStudentsSpec(db, req, es).0.Valid()
  {
    match FindSession(db.sessions, req.session)
    case None =>
    case Some(si) =>
      var (db1, ci) := GetOrCreateCohort(db, si, req.level);
      GetOrCreateCohortPreservesValid(db, si, req.level);
      RegisterAllPreservesValid(db1, db1.classes[ci].students, req, es);
      var (db2, roster) := RegisterAll(db1, db1.classes[ci].students, req, es);
      var added := if req.external then Repeat(Descriptor(req), CountComplete(es)) else [];
      FinishPreservesValid(db2, ci, roster, si, added);
  }

  /** Saving a roster without duplicates and listing more external courses
      on a session keep the store valid. */
  lemma FinishPreservesValid(db: Db, ci: nat, roster: seq<nat>, si: nat, added: seq<ExternalEntry>)
    requires db.Valid() && ci < |db.classes| && si < |db.sessions| && NoDuplicates(roster)
    ensures db.(classes := db.classes[ci := db.classes[ci].(students := roster)],
                sessions := db.sessions[si := db.sessions[si].(externals := db.sessions[si].externals + added)]).Valid()
  {
    var classes := db.classes[ci := db.classes[ci].(students := roster)];
    var sessions := db.sessions[si := db.sessions[si].(externals := db.sessions[si].externals + added)];
    assert forall i :: 0 <= i < |db.classes| ==> classes[i].id == db.classes[i].id;
    assert ClassesFresh(classes, db.nextId);
    assert forall i :: 0 <= i < |db.sessions| ==>
      sessions[i].classes == db.sessions[i].classes && sessions[i].name == db.sessions[i].name
      && sessions[i].current == db.sessions[i].current;
    assert SessionsFresh(sessions, db.nextId);
  }
}
