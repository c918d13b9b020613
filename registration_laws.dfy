/** What course registration promises: the ledger keeps one result per
    (student, session, semester) and one entry per course code, existing
    entries are never altered, incomplete entries are ignored, every
    complete entry ends up enrolled and on the roster, and a repeated batch
    changes nothing but the session's external list. */
module RegistrationLaws {
  import opened Common
  import opened Records
  import opened Database
  import opened ClassRegistration

  /** `b` keeps every result of `a` at its place, under the same key, with
      the old course entries as a prefix. */
  predicate LedgerExtends(a: seq<SemesterResult>, b: seq<SemesterResult>) {
    |a| <= |b| && forall i :: 0 <= i < |a| ==> SameKey(a[i], b[i]) && a[i].courses <= b[i].courses
  }

  /** Each old result is unchanged or has gained exactly the requested
      course, which it lacked; each new result holds just that course. */
  predicate GainsAtMostTheCourse(a: seq<SemesterResult>, b: seq<SemesterResult>, req: CourseRequest) {
    && LedgerExtends(a, b)
    && (forall i :: 0 <= i < |a| ==>
          b[i].courses == a[i].courses
          || (!HasCodeCi(a[i].courses, req.code) && b[i].courses == a[i].courses + [NewCourse(req)]))
    && (forall i :: |a| <= i < |b| ==> b[i].courses == [NewCourse(req)])
  }

  /** The student's result for the request's session and semester holds the
      course (in some letter case). */
  predicate Enrolled(results: seq<SemesterResult>, sid: nat, req: CourseRequest) {
    match FindRecord(results, sid, req.session, req.semester)
    case None => false
    case Some(j) => HasCodeCi(results[j].courses, req.code)
  }

  lemma NewCourseMatches(req: CourseRequest)
    ensures HasCodeCi([NewCourse(req)], req.code)
  {
    assert SameCodeCi([NewCourse(req)][0].code, req.code);
  }

  lemma HasCodeCiAppend(cs: seq<Course>, ds: seq<Course>, code: string)
    requires HasCodeCi(cs, code)
    ensures HasCodeCi(cs + ds, code)
  {
    var i :| 0 <= i < |cs| && SameCodeCi(cs[i].code, code);
    assert (cs + ds)[i] == cs[i];
  }

  lemma HasCodeCiPushed(cs: seq<Course>, req: CourseRequest)
    ensures HasCodeCi(cs + [NewCourse(req)], req.code)
  {
    assert (cs + [NewCourse(req)])[|cs|] == NewCourse(req);
    assert SameCodeCi((cs + [NewCourse(req)])[|cs|].code, req.code);
  }

  // ---------------------------------------------------------------------------
  // One enrolment step
  // ---------------------------------------------------------------------------

  /** Enrolling touches at most one result, pushes at most the requested
      course, and leaves the student enrolled. */
  lemma EnrolCourseEffect(results: seq<SemesterResult>, sid: nat, req: CourseRequest)
    ensures GainsAtMostTheCourse(results, EnrolCourse(results, sid, req), req)
    ensures |EnrolCourse(results, sid, req)| <= |results| + 1
    ensures Enrolled(EnrolCourse(results, sid, req), sid, req)
  {
    var r := EnrolCourse(results, sid, req);
    match FindRecord(results, sid, req.session, req.semester)
    case None =>
      assert r[|results|].courses == [NewCourse(req)];
      assert IsRecordOf(r[|results|], sid, req.session, req.semester);
      assert FindRecord(r, sid, req.session, req.semester) == Some(|results|);
      NewCourseMatches(req);
    case Some(j) =>
      if !HasCodeCi(results[j].courses, req.code) {
        assert forall k :: 0 <= k < j ==> r[k] == results[k];
        assert IsRecordOf(r[j], sid, req.session, req.semester);
        HasCodeCiPushed(results[j].courses, req);
      }
      assert FindRecord(r, sid, req.session, req.semester) == Some(j);
  }

  /** Enrolling keeps the ledger invariant. */
  lemma EnrolCoursePreservesLedger(results: seq<SemesterResult>, sid: nat, req: CourseRequest)
    requires LedgerValid(results)
    ensures LedgerValid(EnrolCourse(results, sid, req))
  {
    var r := EnrolCourse(results, sid, req);
    match FindRecord(results, sid, req.session, req.semester)
    case None =>
      assert r[|results|].courses == [NewCourse(req)];
    case Some(j) =>
      if !HasCodeCi(results[j].courses, req.code) {
        var cs := results[j].courses + [NewCourse(req)];
        forall a, b | 0 <= a < b < |cs|
          ensures !SameCodeCi(cs[a].code, cs[b].code)
        {
          if b == |cs| - 1 {
            assert cs[a] == results[j].courses[a];
          }
        }
      }
  }

  lemma ExtendsTrans(a: seq<SemesterResult>, b: seq<SemesterResult>, c: seq<SemesterResult>)
    requires LedgerExtends(a, b) && LedgerExtends(b, c)
    ensures LedgerExtends(a, c)
  {
  }

  lemma GainsCompose(a: seq<SemesterResult>, b: seq<SemesterResult>, c: seq<SemesterResult>, req: CourseRequest)
    requires GainsAtMostTheCourse(a, b, req) && GainsAtMostTheCourse(b, c, req)
    ensures GainsAtMostTheCourse(a, c, req)
  {
    ExtendsTrans(a, b, c);
    forall i | 0 <= i < |a|
      ensures c[i].courses == a[i].courses
        || (!HasCodeCi(a[i].courses, req.code) && c[i].courses == a[i].courses + [NewCourse(req)])
    {
      if b[i].courses != a[i].courses {
        HasCodeCiPushed(a[i].courses, req);
      }
    }
    forall i | |a| <= i < |c|
      ensures c[i].courses == [NewCourse(req)]
    {
      if i < |b| {
        NewCourseMatches(req);
      }
    }
  }

  lemma GainsRefl(a: seq<SemesterResult>, req: CourseRequest)
    ensures GainsAtMostTheCourse(a, a, req)
  {
  }

  // ---------------------------------------------------------------------------
  // The batch
  // ---------------------------------------------------------------------------

  lemma RegisterEntryEffect(db: Db, roster: seq<nat>, req: CourseRequest, e: Entry)
    ensures GainsAtMostTheCourse(db.results, RegisterEntry(db, roster, req, e).0.results, req)
  {
    if Complete(e) {
      var (db1, sid) := GetOrCreateStudent(db, e, req.level);
      EnrolCourseEffect(db1.results, sid, req);
    } else {
      GainsRefl(db.results, req);
    }
  }

  lemma {:induction false} RegisterAllEffect(db: Db, roster: seq<nat>, req: CourseRequest, es: seq<Entry>)
    ensures GainsAtMostTheCourse(db.results, RegisterAll(db, roster, req, es).0.results, req)
  {
    if es == [] {
      GainsRefl(db.results, req);
    } else {
      RegisterAllEffect(db, roster, req, es[..|es| - 1]);
      var (db1, roster1) := RegisterAll(db, roster, req, es[..|es| - 1]);
      RegisterEntryEffect(db1, roster1, req, es[|es| - 1]);
      GainsCompose(db.results, db1.results, RegisterAll(db, roster, req, es).0.results, req);
    }
  }

  /** `register_students` never alters or removes a course entry: each
      existing result either is unchanged or gains the requested course,
      only if it had no entry with that code in any letter case; each new
      result holds only that course, whose corrected unit load is its unit
      load. */
  lemma RegisterStudentsAddsOnlyTheCourse(db: Db, req: CourseRequest, es: seq<Entry>)
    ensures GainsAtMostTheCourse(db.results, RegisterStudentsSpec(db, req, es).0.results, req)
    ensures NewCourse(req).correctedUnitLoad == req.unitLoad
  {
    match FindSession(db.sessions, req.session)
    case None =>
      GainsRefl(db.results, req);
    case Some(si) =>
      var (db1, ci) := GetOrCreateCohort(db, si, req.level);
      RegisterAllEffect(db1, db1.classes[ci].students, req, es);
  }

  lemma RegisterEntryPreservesLedger(db: Db, roster: seq<nat>, req: CourseRequest, e: Entry)
    requires LedgerValid(db.results)
    ensures LedgerValid(RegisterEntry(db, roster, req, e).0.results)
  {
    if Complete(e) {
      var (db1, sid) := GetOrCreateStudent(db, e, req.level);
      EnrolCoursePreservesLedger(db1.results, sid, req);
    }
  }

  lemma {:induction false} RegisterAllPreservesLedger(db: Db, roster: seq<nat>, req: CourseRequest, es: seq<Entry>)
    requires LedgerValid(db.results)
    ensures LedgerValid(RegisterAll(db, roster, req, es).0.results)
  {
    if es != [] {
      RegisterAllPreservesLedger(db, roster, req, es[..|es| - 1]);
      var (db1, roster1) := RegisterAll(db, roster, req, es[..|es| - 1]);
      RegisterEntryPreservesLedger(db1, roster1, req, es[|es| - 1]);
    }
  }

  /** `register_students` keeps one result per (student, session, semester)
      and one entry per course code in each result. */
  lemma RegisterStudentsPreservesLedger(db: Db, req: CourseRequest, es: seq<Entry>)
    requires LedgerValid(db.results)
    ensures LedgerValid(RegisterStudentsSpec(db, req, es).0.results)
  {
    match FindSession(db.sessions, req.session)
    case None =>
    case Some(si) =>
      var (db1, ci) := GetOrCreateCohort(db, si, req.level);
      RegisterAllPreservesLedger(db1, db1.classes[ci].students, req, es);
  }

  /** Entries with an empty registration number or name make no difference:
      the batch does what the batch of its complete entries does. */
  lemma {:induction false} IncompleteEntriesIgnored(db: Db, roster: seq<nat>, req: CourseRequest, es: seq<Entry>)
    ensures RegisterAll(db, roster, req, es) == RegisterAll(db, roster, req, Filter(es, Complete))
  {
    if es != [] {
      var es', e := es[..|es| - 1], es[|es| - 1];
      IncompleteEntriesIgnored(db, roster, req, es');
      var f := Filter(es', Complete);
      var prev := RegisterAll(db, roster, req, es');
      assert RegisterAll(db, roster, req, es) == RegisterEntry(prev.0, prev.1, req, e);
      if Complete(e) {
        assert Filter(es, Complete) == f + [e];
        assert (f + [e])[..|f + [e]| - 1] == f;
      } else {
        assert Filter(es, Complete) == f;
      }
    }
  }

  /** The number of externals a batch records is its number of complete entries. */
  lemma {:induction false} CountCompleteIsFilterLength(es: seq<Entry>)
    ensures CountComplete(es) == |Filter(es, Complete)|
  {
    if es != [] {
      CountCompleteIsFilterLength(es[..|es| - 1]);
    }
  }

  // ---------------------------------------------------------------------------
  // Every complete entry ends up registered; a second run is a no-op
  // ---------------------------------------------------------------------------

  /** The student with this registration number exists at the request's
      level, is on the roster and is enrolled in the course. */
  predicate Settled(db: Db, roster: seq<nat>, req: CourseRequest, regNo: string) {
    match FindStudent(db.students, regNo)
    case None => false
    case Some(k) =>
      db.students[k].level == req.level && db.students[k].id in roster && Enrolled(db.results, db.students[k].id, req)
  }

  /** Students keep their place, id and registration number and change
      level only to the requested one; the ledger only extends. */
  predicate Grows(a: Db, b: Db, req: CourseRequest) {
    && |a.students| <= |b.students|
    && (forall i :: 0 <= i < |a.students| ==>
          b.students[i].id == a.students[i].id && b.students[i].regNo == a.students[i].regNo
          && (b.students[i].level == a.students[i].level || b.students[i].level == req.level))
    && LedgerExtends(a.results, b.results)
  }

  lemma EnrolledStable(a: seq<SemesterResult>, b: seq<SemesterResult>, sid: nat, req: CourseRequest)
    requires Enrolled(a, sid, req) && LedgerExtends(a, b)
    ensures Enrolled(b, sid, req)
  {
    var j := FindRecord(a, sid, req.session, req.semester).value;
    assert IsRecordOf(b[j], sid, req.session, req.semester);
    assert forall k :: 0 <= k < j ==> SameKey(a[k], b[k]) && !IsRecordOf(a[k], sid, req.session, req.semester);
    assert FindRecord(b, sid, req.session, req.semester) == Some(j);
    HasCodeCiAppend(a[j].courses, b[j].courses[|a[j].courses|..], req.code);
    assert a[j].courses + b[j].courses[|a[j].courses|..] == b[j].courses;
  }

  lemma SettledStable(a: Db, b: Db, ra: seq<nat>, rb: seq<nat>, req: CourseRequest, regNo: string)
    requires Settled(a, ra, req, regNo) && Grows(a, b, req) && (forall x :: x in ra ==> x in rb)
    ensures Settled(b, rb, req, regNo)
  {
    var k := FindStudent(a.students, regNo).value;
    assert FindStudent(b.students, regNo) == Some(k);
    EnrolledStable(a.results, b.results, a.students[k].id, req);
  }

  lemma RegisterEntryGrows(db: Db, roster: seq<nat>, req: CourseRequest, e: Entry)
    ensures Grows(db, RegisterEntry(db, roster, req, e).0, req)
    ensures forall x :: x in roster ==> x in RegisterEntry(db, roster, req, e).1
  {
    RegisterEntryEffect(db, roster, req, e);
  }

  lemma RegisterEntrySettles(db: Db, roster: seq<nat>, req: CourseRequest, e: Entry)
    requires Complete(e)
    ensures Settled(RegisterEntry(db, roster, req, e).0, RegisterEntry(db, roster, req, e).1, req, e.regNo)
  {
    var (db1, sid) := GetOrCreateStudent(db, e, req.level);
    EnrolCourseEffect(db1.results, sid, req);
    match FindStudent(db.students, e.regNo)
    case None =>
      assert db1.students == db.students + [Student(db.nextId, e.regNo, e.fullname, req.level, 0, "")];
      assert db1.students[|db.students|].regNo == e.regNo;
      assert FindStudent(db1.students, e.regNo) == Some(|db.students|);
    case Some(k) =>
      assert |db1.students| == |db.students|;
      assert forall i :: 0 <= i < |db.students| ==> db1.students[i].regNo == db.students[i].regNo;
      assert FindStudent(db1.students, e.regNo) == Some(k);
  }

  /** After a batch, every student named by a complete entry exists at the
      requested level, is on the class roster and holds the course in the
      result for the session and semester. */
  lemma {:induction false} RegisterAllSettles(db: Db, roster: seq<nat>, req: CourseRequest, es: seq<Entry>)
    ensures forall i :: 0 <= i < |es| && Complete(es[i]) ==>
      Settled(RegisterAll(db, roster, req, es).0, RegisterAll(db, roster, req, es).1, req, es[i].regNo)
  {
    if es != [] {
      var es', e := es[..|es| - 1], es[|es| - 1];
      RegisterAllSettles(db, roster, req, es');
      var (db1, roster1) := RegisterAll(db, roster, req, es');
      var (db2, roster2) := RegisterEntry(db1, roster1, req, e);
      RegisterEntryGrows(db1, roster1, req, e);
      forall i | 0 <= i < |es| && Complete(es[i])
        ensures Settled(db2, roster2, req, es[i].regNo)
      {
        if i == |es| - 1 {
          RegisterEntrySettles(db1, roster1, req, e);
        } else {
          assert es'[i] == es[i];
          SettledStable(db1, db2, roster1, roster2, req, es[i].regNo);
        }
      }
    }
  }

  lemma SettledEntryIsNoOp(db: Db, roster: seq<nat>, req: CourseRequest, e: Entry)
    requires Complete(e) ==> Settled(db, roster, req, e.regNo)
    ensures RegisterEntry(db, roster, req, e) == (db, roster)
  {
    if Complete(e) {
      var k := FindStudent(db.students, e.regNo).value;
      assert GetOrCreateStudent(db, e, req.level) == (db, db.students[k].id);
    }
  }

  lemma {:induction false} SettledBatchIsNoOp(db: Db, roster: seq<nat>, req: CourseRequest, es: seq<Entry>)
    requires forall i :: 0 <= i < |es| && Complete(es[i]) ==> Settled(db, roster, req, es[i].regNo)
    ensures RegisterAll(db, roster, req, es) == (db, roster)
  {
    if es != [] {
      var es', e := es[..|es| - 1], es[|es| - 1];
      assert forall i :: 0 <= i < |es'| ==> es'[i] == es[i];
      SettledBatchIsNoOp(db, roster, req, es');
      SettledEntryIsNoOp(db, roster, req, e);
    }
  }

  // ---------------------------------------------------------------------------
  // The class lookup is stable
  // ---------------------------------------------------------------------------

  /** Two class lists that agree on every id and level. */
  predicate SameCohortKeys(c1: seq<Cohort>, c2: seq<Cohort>) {
    |c1| == |c2| && forall i :: 0 <= i < |c1| ==> c1[i].id == c2[i].id && c1[i].level == c2[i].level
  }

  lemma {:induction false} CohortForLevelKeys(c1: seq<Cohort>, c2: seq<Cohort>, ids: seq<nat>, level: int)
    requires SameCohortKeys(c1, c2)
    ensures CohortForLevel(c1, ids, level) == CohortForLevel(c2, ids, level)
  {
    if ids != [] {
      CohortForLevelKeys(c1, c2, ids[1..], level);
      match FindCohort(c1, ids[0])
      case None =>
      case Some(k) =>
        assert FindCohort(c2, ids[0]) == Some(k);
    }
  }

  lemma {:induction false} CohortForLevelExtend(classes: seq<Cohort>, c: Cohort, ids: seq<nat>, level: int)
    requires forall k :: 0 <= k < |ids| ==> ids[k] != c.id
    ensures CohortForLevel(classes + [c], ids, level) == CohortForLevel(classes, ids, level)
  {
    if ids != [] {
      CohortForLevelExtend(classes, c, ids[1..], level);
      var cl := classes + [c];
      assert forall j :: 0 <= j < |classes| ==> cl[j] == classes[j];
      match FindCohort(classes, ids[0])
      case None =>
        assert FindCohort(cl, ids[0]).None?;
      case Some(k) =>
        assert FindCohort(cl, ids[0]) == Some(k);
    }
  }

  /** The lookup in a session whose class list has grown by one id. */
  lemma {:induction false} CohortForLevelSnoc(classes: seq<Cohort>, ids: seq<nat>, x: nat, level: int, k: nat)
    requires CohortForLevel(classes, ids, level).None?
    requires FindCohort(classes, x) == Some(k) && classes[k].level == level
    ensures CohortForLevel(classes, ids + [x], level) == Some(k)
  {
    if ids == [] {
      assert ids + [x] == [x];
    } else {
      assert (ids + [x])[1..] == ids[1..] + [x];
      CohortForLevelSnoc(classes, ids[1..], x, level, k);
    }
  }

  /** Right after get-or-create, the session's class lookup at that level
      finds the class returned. */
  lemma GetOrCreateCohortFinds(db: Db, si: nat, level: int)
    requires db.Valid() && si < |db.sessions|
    ensures CohortForLevel(GetOrCreateCohort(db, si, level).0.classes,
                           GetOrCreateCohort(db, si, level).0.sessions[si].classes, level)
         == Some(GetOrCreateCohort(db, si, level).1)
  {
    var ids := db.sessions[si].classes;
    if CohortForLevel(db.classes, ids, level).None? {
      var c := Cohort(db.nextId, level, []);
      CohortForLevelExtend(db.classes, c, ids, level);
      var cl := db.classes + [c];
      assert forall j :: 0 <= j < |db.classes| ==> cl[j].id < db.nextId;
      assert cl[|db.classes|].id == db.nextId;
      assert FindCohort(cl, db.nextId) == Some(|db.classes|);
      CohortForLevelSnoc(db.classes + [c], ids, db.nextId, level, |db.classes|);
    }
  }

  /** Whether an entry is settled depends on the students and the ledger
      only. */
  lemma SettledOnStudentsAndResults(a: Db, b: Db, roster: seq<nat>, req: CourseRequest, regNo: string)
    requires a.students == b.students && a.results == b.results
    ensures Settled(a, roster, req, regNo) == Settled(b, roster, req, regNo)
  {
  }

  /** After a registration the session is found again under its name, and
      get-or-create returns the class the registration filled, unchanged. */
  lemma RegisterAgainFinds(db: Db, req: CourseRequest, es: seq<Entry>, si: nat)
    requires db.Valid() && FindSession(db.sessions, req.session) == Some(si)
    ensures var (db1, ci) := GetOrCreateCohort(db, si, req.level);
            var once := RegisterStudentsSpec(db, req, es).0;
            && FindSession(once.sessions, req.session) == Some(si)
            && GetOrCreateCohort(once, si, req.level) == (once, ci)
  {
    var (db1, ci) := GetOrCreateCohort(db, si, req.level);
    GetOrCreateCohortFinds(db, si, req.level);
    var (db2, roster) := RegisterAll(db1, db1.classes[ci].students, req, es);
    var added := if req.external then Repeat(Descriptor(req), CountComplete(es)) else [];
    var once := db2.(classes := db2.classes[ci := db2.classes[ci].(students := roster)],
                     sessions := db2.sessions[si := db2.sessions[si].(externals := db2.sessions[si].externals + added)]);
    assert once == RegisterStudentsSpec(db, req, es).0;
    assert forall k :: 0 <= k < |db.sessions| ==> once.sessions[k].name == db.sessions[k].name;
    assert FindSession(once.sessions, req.session) == Some(si);
    CohortForLevelKeys(once.classes, db1.classes, db1.sessions[si].classes, req.level);
  }

  /** Registering the same batch again changes no student, no result, no
      class and no counter; only an external course is listed on the session
      once more for each complete entry. */
  lemma RegisterStudentsIdempotent(db: Db, req: CourseRequest, es: seq<Entry>)
    requires db.Valid()
    ensures var once := RegisterStudentsSpec(db, req, es).0;
            var twice := RegisterStudentsSpec(once, req, es);
            && twice.1 == RegisterStudentsSpec(db, req, es).1
            && twice.0 == once.(sessions := twice.0.sessions)
            && (!req.external ==> twice.0 == once)
  {
    match FindSession(db.sessions, req.session)
    case None =>
    case Some(si) =>
      var (db1, ci) := GetOrCreateCohort(db, si, req.level);
      var (db2, roster) := RegisterAll(db1, db1.classes[ci].students, req, es);
      RegisterAllSettles(db1, db1.classes[ci].students, req, es);
      var once := RegisterStudentsSpec(db, req, es).0;
      RegisterAgainFinds(db, req, es, si);
      assert once.students == db2.students && once.results == db2.results;
      assert once.classes[ci].students == roster;
      // every entry is already settled, so the batch changes nothing
      forall i | 0 <= i < |es| && Complete(es[i])
        ensures Settled(once, roster, req, es[i].regNo)
      {
        SettledOnStudentsAndResults(once, db2, roster, req, es[i].regNo);
      }
      SettledBatchIsNoOp(once, roster, req, es);
      assert once.classes[ci := once.classes[ci].(students := roster)] == once.classes;
      if !req.external {
        assert once.sessions[si].externals + [] == once.sessions[si].externals;
        assert once.sessions[si := once.sessions[si].(externals := once.sessions[si].externals + [])] == once.sessions;
      }
  }

  // ---------------------------------------------------------------------------
  // register_external
  // ---------------------------------------------------------------------------

  /** No two catalog rows for the same session and course code. */
  predicate CatalogDistinct(catalog: seq<ExternalCourse>) {
    forall i, j :: 0 <= i < j < |catalog| ==>
      !(catalog[i].session == catalog[j].session && catalog[i].entry.code == catalog[j].entry.code)
  }

  /** `register_external` answers 404, 404 or 500 without changing the store,
      lists an external course at most once per session in the catalog, and
      otherwise leaves the student holding the course, under exactly its
      code, in the result of the requested session, level and semester. */
  lemma RegisterExternalEffect(db: Db, regNo: string, req: CourseRequest)
    requires CatalogDistinct(db.catalog)
    ensures var (db', outcome) := RegisterExternalSpec(db, regNo, req);
      && (outcome != Ok ==> db' == db)
      && (outcome == NotFound <==>
            FindSession(db.sessions, req.session).None?
            || CohortForLevel(db.classes, db.sessions[FindSession(db.sessions, req.session).value].classes, req.level).None?)
      && CatalogDistinct(db'.catalog)
      && db'.students == db.students && db'.classes == db.classes && db'.nextId == db.nextId
      && (outcome == Ok ==>
            var k := FindStudent(db.students, regNo).value;
            match FindLevelRecord(db'.results, db.students[k].id, req.session, req.level, req.semester)
            case None => false
            case Some(j) => HasCode(db'.results[j].courses, req.code))
  {
    var (db', outcome) := RegisterExternalSpec(db, regNo, req);
    if outcome == Ok {
      var k := FindStudent(db.students, regNo).value;
      EnrolAtLevelHolds(db.results, db.students[k].id, req);
    }
  }

  /** After the record step the result of the requested session, level and
      semester exists and holds a course with exactly the requested code. */
  lemma EnrolAtLevelHolds(results: seq<SemesterResult>, sid: nat, req: CourseRequest)
    ensures match FindLevelRecord(EnrolAtLevel(results, sid, req), sid, req.session, req.level, req.semester)
            case None => false
            case Some(j) => HasCode(EnrolAtLevel(results, sid, req)[j].courses, req.code)
  {
    var r := EnrolAtLevel(results, sid, req);
    match FindLevelRecord(results, sid, req.session, req.level, req.semester)
    case None =>
      assert IsLevelRecordOf(r[|results|], sid, req.session, req.level, req.semester);
      assert FindLevelRecord(r, sid, req.session, req.level, req.semester) == Some(|results|);
      assert r[|results|].courses[0].code == req.code;
    case Some(j) =>
      if !HasCode(results[j].courses, req.code) {
        assert forall i :: 0 <= i < j ==> r[i] == results[i];
        assert IsLevelRecordOf(r[j], sid, req.session, req.level, req.semester);
        assert r[j].courses[|results[j].courses|].code == req.code;
      }
      assert FindLevelRecord(r, sid, req.session, req.level, req.semester) == Some(j);
  }

  /** As written, `register_external` can give a student a second result for
      one (session, semester): the existing result is at another level. */
  lemma RegisterExternalDuplicatesResult()
    ensures var db := Db([Student(0, "R1", "Ann", 100, 0, "")],
                         [SemesterResult(0, "S", 100, 1, 0, Some(0), [])],
                         [Cohort(1, 200, [])], [Session("S", false, [1], [])], [], 2);
            var req := CourseRequest(200, "Topology", "MTH201", 3, 1, "S", false);
            && db.Valid() && LedgerValid(db.results)
            && RegisterExternalSpec(db, "R1", req).1 == Ok
            && !OneRecordPerTriple(RegisterExternalSpec(db, "R1", req).0.results)
  {
    var db := Db([Student(0, "R1", "Ann", 100, 0, "")],
                 [SemesterResult(0, "S", 100, 1, 0, Some(0), [])],
                 [Cohort(1, 200, [])], [Session("S", false, [1], [])], [], 2);
    var req := CourseRequest(200, "Topology", "MTH201", 3, 1, "S", false);
    assert FindSession(db.sessions, "S") == Some(0);
    assert FindCohort(db.classes, 1) == Some(0);
    assert CohortForLevel(db.classes, [1], 200) == Some(0);
    assert FindStudent(db.students, "R1") == Some(0);
    assert FindLevelRecord(db.results, 0, "S", 200, 1).None?;
    var r := RegisterExternalSpec(db, "R1", req).0.results;
    assert |r| == 2 && r[0].semester == r[1].semester == 1;
  }

  /** The store of the letter-case scenario is valid. */
  lemma CodeCaseStoreValid(c: Course, db: Db)
    requires db == Db([Student(0, "R1", "Ann", 200, 0, "")],
                      [SemesterResult(0, "S", 200, 1, 0, Some(0), [c])],
                      [Cohort(1, 200, [])], [Session("S", false, [1], [])], [], 2)
    ensures db.Valid() && LedgerValid(db.results)
  {
  }

  /** As written, `register_external` compares codes with their letter case,
      so a result holding "mth201" gains a second entry "MTH201". */
  lemma RegisterExternalDuplicatesCode()
    ensures var c := Course("mth201", "Topology", 3, 3, 0.0, 0.0, 0.0, 0, false);
            var db := Db([Student(0, "R1", "Ann", 200, 0, "")],
                         [SemesterResult(0, "S", 200, 1, 0, Some(0), [c])],
                         [Cohort(1, 200, [])], [Session("S", false, [1], [])], [], 2);
            var req := CourseRequest(200, "Topology", "MTH201", 3, 1, "S", false);
            && db.Valid() && LedgerValid(db.results)
            && RegisterExternalSpec(db, "R1", req).1 == Ok
            && !LedgerValid(RegisterExternalSpec(db, "R1", req).0.results)
  {
    var c := Course("mth201", "Topology", 3, 3, 0.0, 0.0, 0.0, 0, false);
    var db := Db([Student(0, "R1", "Ann", 200, 0, "")],
                 [SemesterResult(0, "S", 200, 1, 0, Some(0), [c])],
                 [Cohort(1, 200, [])], [Session("S", false, [1], [])], [], 2);
    var req := CourseRequest(200, "Topology", "MTH201", 3, 1, "S", false);
    CodeCaseStoreValid(c, db);
    assert FindSession(db.sessions, "S") == Some(0);
    assert FindCohort(db.classes, 1) == Some(0);
    assert CohortForLevel(db.classes, [1], 200) == Some(0);
    assert FindStudent(db.students, "R1") == Some(0);
    assert FindLevelRecord(db.results, 0, "S", 200, 1) == Some(0);
    assert !HasCode([c], "MTH201");
    var cs := RegisterExternalSpec(db, "R1", req).0.results[0].courses;
    assert cs == [c, NewCourse(req)];
    assert ToLower("mth201") == ToLower("MTH201");
    assert SameCodeCi(cs[0].code, cs[1].code);
  }

  /** `register_external` with the record step of `register_students`: the
      result is found by (student, session, semester) and the course code is
      compared in any letter case. */
  function RegisterExternalCorrected(db: Db, regNo: string, req: CourseRequest): (r: (Db, Outcome))
    ensures r.1 == RegisterExternalSpec(db, regNo, req).1
  {
    match FindSession(db.sessions, req.session)
    case None => (db, NotFound)
    case Some(si) =>
      if CohortForLevel(db.classes, db.sessions[si].classes, req.level).None? then (db, NotFound)
      else match FindStudent(db.students, regNo)
        case None => (db, ServerError)
        case Some(k) =>
          var db1 := db.(results := EnrolCourse(db.results, db.students[k].id, req));
          if req.external && FindCatalogEntry(db.catalog, req.session, req.code).None? then
            (db1.(catalog := db.catalog + [ExternalCourse(req.session, Descriptor(req))],
                  sessions := db.sessions[si := db.sessions[si].(externals := db.sessions[si].externals + [Descriptor(req)])]),
             Ok)
          else (db1, Ok)
  }

  /** The corrected registration keeps the ledger invariant and leaves the
      student enrolled in the course. */
  lemma RegisterExternalCorrectedKeepsLedger(db: Db, regNo: string, req: CourseRequest)
    requires LedgerValid(db.results)
    ensures LedgerValid(RegisterExternalCorrected(db, regNo, req).0.results)
    ensures RegisterExternalCorrected(db, regNo, req).1 == Ok ==>
      Enrolled(RegisterExternalCorrected(db, regNo, req).0.results,
               db.students[FindStudent(db.students, regNo).value].id, req)
  {
    if RegisterExternalCorrected(db, regNo, req).1 == Ok {
      var sid := db.students[FindStudent(db.students, regNo).value].id;
      EnrolCoursePreservesLedger(db.results, sid, req);
      EnrolCourseEffect(db.results, sid, req);
    }
  }
}
