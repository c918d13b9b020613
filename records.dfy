/** The shapes of the stored documents (students, semester results with their
    embedded course entries, classes, sessions and the external-course
    catalog), the whole store as one value, the store invariant, and the
    lookups the controllers perform (`findOne` by key, first match). */
module Records {
  import opened Common

  /** A course entry embedded in a semester result. Scores are reals; the
      grade point and the unit load are whole numbers. `correctedUnitLoad`
      is set in the entry literal registration pushes; the course schema
      (models/semester_result.js:12-23) does not declare it, so no stored
      entry keeps it, and nothing modelled here reads it. */
  datatype Course = Course(
    code: string,
    title: string,
    unitLoad: nat,
    correctedUnitLoad: nat,
    ca: real,
    exam: real,
    total: real,
    grade: nat,
    external: bool)

  /** One student's results for one semester of one session. `gpa` is in
      hundredths; `sessionGpa` is `None` where the store holds null. */
  datatype SemesterResult = SemesterResult(
    studentId: nat,
    session: string,
    level: int,
    semester: int,
    gpa: nat,
    sessionGpa: Option<nat>,
    courses: seq<Course>)

  /** `moe` is the mode-of-entry tag, "" when unset; `cgpa` is in hundredths. */
  datatype Student = Student(id: nat, regNo: string, fullname: string, level: int, cgpa: nat, moe: string)

  /** A class (cohort): one level within a session and its roster of student ids. */
  datatype Cohort = Cohort(id: nat, level: int, students: seq<nat>)

  /** The course descriptor a session's `externals` list records. */
  datatype ExternalEntry = ExternalEntry(code: string, title: string, unitLoad: nat, semester: int)

  datatype Session = Session(name: string, current: bool, classes: seq<nat>, externals: seq<ExternalEntry>)

  /** A row of the per-session external-course catalog. */
  datatype ExternalCourse = ExternalCourse(session: string, entry: ExternalEntry)

  /** The whole store. `nextId` is the next fresh object id. */
  datatype Db = Db(
    students: seq<Student>,
    results: seq<SemesterResult>,
    classes: seq<Cohort>,
    sessions: seq<Session>,
    catalog: seq<ExternalCourse>,
    nextId: nat)
  {
    /** The store invariant: ids are fresh below `nextId` and distinct,
        registration numbers and session names are unique, no roster holds a
        student twice, and at most one session is current. */
    predicate Valid() {
      StudentsFresh(students, nextId) && ClassesFresh(classes, nextId) && SessionsFresh(sessions, nextId)
    }
  }

  /** Student ids lie below the counter and are distinct; registration
      numbers are unique. */
  predicate StudentsFresh(students: seq<Student>, nextId: nat) {
    && (forall i :: 0 <= i < |students| ==> students[i].id < nextId)
    && (forall i, j :: 0 <= i < j < |students| ==> students[i].id != students[j].id)
    && (forall i, j :: 0 <= i < j < |students| ==> students[i].regNo != students[j].regNo)
  }

  /** Class ids lie below the counter and are distinct; no roster holds a
      student twice. */
  predicate ClassesFresh(classes: seq<Cohort>, nextId: nat) {
    && (forall i :: 0 <= i < |classes| ==> classes[i].id < nextId)
    && (forall i :: 0 <= i < |classes| ==> NoDuplicates(classes[i].students))
    && (forall i, j :: 0 <= i < j < |classes| ==> classes[i].id != classes[j].id)
  }

  /** Sessions refer to class ids below the counter, have unique names, and
      at most one is current. */
  predicate SessionsFresh(sessions: seq<Session>, nextId: nat) {
    && (forall i, k :: 0 <= i < |sessions| && 0 <= k < |sessions[i].classes| ==> sessions[i].classes[k] < nextId)
    && (forall i, j :: 0 <= i < j < |sessions| ==> sessions[i].name != sessions[j].name)
    && AtMostOneCurrent(sessions)
  }

  predicate AtMostOneCurrent(sessions: seq<Session>) {
    forall i, j :: 0 <= i < j < |sessions| && sessions[i].current ==> !sessions[j].current
  }

  /** Two results for the same student, session and semester. */
  predicate SameKey(a: SemesterResult, b: SemesterResult) {
    a.studentId == b.studentId && a.session == b.session && a.semester == b.semester
  }

  /** One semester result per (student, session, semester), as the lookup
      of `register_students` keeps it (controllers/class.js:66-85). */
  predicate OneRecordPerTriple(results: seq<SemesterResult>) {
    forall i, j :: 0 <= i < j < |results| ==>
      !(results[i].studentId == results[j].studentId && results[i].session == results[j].session
        && results[i].semester == results[j].semester)
  }

  /** Course codes compared in any letter case. */
  predicate SameCodeCi(a: string, b: string) { ToLower(a) == ToLower(b) }

  /** At most one course entry per code, in any letter case, as the
      letter-case check of `register_students` keeps it (controllers/class.js:87-101). */
  predicate CodesDistinctCi(cs: seq<Course>) {
    forall i, j :: 0 <= i < j < |cs| ==> !SameCodeCi(cs[i].code, cs[j].code)
  }

  /** The ledger invariant `register_students` maintains: one result per
      triple, and within each result one entry per course code. */
  predicate LedgerValid(results: seq<SemesterResult>) {
    OneRecordPerTriple(results) && forall i :: 0 <= i < |results| ==> CodesDistinctCi(results[i].courses)
  }

  function FindStudent(students: seq<Student>, regNo: string): (r: Option<nat>)
    ensures r.Some? ==> r.value < |students| && students[r.value].regNo == regNo
    ensures r.Some? ==> forall k :: 0 <= k < r.value ==> students[k].regNo != regNo
    ensures r.None? ==> forall k :: 0 <= k < |students| ==> students[k].regNo != regNo
  {
    FirstWhere(students, (s: Student) => s.regNo == regNo)
  }

  predicate IsRecordOf(r: SemesterResult, studentId: nat, session: string, semester: int) {
    r.studentId == studentId && r.session == session && r.semester == semester
  }

  function FindRecord(results: seq<SemesterResult>, studentId: nat, session: string, semester: int): (r: Option<nat>)
    ensures r.Some? ==> r.value < |results| && IsRecordOf(results[r.value], studentId, session, semester)
    ensures r.Some? ==> forall k :: 0 <= k < r.value ==> !IsRecordOf(results[k], studentId, session, semester)
    ensures r.None? ==> forall k :: 0 <= k < |results| ==> !IsRecordOf(results[k], studentId, session, semester)
  {
    FirstWhere(results, (x: SemesterResult) => IsRecordOf(x, studentId, session, semester))
  }

  function FindSession(sessions: seq<Session>, name: string): (r: Option<nat>)
    ensures r.Some? ==> r.value < |sessions| && sessions[r.value].name == name
    ensures r.Some? ==> forall k :: 0 <= k < r.value ==> sessions[k].name != name
    ensures r.None? ==> forall k :: 0 <= k < |sessions| ==> sessions[k].name != name
  {
    FirstWhere(sessions, (s: Session) => s.name == name)
  }

  function FindCohort(classes: seq<Cohort>, id: nat): (r: Option<nat>)
    ensures r.Some? ==> r.value < |classes| && classes[r.value].id == id
    ensures r.Some? ==> forall k :: 0 <= k < r.value ==> classes[k].id != id
    ensures r.None? ==> forall k :: 0 <= k < |classes| ==> classes[k].id != id
  {
    FirstWhere(classes, (c: Cohort) => c.id == id)
  }

  /** The records of one student, in store order (`find({ student_id })`). */
  function RecordsOf(results: seq<SemesterResult>, studentId: nat): (r: seq<SemesterResult>)
    ensures forall i :: 0 <= i < |r| ==> r[i] in results && r[i].studentId == studentId
    ensures forall i :: 0 <= i < |results| && results[i].studentId == studentId ==> results[i] in r
  {
    Filter(results, (x: SemesterResult) => x.studentId == studentId)
  }

  /** The records of one student for one session, in store order. */
  function SessionRecordsOf(results: seq<SemesterResult>, studentId: nat, session: string): (r: seq<SemesterResult>)
    ensures forall i :: 0 <= i < |r| ==> r[i] in results && r[i].studentId == studentId && r[i].session == session
    ensures forall i :: 0 <= i < |results| && results[i].studentId == studentId && results[i].session == session ==> results[i] in r
  {
    Filter(results, (x: SemesterResult) => x.studentId == studentId && x.session == session)
  }
}
