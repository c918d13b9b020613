/** The two probation reports over a class (`probation_list` and
    `error_students`): which students' second-semester results fall under
    the level-100 subject-mean rule or, above level 100, the session-GPA
    rule. Both only read the store. */
module ClassAnalytics {
  import opened Common
  import opened Records
  import opened Database

  // ---------------------------------------------------------------------------
  // Course-code prefixes
  // ---------------------------------------------------------------------------

  /** The subjects the level-100 rule of the probation list averages over. */
  const SubjectPrefixes: seq<string> := ["mth", "phy", "chm", "bio", "gsp"]

  /** The length of the run of ASCII letters a code starts with. */
  function LetterRun(code: string): (n: nat)
    ensures n <= |code|
    ensures forall i :: 0 <= i < n ==> IsLetter(code[i])
    ensures n < |code| ==> !IsLetter(code[n])
  {
    if code == [] || !IsLetter(code[0]) then 0 else 1 + LetterRun(code[1..])
  }

  /** The match of `^[a-zA-Z]+`: the leading letters, or no match. */
  function LeadingLetters(code: string): (r: Option<string>)
    ensures r.Some? ==> |r.value| > 0 && r.value <= code
    ensures r.None? <==> code == [] || !IsLetter(code[0])
  {
    var n := LetterRun(code);
    if n == 0 then None else Some(code[..n])
  }

  /** The capture of `^([a-zA-Z]+)\d+`: the leading letters of a code that
      begins with letters followed by a digit. */
  function SubjectPrefix(code: string): (r: Option<string>)
    ensures r.Some? ==> LeadingLetters(code) == r && |r.value| < |code| && IsDigit(code[|r.value|])
    ensures r.None? ==> LeadingLetters(code).None? || |LeadingLetters(code).value| == |code|
                        || !IsDigit(code[|LeadingLetters(code).value|])
  {
    var n := LetterRun(code);
    if 0 < n < |code| && IsDigit(code[n]) then Some(code[..n]) else None
  }

  /** The group of a course in the probation list's level-100 rule: its
      prefix in lower case, when that is one of the five subjects. */
  function ProbationKey(c: Course): (r: Option<string>)
    ensures r.Some? ==> r.value in SubjectPrefixes
  {
    match SubjectPrefix(c.code)
    case None => None
    case Some(p) => if ToLower(p) in SubjectPrefixes then Some(ToLower(p)) else None
  }

  /** The group of a course in the error report's level-100 rule: its
      leading letters, letter case kept. */
  function ErrorKey(c: Course): Option<string> {
    LeadingLetters(c.code)
  }

  // ---------------------------------------------------------------------------
  // Group means
  // ---------------------------------------------------------------------------

  /** The scores of the courses of group `p`, in course order. The score a
      course carries is the accessor `score`. */
  function GroupScores(cs: seq<Course>, key: Course -> Option<string>, score: Course -> real, p: string): seq<real> {
    if cs == [] then []
    else GroupScores(cs[..|cs| - 1], key, score, p)
         + (if key(cs[|cs| - 1]) == Some(p) then [score(cs[|cs| - 1])] else [])
  }

  function Sum(xs: seq<real>): real {
    if xs == [] then 0.0 else Sum(xs[..|xs| - 1]) + xs[|xs| - 1]
  }

  /** The mean of a non-empty group is below 40. */
  predicate MeanBelow(xs: seq<real>) {
    |xs| > 0 && Sum(xs) / (|xs| as real) < 40.0
  }

  /** Some group of the courses has a mean below 40. */
  predicate SomeGroupBelow(cs: seq<Course>, key: Course -> Option<string>, score: Course -> real) {
    exists i :: 0 <= i < |cs| && key(cs[i]).Some? && MeanBelow(GroupScores(cs, key, score, key(cs[i]).value))
  }

  /** The rule above level 100: a session GPA below 2.50, where a missing
      (null) session GPA compares as zero. */
  predicate GpaProbation(r: SemesterResult) {
    r.sessionGpa.None? || r.sessionGpa.value < 250
  }

  /** `reduce((a, b) => a + b, 0)`. */
  method SumScores(xs: seq<real>) returns (s: real)
    ensures s == Sum(xs)
  {
    s := 0.0;
    for i := 0 to |xs|
      invariant s == Sum(xs[..i])
    {
      assert xs[..i + 1][..i] == xs[..i];
      s := s + xs[i];
    }
    assert xs[..|xs|] == xs;
  }

  /** Fills a dictionary from group key to the list of scores, then asks
      whether the average of any list is below 40. */
  method AnyGroupBelow(cs: seq<Course>, key: Course -> Option<string>, score: Course -> real) returns (below: bool)
    ensures below == SomeGroupBelow(cs, key, score)
  {
    var groups, keys := BuildGroups(cs, key, score);
    below := ScanGroups(groups, keys);
    if below {
      var m :| 0 <= m < |keys| && MeanBelow(groups[keys[m]]);
      GroupWitness(cs, key, score, keys[m]);
    } else {
      forall i | 0 <= i < |cs| && key(cs[i]).Some?
        ensures !MeanBelow(GroupScores(cs, key, score, key(cs[i]).value))
      {
        var p := key(cs[i]).value;
        if p in groups {
          var m :| 0 <= m < |keys| && keys[m] == p;
        }
      }
    }
  }

  /** The dictionary-filling loop: every key met maps to its group, in the
      order the keys are first met. */
  method BuildGroups(cs: seq<Course>, key: Course -> Option<string>, score: Course -> real)
    returns (groups: map<string, seq<real>>, keys: seq<string>)
    ensures forall p :: p in groups <==> p in keys
    ensures forall p :: p in groups ==> groups[p] == GroupScores(cs, key, score, p) && |groups[p]| > 0
    ensures forall p :: p !in groups ==> GroupScores(cs, key, score, p) == []
  {
    groups := map[];
    keys := [];
    for i := 0 to |cs|
      invariant forall p :: p in groups <==> p in keys
      invariant forall p :: p in groups ==> groups[p] == GroupScores(cs[..i], key, score, p) && |groups[p]| > 0
      invariant forall p :: p !in groups ==> GroupScores(cs[..i], key, score, p) == []
    {
      assert cs[..i + 1][..i] == cs[..i];
      match key(cs[i]) {
        case None =>
        case Some(p) =>
          if p !in groups {
            groups := groups[p := []];
            keys := keys + [p];
          }
          groups := groups[p := groups[p] + [score(cs[i])]];
      }
    }
    assert cs[..|cs|] == cs;
  }

  /** The averaging loop over the dictionary's keys. */
  method ScanGroups(groups: map<string, seq<real>>, keys: seq<string>) returns (below: bool)
    requires forall p :: p in keys ==> p in groups
    ensures below <==> exists m :: 0 <= m < |keys| && MeanBelow(groups[keys[m]])
  {
    below := false;
    for k := 0 to |keys|
      invariant below <==> exists m :: 0 <= m < k && MeanBelow(groups[keys[m]])
    {
      var scores := groups[keys[k]];
      var total := SumScores(scores);
      if |scores| > 0 && total / (|scores| as real) < 40.0 {
        below := true;
      }
    }
  }

  /** A non-empty group comes from some course carrying its key. */
  lemma {:induction false} GroupWitness(cs: seq<Course>, key: Course -> Option<string>, score: Course -> real, p: string)
    requires |GroupScores(cs, key, score, p)| > 0
    ensures exists i :: 0 <= i < |cs| && key(cs[i]) == Some(p)
  {
    var last := cs[|cs| - 1];
    if key(last) != Some(p) {
      GroupWitness(cs[..|cs| - 1], key, score, p);
      var i :| 0 <= i < |cs| - 1 && key(cs[..|cs| - 1][i]) == Some(p);
      assert cs[i] == cs[..|cs| - 1][i];
    }
  }

  /** The mean test as the source evaluates it, without division: the
      scores sum to less than 40 per course. */
  lemma MeanBelowIsSumBelow(xs: seq<real>)
    ensures MeanBelow(xs) <==> |xs| > 0 && Sum(xs) < 40.0 * (|xs| as real)
  {
    if |xs| > 0 {
      var n := |xs| as real;
      assert Sum(xs) / n * n == Sum(xs);
      if Sum(xs) / n < 40.0 {
        assert Sum(xs) / n * n < 40.0 * n;
      } else {
        assert Sum(xs) / n * n >= 40.0 * n;
      }
    }
  }

  // ---------------------------------------------------------------------------
  // probation_list
  // ---------------------------------------------------------------------------

  predicate IsStudentId(students: seq<Student>, id: nat) {
    exists k :: 0 <= k < |students| && students[k].id == id
  }

  /** The roster members whose student documents exist, in roster order:
      populating the roster drops the others. */
  function Present(students: seq<Student>, roster: seq<nat>): (ids: seq<nat>)
    ensures forall id :: id in ids <==> id in roster && IsStudentId(students, id)
  {
    Filter(roster, (id: nat) => IsStudentId(students, id))
  }

  /** The second-semester results of the session at the level, of the given
      students, in store order. */
  function Selection(results: seq<SemesterResult>, ids: seq<nat>, level: int, session: string): seq<SemesterResult> {
    Filter(results, (r: SemesterResult) => r.studentId in ids && r.session == session && r.semester == 2 && r.level == level)
  }

  /** The probation rule of the probation list for a requested level. */
  predicate OnProbation(r: SemesterResult, level: int, score: Course -> real) {
    if level == 100 then SomeGroupBelow(r.courses, ProbationKey, score) else GpaProbation(r)
  }

  function Probation(rs: seq<SemesterResult>, level: int, score: Course -> real): seq<SemesterResult> {
    Filter(rs, (r: SemesterResult) => OnProbation(r, level, score))
  }

  /** `probation_list` as a function of the store: not found for an unknown
      class, otherwise the selected results on probation. */
  function ProbationListSpec(db: Db, classId: nat, level: int, session: string, score: Course -> real)
    : (Outcome, seq<SemesterResult>)
  {
    match FindCohort(db.classes, classId)
    case None => (NotFound, [])
    case Some(ci) =>
      var ids := Present(db.students, db.classes[ci].students);
      (Ok, Probation(Selection(db.results, ids, level, session), level, score))
  }

  method ProbationList(db: Store, classId: nat, level: int, session: string, score: Course -> real)
    returns (outcome: Outcome, flagged: seq<SemesterResult>)
    ensures (outcome, flagged) == ProbationListSpec(db.Snapshot(), classId, level, session, score)
  {
    var ci := FindCohort(db.classes, classId);
    if ci.None? {
      return NotFound, [];
    }
    var ids := Present(db.students, db.classes[ci.value].students);
    var semesterResults := Selection(db.results, ids, level, session);
    flagged := FlagProbation(semesterResults, level, score);
    outcome := Ok;
  }

  /** The loop over the selected results, applying the rule for the level. */
  method FlagProbation(semesterResults: seq<SemesterResult>, level: int, score: Course -> real)
    returns (flagged: seq<SemesterResult>)
    ensures flagged == Probation(semesterResults, level, score)
  {
    flagged := [];
    for i := 0 to |semesterResults|
      invariant flagged == Probation(semesterResults[..i], level, score)
    {
      ProbationSnoc(semesterResults, i, level, score);
      var r := semesterResults[i];
      var hit: bool;
      if level == 100 {
        hit := AnyGroupBelow(r.courses, ProbationKey, score);
      } else {
        hit := GpaProbation(r);
      }
      if hit {
        flagged := flagged + [r];
      }
    }
    assert semesterResults[..|semesterResults|] == semesterResults;
  }

  /** The probation list of one more result. */
  lemma ProbationSnoc(rs: seq<SemesterResult>, i: nat, level: int, score: Course -> real)
    requires i < |rs|
    ensures Probation(rs[..i + 1], level, score)
            == Probation(rs[..i], level, score) + if OnProbation(rs[i], level, score) then [rs[i]] else []
  {
    assert rs[..i + 1][..i] == rs[..i];
  }

  /** The probation list holds exactly the second-semester results of the
      session at the level, of students on the class roster, that meet the
      rule for the level. */
  lemma ProbationListMembers(db: Db, classId: nat, level: int, session: string, score: Course -> real, r: SemesterResult)
    requires FindCohort(db.classes, classId).Some?
    ensures var roster := db.classes[FindCohort(db.classes, classId).value].students;
            r in ProbationListSpec(db, classId, level, session, score).1
            <==> && r in db.results && r.studentId in roster && IsStudentId(db.students, r.studentId)
                 && r.session == session && r.semester == 2 && r.level == level
                 && OnProbation(r, level, score)
  {
  }

  /** The level-100 rule, stated without division: some one of the five
      subjects has courses whose scores sum to less than 40 per course. */
  lemma Level100Rule(cs: seq<Course>, score: Course -> real)
    ensures SomeGroupBelow(cs, ProbationKey, score)
            <==> exists p :: p in SubjectPrefixes && |GroupScores(cs, ProbationKey, score, p)| > 0
                             && Sum(GroupScores(cs, ProbationKey, score, p)) < 40.0 * (|GroupScores(cs, ProbationKey, score, p)| as real)
  {
    if SomeGroupBelow(cs, ProbationKey, score) {
      var i :| 0 <= i < |cs| && ProbationKey(cs[i]).Some? && MeanBelow(GroupScores(cs, ProbationKey, score, ProbationKey(cs[i]).value));
      MeanBelowIsSumBelow(GroupScores(cs, ProbationKey, score, ProbationKey(cs[i]).value));
    }
    if exists p :: p in SubjectPrefixes && |GroupScores(cs, ProbationKey, score, p)| > 0
                   && Sum(GroupScores(cs, ProbationKey, score, p)) < 40.0 * (|GroupScores(cs, ProbationKey, score, p)| as real) {
      var p :| p in SubjectPrefixes && |GroupScores(cs, ProbationKey, score, p)| > 0
               && Sum(GroupScores(cs, ProbationKey, score, p)) < 40.0 * (|GroupScores(cs, ProbationKey, score, p)| as real);
      MeanBelowIsSumBelow(GroupScores(cs, ProbationKey, score, p));
      GroupWitness(cs, ProbationKey, score, p);
    }
  }

  /** A course without a grouping key changes no group. */
  lemma GroupScoresSkip(cs: seq<Course>, c: Course, key: Course -> Option<string>, score: Course -> real, p: string)
    requires key(c).None?
    ensures GroupScores(cs + [c], key, score, p) == GroupScores(cs, key, score, p)
  {
    assert (cs + [c])[..|cs + [c]| - 1] == cs;
  }

  /** Courses outside the five subjects do not affect the level-100 rule. */
  lemma OtherSubjectsIgnored(cs: seq<Course>, c: Course, score: Course -> real)
    requires ProbationKey(c).None?
    ensures SomeGroupBelow(cs + [c], ProbationKey, score) == SomeGroupBelow(cs, ProbationKey, score)
  {
    forall p {
      GroupScoresSkip(cs, c, ProbationKey, score, p);
    }
    if SomeGroupBelow(cs + [c], ProbationKey, score) {
      var i :| 0 <= i < |cs + [c]| && ProbationKey((cs + [c])[i]).Some?
               && MeanBelow(GroupScores(cs + [c], ProbationKey, score, ProbationKey((cs + [c])[i]).value));
      assert i < |cs| && (cs + [c])[i] == cs[i];
    }
    if SomeGroupBelow(cs, ProbationKey, score) {
      var i :| 0 <= i < |cs| && ProbationKey(cs[i]).Some? && MeanBelow(GroupScores(cs, ProbationKey, score, ProbationKey(cs[i]).value));
      assert (cs + [c])[i] == cs[i];
    }
  }

  /** The probation key is the lower-cased error key of a code of the form
      letters-then-digit: the two reports group the same courses, up to
      letter case and the subject restriction. */
  lemma ProbationKeyRefinesErrorKey(c: Course)
    requires ProbationKey(c).Some?
    ensures ErrorKey(c).Some? && ToLower(ErrorKey(c).value) == ProbationKey(c).value
  {
  }

  // ---------------------------------------------------------------------------
  // error_students
  // ---------------------------------------------------------------------------

  /** The student's second-semester results, all sessions, in store order. */
  function SemesterTwo(results: seq<SemesterResult>, sid: nat): seq<SemesterResult> {
    Filter(results, (r: SemesterResult) => r.studentId == sid && r.semester == 2)
  }

  /** The keys made of ASCII letters only that a plain object `{}` inherits
      from `Object.prototype`. */
  const InheritedKeys: set<string> :=
    {"constructor", "hasOwnProperty", "isPrototypeOf", "propertyIsEnumerable",
     "toLocaleString", "toString", "valueOf"}

  /** Grouping the course under its leading letters throws: the code has no
      match of `^[a-zA-Z]+` to take `[0]` of, or the letters name an
      inherited method, which is truthy, so no array is created and the
      method has no `push`. */
  predicate GroupingThrows(c: Course) {
    LeadingLetters(c.code).None? || LeadingLetters(c.code).value in InheritedKeys
  }

  /** A level-100 result with a course whose grouping throws. */
  predicate Unreadable(r: SemesterResult) {
    r.level == 100 && exists i :: 0 <= i < |r.courses| && GroupingThrows(r.courses[i])
  }

  /** Some result of the list is unreadable. */
  predicate HasUnreadable(rs: seq<SemesterResult>) {
    exists j :: 0 <= j < |rs| && Unreadable(rs[j])
  }

  /** The error report's rule: at level 100 (the result's own level) any
      leading-letter group with mean below 40, otherwise the GPA rule. */
  predicate ErrorHit(r: SemesterResult, score: Course -> real) {
    if r.level == 100 then SomeGroupBelow(r.courses, ErrorKey, score) else GpaProbation(r)
  }

  function Hits(rs: seq<SemesterResult>, score: Course -> real): seq<SemesterResult> {
    Filter(rs, (r: SemesterResult) => ErrorHit(r, score))
  }

  /** The scan over the students in roster order: the ids of those with more
      than one hit, or `None` once an unreadable result is met. */
  function ErrorScan(results: seq<SemesterResult>, ids: seq<nat>, score: Course -> real): Option<seq<nat>> {
    if ids == [] then Some([])
    else
      match ErrorScan(results, ids[..|ids| - 1], score)
      case None => None
      case Some(acc) =>
        var rs := SemesterTwo(results, ids[|ids| - 1]);
        if HasUnreadable(rs) then None
        else Some(if |Hits(rs, score)| > 1 then acc + [ids[|ids| - 1]] else acc)
  }

  /** `error_students` as a function of the store. */
  function ErrorStudentsSpec(db: Db, classId: nat, score: Course -> real): (Outcome, seq<nat>) {
    match FindCohort(db.classes, classId)
    case None => (NotFound, [])
    case Some(ci) =>
      match ErrorScan(db.results, Present(db.students, db.classes[ci].students), score)
      case None => (ServerError, [])
      case Some(es) => (Ok, es)
  }

  /** Once the scan has failed on a prefix of the roster it fails. */
  lemma {:induction false} ErrorScanFails(results: seq<SemesterResult>, ids: seq<nat>, k: nat, score: Course -> real)
    requires k <= |ids| && ErrorScan(results, ids[..k], score).None?
    ensures ErrorScan(results, ids, score).None?
  {
    if k < |ids| {
      assert ids[..|ids| - 1][..k] == ids[..k];
      ErrorScanFails(results, ids[..|ids| - 1], k, score);
    } else {
      assert ids[..k] == ids;
    }
  }

  /** The scan over one more student of the roster. */
  lemma ErrorScanStep(results: seq<SemesterResult>, ids: seq<nat>, s: nat, score: Course -> real, acc: seq<nat>)
    requires s < |ids| && ErrorScan(results, ids[..s], score) == Some(acc)
    ensures var rs := SemesterTwo(results, ids[s]);
            ErrorScan(results, ids[..s + 1], score)
            == if HasUnreadable(rs) then None
               else Some(if |Hits(rs, score)| > 1 then acc + [ids[s]] else acc)
  {
    assert ids[..s + 1][..s] == ids[..s];
  }

  /** The hits of one more result. */
  lemma HitsSnoc(rs: seq<SemesterResult>, j: nat, score: Course -> real)
    requires j < |rs|
    ensures |Hits(rs[..j + 1], score)| == |Hits(rs[..j], score)| + if ErrorHit(rs[j], score) then 1 else 0
  {
    assert rs[..j + 1][..j] == rs[..j];
  }

  /** One student's pass over their second-semester results: `false` on
      an unreadable result, otherwise the number of hits. */
  method CountHits(db: Store, sid: nat, score: Course -> real) returns (readable: bool, count: nat)
    ensures var rs := SemesterTwo(db.results, sid);
            readable <==> !HasUnreadable(rs)
    ensures readable ==> count == |Hits(SemesterTwo(db.results, sid), score)|
  {
    var studentResults := SemesterTwo(db.results, sid);
    readable, count := ScanResults(studentResults, score);
  }

  /** The loop over one student's results. */
  method ScanResults(studentResults: seq<SemesterResult>, score: Course -> real) returns (readable: bool, count: nat)
    ensures readable <==> !HasUnreadable(studentResults)
    ensures readable ==> count == |Hits(studentResults, score)|
  {
    count := 0;
    for j := 0 to |studentResults|
      invariant count == |Hits(studentResults[..j], score)|
      invariant forall m :: 0 <= m < j ==> !Unreadable(studentResults[m])
    {
      HitsSnoc(studentResults, j, score);
      var r := studentResults[j];
      var hit: bool;
      if r.level == 100 {
        if Unreadable(r) {
          return false, 0;
        }
        hit := AnyGroupBelow(r.courses, ErrorKey, score);
      } else {
        hit := GpaProbation(r);
      }
      assert hit == ErrorHit(r, score);
      if hit {
        count := count + 1;
      }
    }
    assert studentResults[..|studentResults|] == studentResults;
    readable := true;
  }

  method ErrorStudents(db: Store, classId: nat, score: Course -> real)
    returns (outcome: Outcome, errorStudents: seq<nat>)
    ensures (outcome, errorStudents) == ErrorStudentsSpec(db.Snapshot(), classId, score)
  {
    var ci := FindCohort(db.classes, classId);
    if ci.None? {
      return NotFound, [];
    }
    var ids := Present(db.students, db.classes[ci.value].students);
    errorStudents := [];
    for s := 0 to |ids|
      invariant ErrorScan(db.results, ids[..s], score) == Some(errorStudents)
    {
      ErrorScanStep(db.results, ids, s, score, errorStudents);
      var readable, count := CountHits(db, ids[s], score);
      if !readable {
        ErrorScanFails(db.results, ids, s + 1, score);
        return ServerError, [];
      }
      if count > 1 {
        errorStudents := errorStudents + [ids[s]];
      }
    }
    assert ids[..|ids|] == ids;
    outcome := Ok;
  }

  /** The scan fails exactly when some student has an unreadable
      second-semester result. */
  lemma {:induction false} ErrorScanNone(results: seq<SemesterResult>, ids: seq<nat>, score: Course -> real)
    ensures ErrorScan(results, ids, score).None?
            <==> exists k :: 0 <= k < |ids| && HasUnreadable(SemesterTwo(results, ids[k]))
  {
    if ids != [] {
      var ids', last := ids[..|ids| - 1], ids[|ids| - 1];
      ErrorScanNone(results, ids', score);
      UnreadableSnoc(results, ids);
    }
  }

  /** Some student of a longer roster has an unreadable result exactly when
      one of the shorter roster or the added student has. */
  lemma UnreadableSnoc(results: seq<SemesterResult>, ids: seq<nat>)
    requires ids != []
    ensures var ids', last := ids[..|ids| - 1], ids[|ids| - 1];
            (exists k :: 0 <= k < |ids| && HasUnreadable(SemesterTwo(results, ids[k])))
            <==> (exists k :: 0 <= k < |ids'| && HasUnreadable(SemesterTwo(results, ids'[k])))
                 || HasUnreadable(SemesterTwo(results, last))
  {
    var ids', last := ids[..|ids| - 1], ids[|ids| - 1];
    assert forall k :: 0 <= k < |ids'| ==> ids'[k] == ids[k];
  }

  /** A scan that does not fail lists exactly the students with more than
      one hit. */
  lemma {:induction false} ErrorScanMembers(results: seq<SemesterResult>, ids: seq<nat>, score: Course -> real)
    requires ErrorScan(results, ids, score).Some?
    ensures forall sid :: sid in ErrorScan(results, ids, score).value
                          <==> sid in ids && |Hits(SemesterTwo(results, sid), score)| > 1
  {
    if ids != [] {
      var ids', last := ids[..|ids| - 1], ids[|ids| - 1];
      ErrorScanMembers(results, ids', score);
      assert ids == ids' + [last];
    }
  }

  /** `error_students` answers not found for an unknown class, a server
      error when a roster student has an unreadable second-semester result,
      and otherwise exactly the roster students with more than one hit. */
  lemma ErrorStudentsRule(db: Db, classId: nat, score: Course -> real)
    ensures var (outcome, es) := ErrorStudentsSpec(db, classId, score);
            && (outcome == NotFound <==> FindCohort(db.classes, classId).None?)
            && (FindCohort(db.classes, classId).Some? ==>
                  var ids := Present(db.students, db.classes[FindCohort(db.classes, classId).value].students);
                  && ((outcome == ServerError)
                      <==> (exists k :: 0 <= k < |ids| && HasUnreadable(SemesterTwo(db.results, ids[k]))))
                  && (outcome == Ok ==>
                        forall sid :: sid in es <==> sid in ids && |Hits(SemesterTwo(db.results, sid), score)| > 1))
  {
    if FindCohort(db.classes, classId).Some? {
      var ids := Present(db.students, db.classes[FindCohort(db.classes, classId).value].students);
      ErrorScanNone(db.results, ids, score);
      if ErrorScan(db.results, ids, score).Some? {
        ErrorScanMembers(db.results, ids, score);
      }
    }
  }

  /** A code that begins with a run of letters followed by a non-letter has
      that run as its leading letters. */
  lemma {:induction false} LettersThenOther(k: string, rest: string)
    requires |k| > 0 && forall i :: 0 <= i < |k| ==> IsLetter(k[i])
    requires rest == [] || !IsLetter(rest[0])
    ensures LeadingLetters(k + rest) == Some(k)
  {
    LetterRunOf(k, rest);
    assert (k + rest)[..|k|] == k;
  }

  lemma {:induction false} LetterRunOf(k: string, rest: string)
    requires forall i :: 0 <= i < |k| ==> IsLetter(k[i])
    requires rest == [] || !IsLetter(rest[0])
    ensures LetterRun(k + rest) == |k|
  {
    if k != [] {
      assert (k + rest)[1..] == k[1..] + rest;
      LetterRunOf(k[1..], rest);
    } else {
      assert k + rest == rest;
    }
  }

  /** "constructor101" groups under "constructor", which a plain object
      already answers with its inherited constructor. */
  lemma ConstructorCodeThrows(c: Course)
    requires c.code == "constructor101"
    ensures LeadingLetters(c.code) == Some("constructor") && GroupingThrows(c)
  {
    assert "constructor101" == "constructor" + "101";
    LettersThenOther("constructor", "101");
  }

  /** A roster student with a level-100 second-semester result holding a
      course whose leading letters are an inherited key makes the report
      answer a server error. */
  lemma InheritedKeyIsServerError(db: Db, classId: nat, score: Course -> real, sid: nat, j: nat, c: Course)
    requires FindCohort(db.classes, classId).Some?
    requires sid in Present(db.students, db.classes[FindCohort(db.classes, classId).value].students)
    requires j < |db.results| && db.results[j].studentId == sid
    requires db.results[j].semester == 2 && db.results[j].level == 100
    requires c in db.results[j].courses
    requires LeadingLetters(c.code).Some? && LeadingLetters(c.code).value in InheritedKeys
    ensures ErrorStudentsSpec(db, classId, score).0 == ServerError
  {
    var ids := Present(db.students, db.classes[FindCohort(db.classes, classId).value].students);
    var k :| 0 <= k < |ids| && ids[k] == sid;
    var rs := SemesterTwo(db.results, sid);
    assert db.results[j] in rs;
    var m :| 0 <= m < |rs| && rs[m] == db.results[j];
    var i :| 0 <= i < |rs[m].courses| && rs[m].courses[i] == c;
    assert Unreadable(rs[m]);
    ErrorStudentsRule(db, classId, score);
  }
}
