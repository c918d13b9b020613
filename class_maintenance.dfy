/** The two reconciliation passes over the whole store: `cleanStudentNames`
    tidies every student's full name, `updateSemesterLevels` re-derives each
    semester result's level from its course codes. Each queues its updates
    and writes them together, then reports how many records it saw and how
    many it changed. */
module ClassMaintenance {
  import opened Common
  import opened Records
  import opened Database

  // ---------------------------------------------------------------------------
  // cleanStudentNames
  // ---------------------------------------------------------------------------

  /** The characters `String.prototype.trim` removes: the ECMAScript white
      space and line terminator code points. */
  predicate IsTrimmed(c: char) {
    || ('\U{0009}' <= c <= '\U{000D}') || c == ' ' || c == '\U{00A0}' || c == '\U{1680}'
    || ('\U{2000}' <= c <= '\U{200A}') || c == '\U{2028}' || c == '\U{2029}' || c == '\U{202F}'
    || c == '\U{205F}' || c == '\U{3000}' || c == '\U{FEFF}'
  }

  /** `replace(/^[^A-Za-z]+/, "")`: drop everything before the first letter. */
  function StripToLetter(s: string): (r: string)
    ensures r == [] || IsLetter(r[0])
  {
    if s == [] || IsLetter(s[0]) then s else StripToLetter(s[1..])
  }

  function TrimStart(s: string): (r: string)
    ensures r == [] || !IsTrimmed(r[0])
  {
    if s == [] || !IsTrimmed(s[0]) then s else TrimStart(s[1..])
  }

  function TrimEnd(s: string): (r: string)
    ensures r == [] || !IsTrimmed(r[|r| - 1])
    ensures r == [] || (|s| > 0 && r[0] == s[0])
  {
    if s == [] || !IsTrimmed(s[|s| - 1]) then s else TrimEnd(s[..|s| - 1])
  }

  function Trim(s: string): string {
    TrimEnd(TrimStart(s))
  }

  /** The cleaned form of a full name. */
  function CleanName(s: string): string {
    Trim(StripToLetter(s))
  }

  /** A cleaned name is empty or starts with an ASCII letter, and has no
      white space at either end. */
  lemma CleanNameShape(s: string)
    ensures var r := CleanName(s);
            && (r == [] || IsLetter(r[0]))
            && (r == [] || (!IsTrimmed(r[0]) && !IsTrimmed(r[|r| - 1])))
  {
    var t := StripToLetter(s);
    if t != [] {
      assert !IsTrimmed(t[0]);
      assert TrimStart(t) == t;
      var r := TrimEnd(t);
      if r != [] {
        assert r[0] == t[0];
      }
    }
  }

  /** A string that starts with a letter and ends with a non-space is its
      own cleaned form. */
  lemma CleanNameFixes(s: string)
    requires s == [] || (IsLetter(s[0]) && !IsTrimmed(s[|s| - 1]))
    ensures CleanName(s) == s
  {
    if s != [] {
      assert StripToLetter(s) == s;
      assert !IsTrimmed(s[0]);
      assert TrimStart(s) == s;
    }
  }

  /** Cleaning a cleaned name changes nothing. */
  lemma CleanNameIdempotent(s: string)
    ensures CleanName(CleanName(s)) == CleanName(s)
  {
    CleanNameShape(s);
    CleanNameFixes(CleanName(s));
  }

  function CleanStudent(st: Student): Student {
    st.(fullname := CleanName(st.fullname))
  }

  /** The store's students after the pass: every name cleaned. */
  function CleanAll(students: seq<Student>): (r: seq<Student>)
    ensures |r| == |students| && forall k :: 0 <= k < |r| ==> r[k] == CleanStudent(students[k])
  {
    seq(|students|, k requires 0 <= k < |students| => CleanStudent(students[k]))
  }

  /** The number of names the pass rewrites: those whose cleaned form
      differs. */
  function ChangedNames(students: seq<Student>): (n: nat)
    ensures n <= |students|
  {
    |Pending(students, CleanStudent)|
  }

  /** The renames queued are those of exactly the students whose cleaned
      name differs, each once and in roster order, so `namesUpdated` counts
      the names that change. */
  lemma NamesQueuedExactly(students: seq<Student>)
    ensures var ups := Pending(students, CleanStudent);
            Increasing(ups) && OnlyChanged(students, CleanStudent, ups) && Queued(students, CleanStudent, ups)
  {
    PendingMembers(students, CleanStudent);
  }

  /** The first loop: the renames the pass queues, and their number. */
  method QueueCleanNames(students: seq<Student>) returns (updates: seq<(nat, Student)>, namesUpdated: nat)
    ensures updates == Pending(students, CleanStudent) && namesUpdated == |updates|
  {
    updates := [];
    namesUpdated := 0;
    for k := 0 to |students|
      invariant updates == Pending(students[..k], CleanStudent) && namesUpdated == |updates|
    {
      PendingSnoc(students, CleanStudent, k);
      var cleaned := CleanName(students[k].fullname);
      assert students[k].(fullname := cleaned) == CleanStudent(students[k]);
      assert (cleaned != students[k].fullname) == (CleanStudent(students[k]) != students[k]);
      if cleaned != students[k].fullname {
        updates := updates + [(k, students[k].(fullname := cleaned))];
        namesUpdated := namesUpdated + 1;
      }
    }
    assert students[..|students|] == students;
  }

  /** `Promise.all(updates)`: the queued renames, written in order. */
  method WriteStudents(db: Store, updates: seq<(nat, Student)>)
    modifies db
    ensures db.Snapshot() == old(db.Snapshot()).(students := Overwrite(old(db.students), updates))
  {
    ghost var s1 := db.Snapshot();
    for n := 0 to |updates|
      invariant db.Snapshot() == s1.(students := Overwrite(s1.students, updates[..n]))
    {
      OverwriteSnoc(s1.students, updates, n);
      var (m, st) := updates[n];
      if m < |db.students| {
        db.students := db.students[m := st];
      }
    }
    assert updates[..|updates|] == updates;
  }

  method CleanStudentNames(db: Store) returns (totalProcessed: nat, namesUpdated: nat)
    requires db.Valid()
    modifies db
    ensures db.Valid()
    ensures db.Snapshot() == old(db.Snapshot()).(students := CleanAll(old(db.students)))
    ensures totalProcessed == |old(db.students)| && namesUpdated == ChangedNames(old(db.students))
  {
    var students := db.students;
    var updates;
    updates, namesUpdated := QueueCleanNames(students);
    WriteStudents(db, updates);
    OverwritePending(students, CleanStudent, |students|);
    assert students[..|students|] == students;
    assert db.students == CleanAll(students);
    totalProcessed := |students|;
    CleanAllPreservesValid(old(db.Snapshot()));
  }

  /** Renaming keeps ids and registration numbers, so the store stays valid. */
  lemma CleanAllPreservesValid(db: Db)
    requires db.Valid()
    ensures db.(students := CleanAll(db.students)).Valid()
  {
  }

  /** A second pass rewrites no name and leaves the students as they are. */
  lemma CleanTwiceChangesNothing(students: seq<Student>)
    ensures ChangedNames(CleanAll(students)) == 0
    ensures CleanAll(CleanAll(students)) == CleanAll(students)
  {
    forall k | 0 <= k < |students| {
      CleanNameIdempotent(students[k].fullname);
    }
    NothingPending(CleanAll(students), CleanStudent);
  }

  // ---------------------------------------------------------------------------
  // updateSemesterLevels
  // ---------------------------------------------------------------------------

  /** The first capture of `/\D(\d)/` as a level: 100 times the first digit
      that follows a non-digit, or no match. */
  function CodeLevel(code: string): (r: Option<nat>)
    ensures r.Some? ==> r.value % 100 == 0 && r.value <= 900
    decreases |code|
  {
    if |code| < 2 then None
    else if !IsDigit(code[0]) && IsDigit(code[1]) then Some(100 * (code[1] as int - '0' as int))
    else CodeLevel(code[1..])
  }

  /** `Math.max` over the levels of the course codes that match, or none when
      no code matches. */
  function InferredLevel(cs: seq<Course>): (r: Option<nat>)
    ensures r.None? <==> forall i :: 0 <= i < |cs| ==> CodeLevel(cs[i].code).None?
    ensures r.Some? ==> exists i :: 0 <= i < |cs| && CodeLevel(cs[i].code) == r
    ensures r.Some? ==> forall i :: 0 <= i < |cs| && CodeLevel(cs[i].code).Some? ==> CodeLevel(cs[i].code).value <= r.value
  {
    if cs == [] then None
    else
      var prev := InferredLevel(cs[..|cs| - 1]);
      var here := CodeLevel(cs[|cs| - 1].code);
      assert forall i :: 0 <= i < |cs| - 1 ==> cs[..|cs| - 1][i] == cs[i];
      match here
      case None => prev
      case Some(l) =>
        match prev
        case None => here
        case Some(p) => if l > p then here else prev
  }

  /** A result whose codes show a level different from the stored one. */
  predicate NeedsRelevel(r: SemesterResult) {
    InferredLevel(r.courses).Some? && InferredLevel(r.courses).value != r.level
  }

  function Relevel(r: SemesterResult): (r': SemesterResult)
    ensures r' != r <==> NeedsRelevel(r)
  {
    if NeedsRelevel(r) then r.(level := InferredLevel(r.courses).value) else r
  }

  function RelevelAll(results: seq<SemesterResult>): (r: seq<SemesterResult>)
    ensures |r| == |results| && forall k :: 0 <= k < |r| ==> r[k] == Relevel(results[k])
  {
    seq(|results|, k requires 0 <= k < |results| => Relevel(results[k]))
  }

  /** The relevels queued are those of exactly the results whose inferred
      level differs, each once and in store order, so `levelsUpdated` counts
      the levels that change. */
  lemma LevelsQueuedExactly(results: seq<SemesterResult>)
    ensures var ups := Pending(results, Relevel);
            Increasing(ups) && OnlyChanged(results, Relevel, ups) && Queued(results, Relevel, ups)
  {
    PendingMembers(results, Relevel);
  }

  /** The number of results the pass rewrites. */
  function ChangedLevels(results: seq<SemesterResult>): (n: nat)
    ensures n <= |results|
  {
    |Pending(results, Relevel)|
  }

  /** The maximum taken over one more course. */
  lemma InferredLevelSnoc(cs: seq<Course>, i: nat)
    requires i < |cs|
    ensures var prev := InferredLevel(cs[..i]);
            var l := CodeLevel(cs[i].code);
            InferredLevel(cs[..i + 1])
            == if l.Some? && (prev.None? || l.value > prev.value) then l else prev
  {
    assert cs[..i + 1][..i] == cs[..i];
  }

  /** `Math.max(...levels)` over one result's course codes. */
  method HighestLevel(cs: seq<Course>) returns (level: Option<nat>)
    ensures level == InferredLevel(cs)
  {
    level := None;
    for i := 0 to |cs|
      invariant level == InferredLevel(cs[..i])
    {
      InferredLevelSnoc(cs, i);
      var l := CodeLevel(cs[i].code);
      if l.Some? && (level.None? || l.value > level.value) {
        level := l;
      }
    }
    assert cs[..|cs|] == cs;
  }

  /** The first loop: the level corrections the pass queues, and their
      number; results without courses or without a matching code are
      passed over. */
  method QueueRelevels(results: seq<SemesterResult>) returns (updates: seq<(nat, SemesterResult)>, levelsUpdated: nat)
    ensures updates == Pending(results, Relevel) && levelsUpdated == |updates|
  {
    updates := [];
    levelsUpdated := 0;
    for k := 0 to |results|
      invariant updates == Pending(results[..k], Relevel) && levelsUpdated == |updates|
    {
      PendingSnoc(results, Relevel, k);
      var r := results[k];
      if |r.courses| == 0 {
        continue;
      }
      var correctLevel := HighestLevel(r.courses);
      if correctLevel.None? {
        continue;
      }
      if correctLevel.value != r.level {
        updates := updates + [(k, r.(level := correctLevel.value))];
        levelsUpdated := levelsUpdated + 1;
      }
    }
    assert results[..|results|] == results;
  }

  /** `Promise.all(updates)`: the queued corrections, written in order. */
  method WriteResults(db: Store, updates: seq<(nat, SemesterResult)>)
    modifies db
    ensures db.Snapshot() == old(db.Snapshot()).(results := Overwrite(old(db.results), updates))
  {
    ghost var s1 := db.Snapshot();
    for n := 0 to |updates|
      invariant db.Snapshot() == s1.(results := Overwrite(s1.results, updates[..n]))
    {
      OverwriteSnoc(s1.results, updates, n);
      var (m, r) := updates[n];
      if m < |db.results| {
        db.results := db.results[m := r];
      }
    }
    assert updates[..|updates|] == updates;
  }

  method UpdateSemesterLevels(db: Store) returns (totalProcessed: nat, levelsUpdated: nat)
    requires db.Valid()
    modifies db
    ensures db.Valid()
    ensures db.Snapshot() == old(db.Snapshot()).(results := RelevelAll(old(db.results)))
    ensures totalProcessed == |old(db.results)| && levelsUpdated == ChangedLevels(old(db.results))
  {
    var results := db.results;
    var updates;
    updates, levelsUpdated := QueueRelevels(results);
    WriteResults(db, updates);
    OverwritePending(results, Relevel, |results|);
    assert results[..|results|] == results;
    assert db.results == RelevelAll(results);
    totalProcessed := |results|;
  }

  /** After the pass every result that has a matching code sits at the
      highest level its codes show; the others keep their level. */
  lemma RelevelSetsHighest(r: SemesterResult)
    ensures InferredLevel(r.courses).None? ==> Relevel(r) == r
    ensures InferredLevel(r.courses).Some? ==>
              && Relevel(r) == r.(level := InferredLevel(r.courses).value)
              && (forall i :: 0 <= i < |r.courses| && CodeLevel(r.courses[i].code).Some?
                              ==> CodeLevel(r.courses[i].code).value <= Relevel(r).level)
              && (exists i :: 0 <= i < |r.courses| && CodeLevel(r.courses[i].code) == Some(Relevel(r).level))
  {
  }

  /** A second pass updates nothing and leaves the results as they are. */
  lemma RelevelTwiceChangesNothing(results: seq<SemesterResult>)
    ensures ChangedLevels(RelevelAll(results)) == 0
    ensures RelevelAll(RelevelAll(results)) == RelevelAll(results)
  {
    NothingPending(RelevelAll(results), Relevel);
  }
}
