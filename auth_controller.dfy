/** Session registration (`register_session`): a new academic session with
    one fresh class per level 100 to 600; registering it as current first
    clears the current flag of every other session. */
module AuthController {
  import opened Common
  import opened Records
  import opened Database

  /** The number of levels a session gets a class for. */
  const LevelCount: nat := 6

  /** The classes created for a new session, ids from `start` on: levels
      100 to 600, empty rosters. */
  function LevelCohorts(start: nat): (cs: seq<Cohort>)
    ensures |cs| == LevelCount
  {
    seq(LevelCount, i requires 0 <= i < LevelCount => Cohort(start + i, 100 * (i + 1), []))
  }

  function CohortIds(cs: seq<Cohort>): (ids: seq<nat>)
    ensures |ids| == |cs| && forall i :: 0 <= i < |cs| ==> ids[i] == cs[i].id
  {
    seq(|cs|, i requires 0 <= i < |cs| => cs[i].id)
  }

  /** `updateMany({}, { current: false })`. */
  function ClearCurrent(sessions: seq<Session>): (r: seq<Session>)
    ensures |r| == |sessions| && forall i :: 0 <= i < |r| ==> r[i] == sessions[i].(current := false)
  {
    seq(|sessions|, i requires 0 <= i < |sessions| => sessions[i].(current := false))
  }

  /** `register_session` as a function of the store. */
  function RegisterSessionSpec(db: Db, name: string, current: bool): (Db, Outcome) {
    if FindSession(db.sessions, name).Some? then (db, Duplicate)
    else
      var sessions := if current then ClearCurrent(db.sessions) else db.sessions;
      var created := LevelCohorts(db.nextId);
      (db.(classes := db.classes + created,
           sessions := sessions + [Session(name, current, CohortIds(created), [])],
           nextId := db.nextId + LevelCount),
       Ok)
  }

  method RegisterSession(db: Store, name: string, current: bool) returns (outcome: Outcome)
    requires db.Valid()
    modifies db
    ensures db.Valid()
    ensures (db.Snapshot(), outcome) == RegisterSessionSpec(old(db.Snapshot()), name, current)
  {
    ghost var s0 := db.Snapshot();
    RegisterSessionPreservesValid(s0, name, current);
    var existing := FindSession(db.sessions, name);
    if existing.Some? {
      return Duplicate;
    }
    if current {
      ResetCurrent(db);
    }
    var classes := CreateLevelCohorts(db);
    db.sessions := db.sessions + [Session(name, current, classes, [])];
    outcome := Ok;
  }

  /** The `updateMany` that clears every session's current flag. */
  method ResetCurrent(db: Store)
    modifies db
    ensures db.Snapshot() == old(db.Snapshot()).(sessions := ClearCurrent(old(db.sessions)))
  {
    ghost var s0 := db.Snapshot();
    for i := 0 to |db.sessions|
      invariant |db.sessions| == |s0.sessions|
      invariant forall j :: 0 <= j < |s0.sessions| ==>
                  db.sessions[j] == if j < i then s0.sessions[j].(current := false) else s0.sessions[j]
      invariant db.Snapshot() == s0.(sessions := db.sessions)
    {
      db.sessions := db.sessions[i := db.sessions[i].(current := false)];
    }
  }

  /** The loop creating one class per level; returns the new classes' ids. */
  method CreateLevelCohorts(db: Store) returns (classes: seq<nat>)
    modifies db
    ensures db.Snapshot() == old(db.Snapshot()).(classes := old(db.classes) + LevelCohorts(old(db.nextId)),
                                                 nextId := old(db.nextId) + LevelCount)
    ensures classes == CohortIds(LevelCohorts(old(db.nextId)))
  {
    ghost var s1 := db.Snapshot();
    classes := [];
    for i := 0 to LevelCount
      invariant db.nextId == s1.nextId + i
      invariant db.classes == s1.classes + LevelCohorts(s1.nextId)[..i]
      invariant classes == CohortIds(LevelCohorts(s1.nextId)[..i])
      invariant db.Snapshot() == s1.(classes := db.classes, nextId := db.nextId)
    {
      var newClass := Cohort(db.nextId, 100 * (i + 1), []);
      assert LevelCohorts(s1.nextId)[..i + 1] == LevelCohorts(s1.nextId)[..i] + [newClass];
      db.classes := db.classes + [newClass];
      classes := classes + [newClass.id];
      db.nextId := db.nextId + 1;
    }
    assert LevelCohorts(s1.nextId)[..LevelCount] == LevelCohorts(s1.nextId);
  }

  /** A registration keeps the store valid; in particular at most one
      session stays current, and a new current session is the only one. */
  lemma RegisterSessionPreservesValid(db: Db, name: string, current: bool)
    requires db.Valid()
    ensures RegisterSessionSpec(db, name, current).0.Valid()
    ensures var (db', outcome) := RegisterSessionSpec(db, name, current);
            outcome == Ok && current ==> forall i :: 0 <= i < |db'.sessions| - 1 ==> !db'.sessions[i].current
  {
    var (db', outcome) := RegisterSessionSpec(db, name, current);
    if outcome == Ok {
      var created := LevelCohorts(db.nextId);
      assert forall i :: 0 <= i < |created| ==> created[i].id == db.nextId + i && created[i].students == [];
      forall i, j | 0 <= i < j < |db'.classes|
        ensures db'.classes[i].id != db'.classes[j].id
      {
        if j >= |db.classes| && i < |db.classes| {
          assert db'.classes[i].id < db.nextId <= db'.classes[j].id;
        }
      }
      assert forall i :: 0 <= i < |db'.classes| ==> NoDuplicates(db'.classes[i].students);
      var s := db'.sessions;
      forall i, j | 0 <= i < j < |s|
        ensures s[i].name != s[j].name
      {
        if j == |s| - 1 {
          assert s[i].name == db.sessions[i].name;
        }
      }
    }
  }

  /** A name already registered is refused and nothing changes; otherwise
      six classes for levels 100 to 600 are created with empty rosters and
      ids no class had, and the new session holds the name, the flag and
      exactly those classes. */
  lemma RegisterSessionEffect(db: Db, name: string, current: bool)
    requires db.Valid()
    ensures var (db', outcome) := RegisterSessionSpec(db, name, current);
            && (outcome == Duplicate <==> exists i :: 0 <= i < |db.sessions| && db.sessions[i].name == name)
            && (outcome == Duplicate ==> db' == db)
            && (outcome == Ok ==>
                  && db'.students == db.students && db'.results == db.results && db'.catalog == db.catalog
                  && |db'.classes| == |db.classes| + 6 && db'.classes[..|db.classes|] == db.classes
                  && (forall j :: |db.classes| <= j < |db'.classes| ==>
                        var c := db'.classes[j];
                        && c.level == 100 * (j - |db.classes| + 1) && c.students == []
                        && forall k :: 0 <= k < |db.classes| ==> db.classes[k].id != c.id)
                  && |db'.sessions| == |db.sessions| + 1
                  && db'.sessions[|db.sessions|]
                     == Session(name, current, CohortIds(db'.classes[|db.classes|..]), [])
                  && (forall i :: 0 <= i < |db.sessions| ==>
                        db'.sessions[i] == (if current then db.sessions[i].(current := false) else db.sessions[i])))
  {
    var (db', outcome) := RegisterSessionSpec(db, name, current);
    if outcome == Ok {
      assert db'.classes[|db.classes|..] == LevelCohorts(db.nextId);
      assert db'.classes[..|db.classes|] == db.classes;
    }
  }
}
