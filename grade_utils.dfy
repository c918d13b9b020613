/** Grade policy and GPA aggregation: `calculateGrade`, `get_gpa`,
    `get_session_gpa` and `get_cgpa`.

    GPA values are integer hundredths: the source divides total points by
    total units and keeps two decimals (`toFixed(2)`); here that is the
    round-half-up of 100 * points / units on the exact rational. */
module GradeUtils {
  import opened Common
  import opened Records

  // ---------------------------------------------------------------------------
  // Grade policy
  // ---------------------------------------------------------------------------

  /** The grade point of a total score under one of the three grade types;
      `None` is the thrown "Invalid grade type provided". */
  function CalculateGrade(score: real, gradeType: string): (r: Option<nat>)
    ensures r.Some? <==> gradeType == "regular" || gradeType == "external" || gradeType == "ceutics"
    ensures r.Some? ==> r.value <= 5
  {
    if gradeType == "regular" then
      if score >= 70.0 then Some(5)
      else if score >= 60.0 then Some(4)
      else if score >= 50.0 then Some(3)
      else Some(0)
    else if gradeType == "external" then
      if score >= 70.0 then Some(5)
      else if score >= 60.0 then Some(4)
      else if score >= 50.0 then Some(3)
      else if score >= 45.0 then Some(2)
      else if score >= 40.0 then Some(1)
      else Some(0)
    else if gradeType == "ceutics" then
      if score >= 70.0 then Some(5)
      else if score >= 60.0 then Some(4)
      else Some(0)
    else None
  }

  predicate IsGradeType(t: string) {
    t == "regular" || t == "external" || t == "ceutics"
  }

  /** Within each grade type, a higher score never earns a lower grade point. */
  lemma GradeMonotone(s1: real, s2: real, t: string)
    requires IsGradeType(t) && s1 <= s2
    ensures CalculateGrade(s1, t).value <= CalculateGrade(s2, t).value
  {
  }

  /** Pointwise, "ceutics" is the strictest band and "external" the most lenient. */
  lemma BandOrder(s: real)
    ensures CalculateGrade(s, "ceutics").value <= CalculateGrade(s, "regular").value
    ensures CalculateGrade(s, "regular").value <= CalculateGrade(s, "external").value
  {
  }

  /** "regular" agrees with "external" from 50 up and gives no partial credit
      below; "ceutics" agrees with it from 60 up and gives none below. */
  lemma BandsAsCutOffsOfExternal(s: real)
    ensures CalculateGrade(s, "regular").value == if s < 50.0 then 0 else CalculateGrade(s, "external").value
    ensures CalculateGrade(s, "ceutics").value == if s < 60.0 then 0 else CalculateGrade(s, "external").value
  {
  }

  /** The cut-offs of the "external" band, lowest first. */
  const ExternalCutOffs: seq<real> := [40.0, 45.0, 50.0, 60.0, 70.0]

  /** Reference definition: the "external" grade point is the number of
      cut-offs the score reaches. */
  lemma {:induction false} ExternalCountsCutOffs(s: real)
    ensures CalculateGrade(s, "external").value == |Filter(ExternalCutOffs, (c: real) => s >= c)|
  {
    var p := (c: real) => s >= c;
    var cs := ExternalCutOffs;
    assert cs[..4] == [40.0, 45.0, 50.0, 60.0];
    assert cs[..4][..3] == [40.0, 45.0, 50.0];
    assert cs[..4][..3][..2] == [40.0, 45.0];
    assert cs[..4][..3][..2][..1] == [40.0];
    assert cs[..4][..3][..2][..1][..0] == [];
    assert |Filter([40.0], p)| == if s >= 40.0 then 1 else 0;
    assert |Filter([40.0, 45.0], p)| == |Filter([40.0], p)| + if s >= 45.0 then 1 else 0;
    assert |Filter([40.0, 45.0, 50.0], p)| == |Filter([40.0, 45.0], p)| + if s >= 50.0 then 1 else 0;
    assert |Filter([40.0, 45.0, 50.0, 60.0], p)| == |Filter([40.0, 45.0, 50.0], p)| + if s >= 60.0 then 1 else 0;
    assert |Filter(cs, p)| == |Filter([40.0, 45.0, 50.0, 60.0], p)| + if s >= 70.0 then 1 else 0;
  }

  // ---------------------------------------------------------------------------
  // Two-decimal weighted means
  // ---------------------------------------------------------------------------

  /** 100 * points / units rounded half up to a whole number of hundredths. */
  function Hundredths(points: nat, units: nat): (h: nat)
    requires units > 0
    ensures h * (2 * units) <= 200 * points + units < (h + 1) * (2 * units)
  {
    (200 * points + units) / (2 * units)
  }

  /** The rounded mean stays within the range of the grade points averaged:
      at most 5.00 when every point is at most 5, at least 1.00 when the
      points are at least the units. */
  lemma HundredthsBounds(points: nat, units: nat)
    requires units > 0
    ensures points <= 5 * units ==> Hundredths(points, units) <= 500
    ensures units <= points ==> 100 <= Hundredths(points, units)
  {
    var h, d := Hundredths(points, units), 2 * units;
    if points <= 5 * units {
      assert h * d < 501 * d;
      LessByFactor(d, h, 501);
    }
    if units <= points {
      assert 100 * d < (h + 1) * d;
      LessByFactor(d, 100, h + 1);
    }
  }

  /** Scaling points and units by the same factor leaves the mean unchanged. */
  lemma HundredthsScale(k: nat, points: nat, units: nat)
    requires k > 0 && units > 0
    ensures Hundredths(k * points, k * units) == Hundredths(points, units)
  {
    var n, d := 200 * points + units, 2 * units;
    assert 200 * (k * points) + k * units == k * n;
    assert 2 * (k * units) == k * d;
    DivScale(k, n, d);
  }

  lemma LessByFactor(k: nat, a: int, b: int)
    requires k > 0 && a * k < b * k
    ensures a < b
  {
    if a >= b {
      MulMono(b, a, k);
    }
  }

  lemma MulMono(a: int, b: int, k: nat)
    requires a <= b
    ensures a * k <= b * k
  {
    assert b * k - a * k == (b - a) * k;
  }

  /** Euclidean division is determined by quotient and remainder. */
  lemma DivUnique(n: nat, d: nat, q: nat, r: nat)
    requires d > 0 && r < d && n == q * d + r
    ensures n / d == q
  {
    var q' := n / d;
    var r' := n % d;
    assert n == q' * d + r';
    if q' > q {
      MulMono(q + 1, q', d);
    } else if q' < q {
      MulMono(q' + 1, q, d);
    }
  }

  lemma DivScale(k: nat, n: nat, d: nat)
    requires k > 0 && d > 0
    ensures (k * n) / (k * d) == n / d
  {
    var q, r := n / d, n % d;
    assert n == q * d + r;
    assert k * n == q * (k * d) + k * r;
    MulMono(r, d - 1, k);
    assert k * r < k * d;
    DivUnique(k * n, k * d, q, k * r);
  }

  /** Total grade points (sum of grade * unit load), accumulated front to back. */
  function Points(cs: seq<Course>): nat {
    if cs == [] then 0 else Points(cs[..|cs| - 1]) + cs[|cs| - 1].grade * cs[|cs| - 1].unitLoad
  }

  /** Total unit load. */
  function Units(cs: seq<Course>): nat {
    if cs == [] then 0 else Units(cs[..|cs| - 1]) + cs[|cs| - 1].unitLoad
  }

  /** The unit-weighted mean grade point of a list of courses, 0 when the
      courses carry no units: the value of `get_gpa`. */
  function GpaOf(cs: seq<Course>): nat {
    if Units(cs) > 0 then Hundredths(Points(cs), Units(cs)) else 0
  }

  lemma {:induction false} SumsAppend(a: seq<Course>, b: seq<Course>)
    ensures Points(a + b) == Points(a) + Points(b)
    ensures Units(a + b) == Units(a) + Units(b)
  {
    if b == [] {
      assert a + b == a;
    } else {
      var b' := b[..|b| - 1];
      assert (a + b)[..|a + b| - 1] == a + b';
      SumsAppend(a, b');
    }
  }

  lemma {:induction false} PointsAtMostFiveUnits(cs: seq<Course>)
    requires forall i :: 0 <= i < |cs| ==> cs[i].grade <= 5
    ensures Points(cs) <= 5 * Units(cs)
  {
    if cs != [] {
      PointsAtMostFiveUnits(cs[..|cs| - 1]);
    }
  }

  /** A GPA over grade points in 0..5 lies in 0.00..5.00. */
  lemma GpaRange(cs: seq<Course>)
    requires forall i :: 0 <= i < |cs| ==> cs[i].grade <= 5
    ensures GpaOf(cs) <= 500
  {
    PointsAtMostFiveUnits(cs);
    if Units(cs) > 0 {
      HundredthsBounds(Points(cs), Units(cs));
    }
  }

  /** Sum of grade points, unweighted. */
  function SumGrades(cs: seq<Course>): nat {
    if cs == [] then 0 else SumGrades(cs[..|cs| - 1]) + cs[|cs| - 1].grade
  }

  lemma {:induction false} EqualUnitSums(cs: seq<Course>, u: nat)
    requires forall i :: 0 <= i < |cs| ==> cs[i].unitLoad == u
    ensures Points(cs) == u * SumGrades(cs) && Units(cs) == u * |cs|
  {
    if cs != [] {
      EqualUnitSums(cs[..|cs| - 1], u);
    }
  }

  /** Weighted-mean law: when every course carries the same unit load the
      GPA is the plain mean of the grade points. */
  lemma EqualUnitsMean(cs: seq<Course>, u: nat)
    requires u > 0 && cs != []
    requires forall i :: 0 <= i < |cs| ==> cs[i].unitLoad == u
    ensures GpaOf(cs) == Hundredths(SumGrades(cs), |cs|)
  {
    EqualUnitSums(cs, u);
    HundredthsScale(u, SumGrades(cs), |cs|);
  }

  lemma {:induction false} NoUnitsNoPoints(cs: seq<Course>)
    requires Units(cs) == 0
    ensures Points(cs) == 0
  {
    if cs != [] {
      NoUnitsNoPoints(cs[..|cs| - 1]);
    }
  }

  // ---------------------------------------------------------------------------
  // get_gpa
  // ---------------------------------------------------------------------------

  /** `get_gpa`: accumulates points and units over the record's courses. */
  method GetGpa(r: SemesterResult) returns (gpa: nat)
    ensures gpa == GpaOf(r.courses)
    ensures Units(r.courses) == 0 ==> gpa == 0
    ensures (forall i :: 0 <= i < |r.courses| ==> r.courses[i].grade <= 5) ==> gpa <= 500
  {
    var totalPoints, totalUnits := 0, 0;
    var i := 0;
    while i < |r.courses|
      invariant 0 <= i <= |r.courses|
      invariant totalPoints == Points(r.courses[..i]) && totalUnits == Units(r.courses[..i])
    {
      var course := r.courses[i];
      assert r.courses[..i + 1][..i] == r.courses[..i];
      totalPoints := totalPoints + course.grade * course.unitLoad;
      totalUnits := totalUnits + course.unitLoad;
      i := i + 1;
    }
    assert r.courses[..i] == r.courses;
    gpa := if totalUnits > 0 then Hundredths(totalPoints, totalUnits) else 0;
    if forall i :: 0 <= i < |r.courses| ==> r.courses[i].grade <= 5 {
      GpaRange(r.courses);
    }
  }

  // ---------------------------------------------------------------------------
  // get_session_gpa
  // ---------------------------------------------------------------------------

  /** The courses of every present record of a session, in order; absent
      (null) records contribute nothing. */
  function SessionCourses(session: seq<Option<SemesterResult>>): seq<Course> {
    if session == [] then []
    else SessionCourses(session[..|session| - 1]) + CoursesOf(session[|session| - 1])
  }

  function CoursesOf(r: Option<SemesterResult>): seq<Course> {
    match r
    case None => []
    case Some(x) => x.courses
  }

  /** The session GPA weighs both semesters' courses together: it is the GPA
      of the concatenated course lists. */
  lemma SessionOfTwoSemesters(first: SemesterResult, second: SemesterResult)
    ensures SessionCourses([Some(first), Some(second)]) == first.courses + second.courses
    ensures SessionCourses([Some(first)]) == first.courses
  {
    assert [Some(first), Some(second)][..1] == [Some(first)];
    assert [Some(first)][..0] == [];
    assert SessionCourses([Some(first)]) == SessionCourses([]) + first.courses;
    assert SessionCourses([Some(first), Some(second)]) == SessionCourses([Some(first)]) + second.courses;
  }

  /** A semester that carries no units leaves the session GPA at the other
      semester's GPA. */
  lemma UnitlessSemesterIsNeutral(first: SemesterResult, second: SemesterResult)
    requires Units(second.courses) == 0
    ensures GpaOf(SessionCourses([Some(first), Some(second)])) == GpaOf(first.courses)
  {
    SessionOfTwoSemesters(first, second);
    SumsAppend(first.courses, second.courses);
    NoUnitsNoPoints(second.courses);
  }

  /** `get_session_gpa`: accumulates over every present record's courses. */
  method GetSessionGpa(session: seq<Option<SemesterResult>>) returns (gpa: nat)
    ensures gpa == GpaOf(SessionCourses(session))
    ensures Units(SessionCourses(session)) == 0 ==> gpa == 0
  {
    var totalPoints, totalUnits := 0, 0;
    var i := 0;
    while i < |session|
      invariant 0 <= i <= |session|
      decreases |session| - i
      invariant totalPoints == Points(SessionCourses(session[..i]))
      invariant totalUnits == Units(SessionCourses(session[..i]))
    {
      assert session[..i + 1][..i] == session[..i];
      var done := SessionCourses(session[..i]);
      match session[i] {
      case None =>
        assert SessionCourses(session[..i + 1]) == done + [] == done;
      case Some(semesterResult) =>
        var cs := semesterResult.courses;
        assert SessionCourses(session[..i + 1]) == done + cs;
        assert cs[..0] == [];
        var j := 0;
        while j < |cs|
          invariant 0 <= j <= |cs|
          invariant totalPoints == Points(done) + Points(cs[..j])
          invariant totalUnits == Units(done) + Units(cs[..j])
        {
          assert cs[..j + 1][..j] == cs[..j];
          totalPoints := totalPoints + cs[j].grade * cs[j].unitLoad;
          totalUnits := totalUnits + cs[j].unitLoad;
          j := j + 1;
        }
        assert cs[..j] == cs;
        SumsAppend(done, cs);
        assert totalPoints == Points(SessionCourses(session[..i + 1]));
      }
      i := i + 1;
    }
    assert session[..i] == session;
    gpa := if totalUnits > 0 then Hundredths(totalPoints, totalUnits) else 0;
  }

  // ---------------------------------------------------------------------------
  // get_cgpa
  // ---------------------------------------------------------------------------

  /** A course contributes to the CGPA only when its grade and its unit load
      are both truthy, i.e. non-zero. */
  predicate CountsForCgpa(c: Course) { c.grade != 0 && c.unitLoad != 0 }

  /** The contributing courses of every record, in order. */
  function CgpaCourses(records: seq<SemesterResult>): seq<Course> {
    if records == [] then []
    else CgpaCourses(records[..|records| - 1]) + Filter(records[|records| - 1].courses, CountsForCgpa)
  }

  /** Every course of every record, in order. */
  function AllCourses(records: seq<SemesterResult>): seq<Course> {
    if records == [] then [] else AllCourses(records[..|records| - 1]) + records[|records| - 1].courses
  }

  /** The value of `get_cgpa` over the student's records: 0 without records,
      otherwise the GPA of the contributing courses. */
  function CgpaOf(records: seq<SemesterResult>): nat {
    if |records| == 0 then 0 else GpaOf(CgpaCourses(records))
  }

  /** `get_cgpa`, over the student's records passed in. */
  method GetCgpa(records: seq<SemesterResult>) returns (cgpa: nat)
    ensures cgpa == CgpaOf(records)
    ensures records == [] ==> cgpa == 0
  {
    if |records| == 0 {
      return 0;
    }
    var totalPoints, totalUnits := 0, 0;
    var i := 0;
    while i < |records|
      invariant 0 <= i <= |records|
      invariant totalPoints == Points(CgpaCourses(records[..i]))
      invariant totalUnits == Units(CgpaCourses(records[..i]))
    {
      assert records[..i + 1][..i] == records[..i];
      ghost var done := CgpaCourses(records[..i]);
      var cs := records[i].courses;
      assert CgpaCourses(records[..i + 1]) == done + Filter(cs, CountsForCgpa);
      if |cs| == 0 {
        // a semester without courses is skipped
        assert CgpaCourses(records[..i + 1]) == done;
      } else {
        ghost var p0, u0 := totalPoints, totalUnits;
        assert cs[..0] == [];
        var j := 0;
        while j < |cs|
          invariant 0 <= j <= |cs|
          invariant totalPoints == p0 + Points(Filter(cs[..j], CountsForCgpa))
          invariant totalUnits == u0 + Units(Filter(cs[..j], CountsForCgpa))
        {
          CountedStep(cs, j);
          var course := cs[j];
          if course.grade != 0 && course.unitLoad != 0 {
            totalPoints := totalPoints + course.grade * course.unitLoad;
            totalUnits := totalUnits + course.unitLoad;
          }
          j := j + 1;
        }
        assert cs[..j] == cs;
        SumsAppend(done, Filter(cs, CountsForCgpa));
      }
      i := i + 1;
    }
    assert records[..i] == records;
    cgpa := if totalUnits > 0 then Hundredths(totalPoints, totalUnits) else 0;
  }

  /** One step of the inner loop of `get_cgpa`: a course adds its points and
      units exactly when it counts. */
  lemma CountedStep(cs: seq<Course>, j: nat)
    requires j < |cs|
    ensures Points(Filter(cs[..j + 1], CountsForCgpa)) ==
      Points(Filter(cs[..j], CountsForCgpa)) + if CountsForCgpa(cs[j]) then cs[j].grade * cs[j].unitLoad else 0
    ensures Units(Filter(cs[..j + 1], CountsForCgpa)) ==
      Units(Filter(cs[..j], CountsForCgpa)) + if CountsForCgpa(cs[j]) then cs[j].unitLoad else 0
  {
    assert cs[..j + 1][..j] == cs[..j];
    var kept := Filter(cs[..j], CountsForCgpa);
    if CountsForCgpa(cs[j]) {
      assert Filter(cs[..j + 1], CountsForCgpa) == kept + [cs[j]];
      assert (kept + [cs[j]])[..|kept|] == kept;
    } else {
      assert Filter(cs[..j + 1], CountsForCgpa) == kept;
    }
  }

  /** The sums over a list with one more course. */
  lemma SumsSnoc(cs: seq<Course>, c: Course)
    ensures Points(cs + [c]) == Points(cs) + c.grade * c.unitLoad
    ensures Units(cs + [c]) == Units(cs) + c.unitLoad
  {
    assert (cs + [c])[..|cs|] == cs;
  }

  /** A course left out of the CGPA earns no points. */
  lemma SkippedEarnsNothing(c: Course)
    requires !CountsForCgpa(c)
    ensures c.grade * c.unitLoad == 0
  {
  }

  lemma {:induction false} FilteredPoints(cs: seq<Course>)
    ensures Points(Filter(cs, CountsForCgpa)) == Points(cs)
    ensures Units(Filter(cs, CountsForCgpa)) <= Units(cs)
  {
    if cs != [] {
      var cs' := cs[..|cs| - 1];
      FilteredPoints(cs');
      var last := cs[|cs| - 1];
      var f' := Filter(cs', CountsForCgpa);
      assert cs == cs' + [last];
      SumsSnoc(cs', last);
      if CountsForCgpa(last) {
        assert Filter(cs, CountsForCgpa) == f' + [last];
        SumsSnoc(f', last);
      } else {
        assert Filter(cs, CountsForCgpa) == f';
        SkippedEarnsNothing(last);
      }
    }
  }

  /** Skipping courses with a zero grade or unit load removes nothing from the
      points, only from the units: the CGPA numerator is all the points earned. */
  lemma {:induction false} CgpaKeepsAllPoints(records: seq<SemesterResult>)
    ensures Points(CgpaCourses(records)) == Points(AllCourses(records))
    ensures Units(CgpaCourses(records)) <= Units(AllCourses(records))
  {
    if records != [] {
      var rs := records[..|records| - 1];
      var cs := records[|records| - 1].courses;
      CgpaKeepsAllPoints(rs);
      FilteredPoints(cs);
      SumsAppend(CgpaCourses(rs), Filter(cs, CountsForCgpa));
      SumsAppend(AllCourses(rs), cs);
    }
  }

  lemma {:induction false} CgpaCoursesProperties(records: seq<SemesterResult>)
    ensures forall i :: 0 <= i < |CgpaCourses(records)| ==> CountsForCgpa(CgpaCourses(records)[i])
    ensures (forall r, i :: r in records && 0 <= i < |r.courses| ==> r.courses[i].grade <= 5) ==>
      forall i :: 0 <= i < |CgpaCourses(records)| ==> CgpaCourses(records)[i].grade <= 5
  {
    if records != [] {
      CgpaCoursesProperties(records[..|records| - 1]);
      var last := records[|records| - 1];
      var f := Filter(last.courses, CountsForCgpa);
      var done := CgpaCourses(records[..|records| - 1]);
      assert forall i :: 0 <= i < |f| ==> f[i] in last.courses;
      forall i | 0 <= i < |CgpaCourses(records)|
        ensures CountsForCgpa(CgpaCourses(records)[i])
      {
        if i >= |done| { assert CgpaCourses(records)[i] == f[i - |done|]; }
      }
      if forall r, i :: r in records && 0 <= i < |r.courses| ==> r.courses[i].grade <= 5 {
        assert forall r :: r in records[..|records| - 1] ==> r in records;
        forall i | 0 <= i < |CgpaCourses(records)|
          ensures CgpaCourses(records)[i].grade <= 5
        {
          if i >= |done| {
            assert CgpaCourses(records)[i] == f[i - |done|];
            var k :| 0 <= k < |last.courses| && last.courses[k] == f[i - |done|];
          }
        }
      }
    }
  }

  lemma {:induction false} PointsAtLeastUnits(cs: seq<Course>)
    requires forall i :: 0 <= i < |cs| ==> cs[i].grade >= 1
    ensures Units(cs) <= Points(cs)
  {
    if cs != [] {
      PointsAtLeastUnits(cs[..|cs| - 1]);
    }
  }

  /** A non-zero CGPA lies between 1.00 and 5.00: every course it averages
      has a grade point of at least 1. */
  lemma CgpaRange(records: seq<SemesterResult>)
    requires forall r, i :: r in records && 0 <= i < |r.courses| ==> r.courses[i].grade <= 5
    ensures CgpaOf(records) == 0 || 100 <= CgpaOf(records) <= 500
  {
    var cs := CgpaCourses(records);
    CgpaCoursesProperties(records);
    PointsAtLeastUnits(cs);
    PointsAtMostFiveUnits(cs);
    if Units(cs) > 0 {
      HundredthsBounds(Points(cs), Units(cs));
    }
  }

  /** The scenario of a 3-unit course scored 75 and a 2-unit course scored 30,
      both graded "regular": the semester GPA is 3.00, while the CGPA, which
      drops the failed course from its units, is 5.00. */
  lemma FailedCourseScenario(chm: Course, gsp: Course, r: SemesterResult)
    requires chm.unitLoad == 3 && gsp.unitLoad == 2
    requires Some(chm.grade) == CalculateGrade(75.0, "regular")
    requires Some(gsp.grade) == CalculateGrade(30.0, "regular")
    requires r.courses == [chm, gsp]
    ensures GpaOf(r.courses) == 300
    ensures CgpaOf([r]) == 500
  {
    assert [chm, gsp][..1] == [chm];
    assert [chm][..0] == [];
    assert chm.grade == 5 && gsp.grade == 0;
    assert Points([chm]) == 15 && Units([chm]) == 3;
    assert Points([chm, gsp]) == 15 && Units([chm, gsp]) == 5;
    assert Filter([chm], CountsForCgpa) == [chm];
    assert Filter([chm, gsp], CountsForCgpa) == [chm];
    assert [r][..0] == [];
    assert CgpaCourses([r]) == [chm];
  }
}
