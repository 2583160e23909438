/** The state updaters of App.tsx. Each one takes the previous state and rebuilds a
    new one with `map` and spread; none of them fails. */
module StateStore {
  import opened Types
  import opened Aggregation

  // ------------------------------------------------------------- the updaters

  /** `updateGrade(semId, courseId, grade)`. */
  function UpdateGrade(st: AppState, semId: string, courseId: string, g: Grade): (r: AppState)
    ensures SameSkeleton(st, r)
    ensures forall i, j :: 0 <= i < |st.semesters| && 0 <= j < |st.semesters[i].courses| ==>
      r.semesters[i].courses[j].grade ==
        if st.semesters[i].id == semId && st.semesters[i].courses[j].id == courseId then g
        else st.semesters[i].courses[j].grade
  {
    st.(semesters := seq(|st.semesters|, i requires 0 <= i < |st.semesters| =>
      var s := st.semesters[i];
      if s.id != semId then s
      else s.(courses := seq(|s.courses|, j requires 0 <= j < |s.courses| =>
        var c := s.courses[j];
        if c.id == courseId then c.(grade := g) else c))))
  }

  /** `resetSemesterGrades(semId)`. */
  function ResetSemesterGrades(st: AppState, semId: string): (r: AppState)
    ensures SameSkeleton(st, r)
    ensures forall i, j :: 0 <= i < |st.semesters| && 0 <= j < |st.semesters[i].courses| ==>
      r.semesters[i].courses[j].grade ==
        if st.semesters[i].id == semId then Unset else st.semesters[i].courses[j].grade
  {
    st.(semesters := seq(|st.semesters|, i requires 0 <= i < |st.semesters| =>
      var s := st.semesters[i];
      if s.id != semId then s
      else s.(courses := seq(|s.courses|, j requires 0 <= j < |s.courses| =>
        s.courses[j].(grade := Unset)))))
  }

  /** `updateManual(id, credits, gpa)`: the matching semesters get both manual fields. */
  function UpdateManual(st: AppState, id: string, credits: int, gpa: real): (r: AppState)
    ensures r.mode == st.mode && r.activeSemesterId == st.activeSemesterId
    ensures |r.semesters| == |st.semesters|
    ensures forall i :: 0 <= i < |st.semesters| ==>
      var s, t := st.semesters[i], r.semesters[i];
      t.id == s.id && t.caption == s.caption && t.courses == s.courses &&
      (s.id == id ==> t.manualCredits == Some(credits) && t.manualGPA == Some(gpa)) &&
      (s.id != id ==> t == s)
  {
    st.(semesters := seq(|st.semesters|, i requires 0 <= i < |st.semesters| =>
      var s := st.semesters[i];
      if s.id == id then s.(manualCredits := Some(credits), manualGPA := Some(gpa)) else s))
  }

  /** The mode switch: `{...prev, mode: m}`. */
  function SetMode(st: AppState, m: Mode): (r: AppState)
    ensures r.mode == m
    ensures r.semesters == st.semesters && r.activeSemesterId == st.activeSemesterId
  {
    st.(mode := m)
  }

  /** The semester selector: `{...prev, activeSemesterId: id}`; the id is not checked. */
  function SetActiveSemester(st: AppState, id: string): (r: AppState)
    ensures r.activeSemesterId == id
    ensures r.mode == st.mode && r.semesters == st.semesters
  {
    st.(activeSemesterId := id)
  }

  // ------------------------------------------------------------- invariants

  /** `a` and `b` agree on everything but course grades: the mode, the active id, the
      number of semesters and, per semester, its id, caption, manual fields and the
      number of courses with their ids, codes, titles and credits. */
  ghost predicate SameSkeleton(a: AppState, b: AppState)
  {
    && a.mode == b.mode
    && a.activeSemesterId == b.activeSemesterId
    && |a.semesters| == |b.semesters|
    && forall i :: 0 <= i < |a.semesters| ==> SameSemesterSkeleton(a.semesters[i], b.semesters[i])
  }

  /** Two semesters that agree on everything but course grades. */
  ghost predicate SameSemesterSkeleton(s: Semester, t: Semester)
  {
    && s.id == t.id && s.caption == t.caption
    && s.manualCredits == t.manualCredits && s.manualGPA == t.manualGPA
    && |s.courses| == |t.courses|
    && forall j :: 0 <= j < |s.courses| ==>
         var c, d := s.courses[j], t.courses[j];
         c.id == d.id && c.code == d.code && c.title == d.title && c.credits == d.credits
  }

  /** Grade edits keep every semester's offered credits. */
  lemma GradeEditKeepsOffered(a: AppState, b: AppState, i: nat)
    requires SameSkeleton(a, b) && i < |a.semesters|
    ensures CreditSum(b.semesters[i].courses) == CreditSum(a.semesters[i].courses)
  {
    CreditSumOnlyCredits(a.semesters[i].courses, b.semesters[i].courses);
  }

  /** Two semester lists that differ only in course grades have the same CGPA totals,
      so grade edits leave the CGPA unchanged. */
  lemma {:induction false} SkeletonKeepsCgpaTotals(xs: seq<Semester>, ys: seq<Semester>)
    requires |xs| == |ys|
    requires forall i :: 0 <= i < |xs| ==> SameSemesterSkeleton(xs[i], ys[i])
    ensures CountedCredits(ys) == CountedCredits(xs) && CountedPoints(ys) == CountedPoints(xs)
    ensures CountedSemesters(ys) == CountedSemesters(xs)
    ensures OverallStatsOf(ys) == OverallStatsOf(xs)
  {
    if |xs| > 0 {
      SkeletonKeepsCgpaTotals(xs[..|xs| - 1], ys[..|ys| - 1]);
    }
  }

  /** Setting a grade or resetting a semester never changes the CGPA scorecard. */
  lemma GradeEditsKeepCgpa(st: AppState, semId: string, courseId: string, g: Grade)
    ensures OverallStatsOf(UpdateGrade(st, semId, courseId, g).semesters) == OverallStatsOf(st.semesters)
    ensures OverallStatsOf(ResetSemesterGrades(st, semId).semesters) == OverallStatsOf(st.semesters)
  {
    SkeletonKeepsCgpaTotals(st.semesters, UpdateGrade(st, semId, courseId, g).semesters);
    SkeletonKeepsCgpaTotals(st.semesters, ResetSemesterGrades(st, semId).semesters);
  }

  /** Updating manual fields never changes the GPA scorecard: the course lists are kept. */
  lemma UpdateManualKeepsGpa(st: AppState, id: string, credits: int, gpa: real)
    requires st.mode == GPA
    ensures StatsOf(UpdateManual(st, id, credits, gpa)) == StatsOf(st)
  {
    var r := UpdateManual(st, id, credits, gpa);
    FindIndexSameIds(st.semesters, r.semesters, st.activeSemesterId);
  }

  /** The first match of an id depends on the ids alone. */
  lemma {:induction false} FindIndexSameIds(xs: seq<Semester>, ys: seq<Semester>, id: string)
    requires |xs| == |ys| && forall i :: 0 <= i < |xs| ==> xs[i].id == ys[i].id
    ensures FindIndex(xs, id) == FindIndex(ys, id)
  {
    if |xs| > 0 && xs[0].id != id {
      FindIndexSameIds(xs[1..], ys[1..], id);
    }
  }

  // ---------------------------------------------------------- no-ops on a miss

  /** `updateGrade` is a no-op unless some semester with id `semId` has a course `courseId`. */
  lemma UpdateGradeMissIsNoop(st: AppState, semId: string, courseId: string, g: Grade)
    requires forall i, j ::
      (0 <= i < |st.semesters| && 0 <= j < |st.semesters[i].courses| && st.semesters[i].id == semId)
      ==> st.semesters[i].courses[j].id != courseId
    ensures UpdateGrade(st, semId, courseId, g) == st
  {
    var r := UpdateGrade(st, semId, courseId, g);
    forall i | 0 <= i < |st.semesters| ensures r.semesters[i] == st.semesters[i] {
      var s, t := st.semesters[i], r.semesters[i];
      assert t.courses == s.courses;
    }
    assert r.semesters == st.semesters;
  }

  /** `resetSemesterGrades` is a no-op when no semester has id `semId`. */
  lemma ResetMissIsNoop(st: AppState, semId: string)
    requires forall i :: 0 <= i < |st.semesters| ==> st.semesters[i].id != semId
    ensures ResetSemesterGrades(st, semId) == st
  {
    var r := ResetSemesterGrades(st, semId);
    assert r.semesters == st.semesters;
  }

  /** `updateManual` is a no-op when no semester has id `id`. */
  lemma UpdateManualMissIsNoop(st: AppState, id: string, credits: int, gpa: real)
    requires forall i :: 0 <= i < |st.semesters| ==> st.semesters[i].id != id
    ensures UpdateManual(st, id, credits, gpa) == st
  {
    assert UpdateManual(st, id, credits, gpa).semesters == st.semesters;
  }

  // ---------------------------------------------------------------- reset

  /** Resetting a semester twice is the same as resetting it once. */
  lemma ResetIdempotent(st: AppState, semId: string)
    ensures ResetSemesterGrades(ResetSemesterGrades(st, semId), semId) == ResetSemesterGrades(st, semId)
  {
    var once := ResetSemesterGrades(st, semId);
    var twice := ResetSemesterGrades(once, semId);
    forall i | 0 <= i < |once.semesters| ensures twice.semesters[i] == once.semesters[i] {
      var s, t := once.semesters[i], twice.semesters[i];
      if s.id == semId {
        assert t.courses == s.courses;
      }
    }
    assert twice.semesters == once.semesters;
  }

  /** After a reset, the reset semester secures nothing and its GPA is 0. */
  lemma ResetClearsSemesterGpa(st: AppState, semId: string, i: nat)
    requires i < |st.semesters| && st.semesters[i].id == semId
    ensures var s := ResetSemesterGrades(st, semId).semesters[i];
      SemesterStatsOf(s).secured == 0 && SemesterStatsOf(s).score == 0.0 &&
      SemesterStatsOf(s).offered == CreditSum(st.semesters[i].courses)
  {
    var r := ResetSemesterGrades(st, semId);
    NoGradesNothingSecured(r.semesters[i].courses);
    GradeEditKeepsOffered(st, r, i);
  }

  // ---------------------------------------------------------------- setters

  /** Switching to an id that names no semester is accepted; the GPA view then shows zeros. */
  lemma SetUnknownActiveGivesZero(st: AppState, id: string)
    requires st.mode == GPA
    requires forall i :: 0 <= i < |st.semesters| ==> st.semesters[i].id != id
    ensures StatsOf(SetActiveSemester(st, id)) == ZeroGpaStats
  {
  }

  /** Switching the mode away and back restores the state. */
  lemma SetModeRoundTrip(st: AppState, m: Mode)
    ensures SetMode(SetMode(st, m), st.mode) == st
  {
  }
}
