/** The derived statistics shown on the scorecard (App.tsx, `stats`): the semester
    GPA in GPA mode and the overall CGPA in CGPA mode. */
module Aggregation {
  import opened Types
  import opened Constants

  /** The scorecard figures. `score` is the exact value that the source prints with
      `toFixed(decimals)`; `offered` and `secured` are what the two labels name. */
  datatype Stats = Stats(
    score: real,
    decimals: nat,
    offered: nat,
    secured: nat,
    offeredLabel: string,
    securedLabel: string)

  /** The GPA-mode result when the active semester does not resolve. */
  const ZeroGpaStats := Stats(0.0, 3, 0, 0, "Credit Offered", "Credit Secured")

  // ---------------------------------------------------------------- lookup

  /** The position of the first semester whose id is `id` (`Array.prototype.find`);
      `|sems|` when there is none. */
  function FindIndex(sems: seq<Semester>, id: string): (k: nat)
    ensures k <= |sems|
    ensures k < |sems| ==> sems[k].id == id
    ensures forall j :: 0 <= j < k ==> sems[j].id != id
  {
    if |sems| == 0 then 0
    else if sems[0].id == id then 0
    else 1 + FindIndex(sems[1..], id)
  }

  /** `semesters.find(s => s.id === id)`. */
  function FindSemester(sems: seq<Semester>, id: string): (r: Option<Semester>)
    ensures r.None? <==> forall j :: 0 <= j < |sems| ==> sems[j].id != id
    ensures r.Some? ==> r.value == sems[FindIndex(sems, id)] && r.value.id == id
  {
    var k := FindIndex(sems, id);
    if k < |sems| then Some(sems[k]) else None
  }

  // ------------------------------------------------------ semester GPA (spec)

  /** A course is counted when its grade is set and found in the grade table. */
  predicate IsGraded(c: Course)
  {
    c.grade != Unset && c.grade in GradePointTable
  }

  /** The table is total, so the lookup test never fails: a course is counted exactly
      when its grade is set. */
  lemma GradedIffSet(c: Course)
    ensures IsGraded(c) <==> c.grade != Unset
  {
    GradePointTableTotal();
  }

  /** The credits a course adds to `securedCredits`. */
  function CreditContribution(c: Course): nat
  {
    if IsGraded(c) then c.credits else 0
  }

  /** The hundredths of a point a course adds to `totalPoints`. */
  function PointContribution(c: Course): nat
  {
    if IsGraded(c) then GradePoints(c.grade) * c.credits else 0
  }

  /** `securedCredits` after the loop over `cs`. */
  function SecuredCredits(cs: seq<Course>): nat
  {
    if |cs| == 0 then 0 else SecuredCredits(cs[..|cs| - 1]) + CreditContribution(cs[|cs| - 1])
  }

  /** `totalPoints` (in hundredths) after the loop over `cs`. */
  function SecuredPoints(cs: seq<Course>): nat
  {
    if |cs| == 0 then 0 else SecuredPoints(cs[..|cs| - 1]) + PointContribution(cs[|cs| - 1])
  }

  /** The credit-weighted mean `points / credits` (points in hundredths), or 0 with no credits. */
  function WeightedGpa(points: nat, credits: nat): real
  {
    if credits > 0 then (points as real) / (100.0 * credits as real) else 0.0
  }

  /** The GPA-mode result for the active semester. */
  function SemesterStatsOf(active: Semester): (r: Stats)
    ensures r.offered == CreditSum(active.courses) && r.secured <= r.offered
    ensures 0.0 <= r.score <= 4.0
    ensures r.secured == 0 ==> r.score == 0.0
    ensures r.decimals == 3 && r.offeredLabel == "Credit Offered" && r.securedLabel == "Credit Secured"
  {
    var cs := active.courses;
    SecuredAtMostOffered(cs);
    PointsAtMostFourPerCredit(cs);
    WeightedGpaBounds(SecuredPoints(cs), SecuredCredits(cs));
    Stats(WeightedGpa(SecuredPoints(cs), SecuredCredits(cs)), 3, CreditSum(cs),
      SecuredCredits(cs), "Credit Offered", "Credit Secured")
  }

  // ------------------------------------------------------------ CGPA (spec)

  /** A semester enters the CGPA when its manual credit total is present and positive. */
  predicate IsCounted(s: Semester)
  {
    s.manualCredits.Some? && s.manualCredits.value > 0
  }

  /** The manual credits a semester adds to `totalCredits`. */
  function ManualCreditContribution(s: Semester): nat
  {
    if IsCounted(s) then s.manualCredits.value else 0
  }

  /** What a semester adds to `totalPoints`: `(manualGPA || 0) * manualCredits`. */
  function ManualPointContribution(s: Semester): real
  {
    if IsCounted(s) then s.manualGPA.GetOr(0.0) * (s.manualCredits.value as real) else 0.0
  }

  /** `totalCredits` after the loop over `sems`. */
  function CountedCredits(sems: seq<Semester>): nat
  {
    if |sems| == 0 then 0
    else CountedCredits(sems[..|sems| - 1]) + ManualCreditContribution(sems[|sems| - 1])
  }

  /** `totalPoints` after the loop over `sems`. */
  function CountedPoints(sems: seq<Semester>): real
  {
    if |sems| == 0 then 0.0
    else CountedPoints(sems[..|sems| - 1]) + ManualPointContribution(sems[|sems| - 1])
  }

  /** `semesterCount` after the loop over `sems`. */
  function CountedSemesters(sems: seq<Semester>): nat
  {
    if |sems| == 0 then 0
    else CountedSemesters(sems[..|sems| - 1]) + (if IsCounted(sems[|sems| - 1]) then 1 else 0)
  }

  /** The CGPA-mode result. */
  function OverallStatsOf(sems: seq<Semester>): (r: Stats)
    ensures r.offered > 0 <==> r.secured > 0
    ensures r.secured <= r.offered && r.secured <= |sems|
    ensures r.offered == 0 ==> r.score == 0.0
    ensures r.decimals == 2 && r.offeredLabel == "Total Credit" && r.securedLabel == "Total Semester"
  {
    CountedCreditsIffSemesters(sems);
    var credits := CountedCredits(sems);
    Stats(if credits > 0 then CountedPoints(sems) / (credits as real) else 0.0, 2, credits,
      CountedSemesters(sems), "Total Credit", "Total Semester")
  }

  /** The scorecard for the whole state, selected by mode. */
  function StatsOf(st: AppState): (r: Stats)
    ensures st.mode == CGPA ==> r == OverallStatsOf(st.semesters)
    ensures st.mode == GPA ==> r.decimals == 3 && r.secured <= r.offered && 0.0 <= r.score <= 4.0
    ensures st.mode == GPA && FindSemester(st.semesters, st.activeSemesterId).None? ==> r == ZeroGpaStats
  {
    if st.mode == GPA then
      match FindSemester(st.semesters, st.activeSemesterId)
      case None => ZeroGpaStats
      case Some(active) => SemesterStatsOf(active)
    else
      OverallStatsOf(st.semesters)
  }

  // ------------------------------------------------------- the loops themselves

  /** The GPA branch: `offered` by a fold, then one pass accumulating points and credits. */
  method ComputeSemesterStats(active: Semester) returns (r: Stats)
    ensures r == SemesterStatsOf(active)
  {
    var cs := active.courses;
    var offered := CreditSum(cs);
    var totalPoints: nat := 0;
    var securedCredits: nat := 0;
    var i := 0;
    while i < |cs|
      invariant 0 <= i <= |cs|
      invariant totalPoints == SecuredPoints(cs[..i])
      invariant securedCredits == SecuredCredits(cs[..i])
    {
      var c := cs[i];
      assert cs[..i + 1][..i] == cs[..i];
      assert SecuredPoints(cs[..i + 1]) == SecuredPoints(cs[..i]) + PointContribution(c);
      assert SecuredCredits(cs[..i + 1]) == SecuredCredits(cs[..i]) + CreditContribution(c);
      if c.grade != Unset && c.grade in GradePointTable {
        totalPoints := totalPoints + GradePoints(c.grade) * c.credits;
        securedCredits := securedCredits + c.credits;
      }
      i := i + 1;
    }
    assert cs[..|cs|] == cs;
    var score := if securedCredits > 0 then (totalPoints as real) / (100.0 * securedCredits as real) else 0.0;
    r := Stats(score, 3, offered, securedCredits, "Credit Offered", "Credit Secured");
  }

  /** The CGPA branch: one pass over the semesters with a positive manual credit total. */
  method ComputeOverallStats(sems: seq<Semester>) returns (r: Stats)
    ensures r == OverallStatsOf(sems)
  {
    var totalPoints := 0.0;
    var totalCredits: nat := 0;
    var semesterCount: nat := 0;
    var i := 0;
    while i < |sems|
      invariant 0 <= i <= |sems|
      invariant totalPoints == CountedPoints(sems[..i])
      invariant totalCredits == CountedCredits(sems[..i])
      invariant semesterCount == CountedSemesters(sems[..i])
    {
      var s := sems[i];
      assert sems[..i + 1][..i] == sems[..i];
      if s.manualCredits.Some? && s.manualCredits.value > 0 {
        totalPoints := totalPoints + s.manualGPA.GetOr(0.0) * (s.manualCredits.value as real);
        totalCredits := totalCredits + s.manualCredits.value;
        semesterCount := semesterCount + 1;
      }
      i := i + 1;
    }
    assert sems[..|sems|] == sems;
    var score := if totalCredits > 0 then totalPoints / (totalCredits as real) else 0.0;
    r := Stats(score, 2, totalCredits, semesterCount, "Total Credit", "Total Semester");
  }

  /** `stats`: the branch for the current mode. */
  method ComputeStats(st: AppState) returns (r: Stats)
    ensures r == StatsOf(st)
  {
    if st.mode == GPA {
      var active := FindSemester(st.semesters, st.activeSemesterId);
      if active.None? {
        return ZeroGpaStats;
      }
      r := ComputeSemesterStats(active.value);
    } else {
      r := ComputeOverallStats(st.semesters);
    }
  }

  // ------------------------------------------------------------ GPA properties

  /** An active id that names no semester yields score 0, offered 0 and secured 0. */
  lemma MissingActiveSemesterGivesZero(st: AppState)
    requires st.mode == GPA
    requires forall j :: 0 <= j < |st.semesters| ==> st.semesters[j].id != st.activeSemesterId
    ensures StatsOf(st).score == 0.0 && StatsOf(st).offered == 0 && StatsOf(st).secured == 0
    ensures StatsOf(st).decimals == 3
  {
  }

  /** In GPA mode the scorecard describes the first semester with the active id:
      `offered` is the credit sum of all its courses, whatever their grades. */
  lemma GpaStatsDescribeActiveSemester(st: AppState, k: nat)
    requires st.mode == GPA && k < |st.semesters| && st.semesters[k].id == st.activeSemesterId
    requires forall j :: 0 <= j < k ==> st.semesters[j].id != st.activeSemesterId
    ensures StatsOf(st).offered == CreditSum(st.semesters[k].courses)
    ensures StatsOf(st).secured == SecuredCredits(st.semesters[k].courses)
    ensures StatsOf(st).score ==
      WeightedGpa(SecuredPoints(st.semesters[k].courses), SecuredCredits(st.semesters[k].courses))
  {
    var f := FindIndex(st.semesters, st.activeSemesterId);
    assert f == k;
  }

  /** Secured credits never exceed offered credits. */
  lemma {:induction false} SecuredAtMostOffered(cs: seq<Course>)
    ensures SecuredCredits(cs) <= CreditSum(cs)
  {
    if |cs| > 0 {
      SecuredAtMostOffered(cs[..|cs| - 1]);
    }
  }

  /** Every grade is worth at most 4.00 per credit, so the points are at most 400 per secured credit. */
  lemma {:induction false} PointsAtMostFourPerCredit(cs: seq<Course>)
    ensures SecuredPoints(cs) <= 400 * SecuredCredits(cs)
  {
    if |cs| > 0 {
      PointsAtMostFourPerCredit(cs[..|cs| - 1]);
      var c := cs[|cs| - 1];
      if IsGraded(c) {
        assert GradePoints(c.grade) * c.credits <= 400 * c.credits;
      }
    }
  }

  /** A non-negative weight keeps `g * w` between 0 and `4 * w` when `g` is in [0, 4]. */
  lemma ScaledBounds(g: real, w: real)
    requires 0.0 <= g <= 4.0 && 0.0 <= w
    ensures 0.0 <= g * w <= 4.0 * w
  {
    assert (4.0 - g) * w >= 0.0;
  }

  /** A quotient whose numerator is at most four times its positive denominator is at most 4. */
  lemma QuotientAtMostFour(a: real, d: real)
    requires 0.0 <= a <= 4.0 * d && 0.0 < d
    ensures 0.0 <= a / d <= 4.0
  {
    assert a / d * d == a;
  }

  /** A weighted mean whose points are at most 4.00 per credit lies in [0, 4]. */
  lemma WeightedGpaBounds(points: nat, credits: nat)
    requires points <= 400 * credits
    ensures 0.0 <= WeightedGpa(points, credits) <= 4.0
  {
    if credits > 0 {
      QuotientAtMostFour(points as real, 100.0 * credits as real);
    }
  }

  /** With no grade set, nothing is secured and the GPA is 0. */
  lemma {:induction false} NoGradesNothingSecured(cs: seq<Course>)
    requires forall i :: 0 <= i < |cs| ==> cs[i].grade == Unset
    ensures SecuredCredits(cs) == 0 && SecuredPoints(cs) == 0
    ensures WeightedGpa(SecuredPoints(cs), SecuredCredits(cs)) == 0.0
  {
    if |cs| > 0 {
      NoGradesNothingSecured(cs[..|cs| - 1]);
    }
  }

  /** Replacing the course at `k` changes the totals by exactly the difference of the two
      courses' contributions; no other course's contribution moves. */
  lemma {:induction false} ReplaceCourseTotals(cs: seq<Course>, k: nat, c: Course)
    requires k < |cs|
    ensures SecuredCredits(cs[k := c]) + CreditContribution(cs[k]) ==
            SecuredCredits(cs) + CreditContribution(c)
    ensures SecuredPoints(cs[k := c]) + PointContribution(cs[k]) ==
            SecuredPoints(cs) + PointContribution(c)
  {
    var n := |cs| - 1;
    var ds := cs[k := c];
    if k == n {
      assert ds[..n] == cs[..n];
    } else {
      assert ds[..n] == cs[..n][k := c];
      ReplaceCourseTotals(cs[..n], k, c);
    }
  }

  /** Setting a graded course back to the unset grade removes exactly its credits and points. */
  lemma UnsetRemovesContribution(cs: seq<Course>, k: nat)
    requires k < |cs| && IsGraded(cs[k])
    ensures SecuredCredits(cs[k := cs[k].(grade := Unset)]) == SecuredCredits(cs) - cs[k].credits
    ensures SecuredPoints(cs[k := cs[k].(grade := Unset)]) ==
            SecuredPoints(cs) - GradePoints(cs[k].grade) * cs[k].credits
  {
    ReplaceCourseTotals(cs, k, cs[k].(grade := Unset));
  }

  // ----------------------------------------------------------- CGPA properties

  /** The CGPA counts semesters, and credits, only when some manual credit total is
      positive: a positive total credit and a positive semester count go together. */
  lemma {:induction false} CountedCreditsIffSemesters(sems: seq<Semester>)
    ensures CountedCredits(sems) > 0 <==> CountedSemesters(sems) > 0
    ensures CountedSemesters(sems) <= CountedCredits(sems)
    ensures CountedSemesters(sems) <= |sems|
  {
    if |sems| > 0 {
      CountedCreditsIffSemesters(sems[..|sems| - 1]);
    }
  }

  /** When no semester has a positive manual credit total, the CGPA is 0 and so are both counts. */
  lemma {:induction false} NoneCountedGivesZero(sems: seq<Semester>)
    requires forall i :: 0 <= i < |sems| ==> !IsCounted(sems[i])
    ensures CountedCredits(sems) == 0 && CountedSemesters(sems) == 0 && CountedPoints(sems) == 0.0
    ensures OverallStatsOf(sems) == Stats(0.0, 2, 0, 0, "Total Credit", "Total Semester")
  {
    if |sems| > 0 {
      NoneCountedGivesZero(sems[..|sems| - 1]);
    }
  }

  /** Replacing the semester at `k` changes the CGPA totals by exactly the difference of
      the two semesters' contributions. */
  lemma {:induction false} ReplaceSemesterTotals(sems: seq<Semester>, k: nat, s: Semester)
    requires k < |sems|
    ensures CountedCredits(sems[k := s]) + ManualCreditContribution(sems[k]) ==
            CountedCredits(sems) + ManualCreditContribution(s)
    ensures CountedPoints(sems[k := s]) + ManualPointContribution(sems[k]) ==
            CountedPoints(sems) + ManualPointContribution(s)
    ensures CountedSemesters(sems[k := s]) + (if IsCounted(sems[k]) then 1 else 0) ==
            CountedSemesters(sems) + (if IsCounted(s) then 1 else 0)
  {
    var n := |sems| - 1;
    var ts := sems[k := s];
    if k == n {
      assert ts[..n] == sems[..n];
    } else {
      assert ts[..n] == sems[..n][k := s];
      ReplaceSemesterTotals(sems[..n], k, s);
    }
  }

  /** An excluded semester's manual GPA has no effect on the CGPA, however large. */
  lemma ExcludedGpaIrrelevant(sems: seq<Semester>, k: nat, gpa: Option<real>)
    requires k < |sems| && !IsCounted(sems[k])
    ensures OverallStatsOf(sems[k := sems[k].(manualGPA := gpa)]) == OverallStatsOf(sems)
  {
    ReplaceSemesterTotals(sems, k, sems[k].(manualGPA := gpa));
  }

  /** With every counted GPA in [0, 4], the points lie between 0 and 4 per credit. */
  lemma {:induction false} CountedPointsBounds(sems: seq<Semester>)
    requires forall i :: 0 <= i < |sems| && IsCounted(sems[i]) ==>
      0.0 <= sems[i].manualGPA.GetOr(0.0) <= 4.0
    ensures 0.0 <= CountedPoints(sems) <= 4.0 * (CountedCredits(sems) as real)
  {
    if |sems| > 0 {
      var n := |sems| - 1;
      var pre, s := sems[..n], sems[n];
      assert forall i :: 0 <= i < |pre| ==> pre[i] == sems[i];
      CountedPointsBounds(pre);
      var q, w := ManualPointContribution(s), ManualCreditContribution(s) as real;
      if IsCounted(s) {
        ScaledBounds(s.manualGPA.GetOr(0.0), s.manualCredits.value as real);
        assert 0.0 <= q <= 4.0 * w;
      }
      assert CountedPoints(sems) == CountedPoints(pre) + q;
      assert CountedCredits(sems) as real == CountedCredits(pre) as real + w;
    }
  }

  /** With every counted GPA in [0, 4], the CGPA lies in [0, 4]. */
  lemma OverallCgpaBounds(sems: seq<Semester>)
    requires forall i :: 0 <= i < |sems| && IsCounted(sems[i]) ==>
      0.0 <= sems[i].manualGPA.GetOr(0.0) <= 4.0
    ensures 0.0 <= OverallStatsOf(sems).score <= 4.0
  {
    CountedPointsBounds(sems);
    var c := CountedCredits(sems) as real;
    if c > 0.0 {
      QuotientAtMostFour(CountedPoints(sems), c);
    }
  }

  // ------------------------------------------------------------------ worked examples

  /** Credits 3 and 3, grades A+ and unset: offered 6, secured 3, GPA 4.000. */
  lemma OneGradedOfTwoCourses()
    ensures var s := Semester("s", "s", [Course("c0", "", "", 3, APlus), Course("c1", "", "", 3, Unset)],
                              None, None);
      SemesterStatsOf(s) == Stats(4.0, 3, 6, 3, "Credit Offered", "Credit Secured")
  {
    var cs := [Course("c0", "", "", 3, APlus), Course("c1", "", "", 3, Unset)];
    assert cs[..1][..0] == [] && cs[..1] == [cs[0]];
    assert GradePoints(APlus) == 400;
    assert IsGraded(cs[0]) && !IsGraded(cs[1]);
    assert SecuredCredits(cs[..1]) == 3;
    assert SecuredCredits(cs) == 3;
    assert SecuredPoints(cs) == 1200;
    assert CreditSum(cs) == 6;
    assert WeightedGpa(1200, 3) == 4.0;
  }

  /** Credits 3 with B and 1 with F: secured 4, points 9.00, GPA 2.250. */
  lemma FailingGradeCountsWithZeroPoints()
    ensures var s := Semester("s", "s", [Course("c0", "", "", 3, B), Course("c1", "", "", 1, F)],
                              None, None);
      SemesterStatsOf(s) == Stats(2.25, 3, 4, 4, "Credit Offered", "Credit Secured")
  {
    var cs := [Course("c0", "", "", 3, B), Course("c1", "", "", 1, F)];
    assert cs[..1][..0] == [] && cs[..1] == [cs[0]];
    assert GradePoints(B) == 300 && GradePoints(F) == 0;
    assert IsGraded(cs[0]) && IsGraded(cs[1]);
    assert SecuredCredits(cs[..1]) == 3 && SecuredPoints(cs[..1]) == 900;
    assert SecuredCredits(cs) == 4 && SecuredPoints(cs) == 900;
    assert CreditSum(cs) == 4;
    assert WeightedGpa(900, 4) == 2.25;
  }

  /** Manual (3, 3.50) and (0, 4.00): only the first counts; CGPA 3.50 over 3 credits, 1 semester. */
  lemma ZeroCreditSemesterSkipped()
    ensures var sems := [Semester("1.1", "1.1", [], Some(3), Some(3.5)),
                         Semester("1.2", "1.2", [], Some(0), Some(4.0))];
      OverallStatsOf(sems) == Stats(3.5, 2, 3, 1, "Total Credit", "Total Semester")
  {
    var sems := [Semester("1.1", "1.1", [], Some(3), Some(3.5)),
                 Semester("1.2", "1.2", [], Some(0), Some(4.0))];
    assert sems[..1][..0] == [] && sems[..1] == [sems[0]];
    assert IsCounted(sems[0]) && !IsCounted(sems[1]);
    assert CountedCredits(sems[..1]) == 3 && CountedSemesters(sems[..1]) == 1;
    assert CountedPoints(sems[..1]) == 10.5;
    assert CountedCredits(sems) == 3 && CountedSemesters(sems) == 1;
    assert CountedPoints(sems) == 10.5;
  }
}
