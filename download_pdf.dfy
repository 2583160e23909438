/** The figures of the downloadable report (components/DownloadPDF.tsx): whether the
    download button is enabled, the GPA summary card, the CGPA table rows and the file name. */
module DownloadPdf {
  import opened Types
  import opened Constants
  import opened Aggregation

  // -------------------------------------------------------- download enabled

  /** `courses.some(c => c.grade !== '')`. */
  predicate SomeGraded(cs: seq<Course>)
  {
    exists i :: 0 <= i < |cs| && cs[i].grade != Unset
  }

  /** `(s.manualCredits || 0) > 0 && (s.manualGPA || 0) > 0`. */
  predicate HasReportableGpa(s: Semester)
  {
    s.manualCredits.GetOr(0) > 0 && s.manualGPA.GetOr(0.0) > 0.0
  }

  /** `isActive`: in GPA mode, the active semester exists and some course has a grade;
      in CGPA mode, some semester has both positive manual credits and a positive GPA. */
  function CanDownload(mode: Mode, activeSemester: Option<Semester>, sems: seq<Semester>): (r: bool)
    ensures mode == GPA ==> (r <==> activeSemester.Some? && Attempted(activeSemester.value.courses) != [])
  {
    if mode == GPA then
      if activeSemester.Some? then
        AttemptedNonEmptyIffSomeGraded(activeSemester.value.courses);
        SomeGraded(activeSemester.value.courses)
      else false
    else exists i :: 0 <= i < |sems| && HasReportableGpa(sems[i])
  }

  /** A semester that secures any credit can be downloaded in GPA mode. */
  lemma {:induction false} SecuredCreditsEnableDownload(s: Semester, sems: seq<Semester>)
    requires SecuredCredits(s.courses) > 0
    ensures CanDownload(GPA, Some(s), sems)
  {
    var k := SomeGradedWitness(s.courses);
    assert s.courses[k].grade != Unset;
  }

  /** The position of a graded course in a list that secures credits. */
  lemma {:induction false} SomeGradedWitness(cs: seq<Course>) returns (k: nat)
    requires SecuredCredits(cs) > 0
    ensures k < |cs| && IsGraded(cs[k])
  {
    var n := |cs| - 1;
    if IsGraded(cs[n]) {
      k := n;
    } else {
      k := SomeGradedWitness(cs[..n]);
    }
  }

  /** The converse fails: a graded course worth 0 credits enables the download while
      nothing is secured. */
  lemma ZeroCreditGradeEnablesDownload()
    ensures var s := Semester("s", "s", [Course("c", "", "", 0, A)], None, None);
      CanDownload(GPA, Some(s), []) && SecuredCredits(s.courses) == 0
  {
    var s := Semester("s", "s", [Course("c", "", "", 0, A)], None, None);
    assert s.courses[0].grade != Unset;
  }

  /** In CGPA mode the download needs a counted semester (one that enters the CGPA). */
  lemma CgpaDownloadNeedsCountedSemester(activeSemester: Option<Semester>, sems: seq<Semester>)
    requires CanDownload(CGPA, activeSemester, sems)
    ensures CountedSemesters(sems) > 0 && OverallStatsOf(sems).offered > 0
  {
    var i :| 0 <= i < |sems| && HasReportableGpa(sems[i]);
    CountedSemesterCounts(sems, i);
    CountedCreditsIffSemesters(sems);
  }

  /** A counted semester anywhere in the list makes the count positive. */
  lemma {:induction false} CountedSemesterCounts(sems: seq<Semester>, i: nat)
    requires i < |sems| && IsCounted(sems[i])
    ensures CountedSemesters(sems) > 0
  {
    if i < |sems| - 1 {
      CountedSemesterCounts(sems[..|sems| - 1], i);
    }
  }

  /** The CGPA condition is stricter than inclusion: a counted semester with GPA 0
      enters the CGPA but does not enable the download. */
  lemma CountedButNotDownloadable()
    ensures var sems := [Semester("1.1", "1.1", [], Some(3), Some(0.0))];
      CountedSemesters(sems) == 1 && !CanDownload(CGPA, None, sems)
  {
    var sems := [Semester("1.1", "1.1", [], Some(3), Some(0.0))];
    assert sems[..0] == [];
  }

  // ------------------------------------------------------------ GPA summary

  /** The summary card in GPA mode; `points` in hundredths. */
  datatype Summary = Summary(offered: nat, attempted: nat, secured: nat, points: nat)

  /** `courses.filter(c => c.grade !== '')`, in order. */
  function Attempted(cs: seq<Course>): (r: seq<Course>)
    ensures |r| <= |cs|
  {
    if |cs| == 0 then []
    else
      var last := cs[|cs| - 1];
      Attempted(cs[..|cs| - 1]) + (if last.grade != Unset then [last] else [])
  }

  /** Some course has a grade exactly when the attempted list is non-empty. */
  lemma AttemptedNonEmptyIffSomeGraded(cs: seq<Course>)
    ensures Attempted(cs) != [] <==> SomeGraded(cs)
  {
    AttemptedMembers(cs);
    if Attempted(cs) != [] {
      var c := Attempted(cs)[0];
      assert c in Attempted(cs);
      var i :| 0 <= i < |cs| && cs[i] == c;
    }
    if SomeGraded(cs) {
      var i :| 0 <= i < |cs| && cs[i].grade != Unset;
      assert cs[i] in cs;
    }
  }

  /** The attempted courses are exactly the courses that have a grade. */
  lemma {:induction false} AttemptedMembers(cs: seq<Course>)
    ensures forall c :: c in Attempted(cs) <==> c in cs && c.grade != Unset
  {
    if |cs| > 0 {
      var n := |cs| - 1;
      AttemptedMembers(cs[..n]);
      assert cs == cs[..n] + [cs[n]];
      assert forall c :: c in cs <==> c in cs[..n] || c == cs[n];
    }
  }

  /** `reduce((acc, c) => acc + GRADE_POINTS[c.grade] * c.credits, 0)`, in hundredths. */
  function GradePointSum(cs: seq<Course>): (r: nat)
    ensures r <= 400 * CreditSum(cs)
  {
    if |cs| == 0 then 0
    else GradePointSum(cs[..|cs| - 1]) + GradePoints(cs[|cs| - 1].grade) * cs[|cs| - 1].credits
  }

  /** `summary`: present exactly in GPA mode with an active semester. */
  function ReportSummary(mode: Mode, activeSemester: Option<Semester>, stats: Stats): (r: Option<Summary>)
    ensures r.Some? <==> mode == GPA && activeSemester.Some?
    ensures r.Some? ==> r.value.secured == stats.secured
  {
    if mode == GPA && activeSemester.Some? then
      var cs := activeSemester.value.courses;
      var attempted := Attempted(cs);
      Some(Summary(CreditSum(cs), CreditSum(attempted), stats.secured, GradePointSum(attempted)))
    else
      None
  }

  /** Folding one more course onto the end adds its weighted grade points. */
  lemma GradePointSumSnoc(cs: seq<Course>, c: Course)
    ensures GradePointSum(cs + [c]) == GradePointSum(cs) + GradePoints(c.grade) * c.credits
  {
    assert (cs + [c])[..|cs|] == cs;
  }

  /** Filtering on the grade first and summing afterwards gives the scorecard's loop totals:
      the attempted credits are the secured credits and the points are the secured points. */
  lemma AttemptedMatchesSecured(cs: seq<Course>)
    ensures CreditSum(Attempted(cs)) == SecuredCredits(cs)
    ensures GradePointSum(Attempted(cs)) == SecuredPoints(cs)
  {
    AttemptedCreditsMatch(cs);
    AttemptedPointsMatch(cs);
  }

  /** The attempted credits are the secured credits. */
  lemma {:induction false} AttemptedCreditsMatch(cs: seq<Course>)
    ensures CreditSum(Attempted(cs)) == SecuredCredits(cs)
  {
    if |cs| > 0 {
      var n := |cs| - 1;
      var last := cs[n];
      AttemptedCreditsMatch(cs[..n]);
      var pre := Attempted(cs[..n]);
      GradedIffSet(last);
      if last.grade != Unset {
        assert Attempted(cs) == pre + [last];
        CreditSumSnoc(pre, last);
      } else {
        assert Attempted(cs) == pre + [];
        assert pre + [] == pre;
      }
    }
  }

  /** The attempted courses' points are the secured points. */
  lemma {:induction false} AttemptedPointsMatch(cs: seq<Course>)
    ensures GradePointSum(Attempted(cs)) == SecuredPoints(cs)
  {
    if |cs| > 0 {
      var n := |cs| - 1;
      var last := cs[n];
      AttemptedPointsMatch(cs[..n]);
      var pre := Attempted(cs[..n]);
      GradedIffSet(last);
      if last.grade != Unset {
        assert Attempted(cs) == pre + [last];
        GradePointSumSnoc(pre, last);
      } else {
        assert Attempted(cs) == pre + [];
        assert pre + [] == pre;
      }
    }
  }

  /** The summary agrees with the scorecard: `offered` is the semester's offered credits,
      `attempted` equals `secured` (so never exceeds `offered`) and `points` are the
      points behind the GPA. */
  lemma SummaryAgreesWithStats(st: AppState)
    requires st.mode == GPA && FindSemester(st.semesters, st.activeSemesterId).Some?
    ensures var active := FindSemester(st.semesters, st.activeSemesterId);
      var stats := StatsOf(st);
      var r := ReportSummary(GPA, active, stats);
      r.Some? && r.value.offered == stats.offered && r.value.attempted == stats.secured &&
      r.value.attempted <= r.value.offered && r.value.points == SecuredPoints(active.value.courses)
  {
    var active := FindSemester(st.semesters, st.activeSemesterId).value;
    AttemptedMatchesSecured(active.courses);
    SecuredAtMostOffered(active.courses);
  }

  // --------------------------------------------------------------- CGPA rows

  /** One row of the CGPA table; `points` is `manualCredits! * manualGPA!`, which is
      not a number (here `None`) when the GPA is absent. */
  datatype CgpaRow = CgpaRow(caption: string, credits: int, gpa: Option<real>, points: Option<real>)

  /** `(s.manualCredits || 0) > 0`. */
  predicate IsReported(s: Semester)
  {
    s.manualCredits.GetOr(0) > 0
  }

  /** The row printed for a reported semester. */
  function RowOf(s: Semester): (r: CgpaRow)
    ensures r.caption == s.caption && r.gpa == s.manualGPA
    ensures IsCounted(s) ==> r.credits == s.manualCredits.value
    ensures r.points.None? <==> s.manualGPA.None?
    ensures IsCounted(s) && s.manualGPA.Some? ==> r.points == Some(ManualPointContribution(s))
  {
    var credits := s.manualCredits.GetOr(0);
    var points := if s.manualGPA.Some? then Some((credits as real) * s.manualGPA.value) else None;
    assert IsCounted(s) && s.manualGPA.Some? ==> points == Some(ManualPointContribution(s)) by {
      if IsCounted(s) && s.manualGPA.Some? {
        var g, w := s.manualGPA.value, s.manualCredits.value as real;
        assert credits as real == w;
        assert w * g == g * w;
        assert ManualPointContribution(s) == g * w;
        assert points.value == w * g;
      }
    }
    CgpaRow(s.caption, credits, s.manualGPA, points)
  }

  /** `semesters.filter(s => (s.manualCredits || 0) > 0).map(...)`. */
  function CgpaRows(sems: seq<Semester>): (rows: seq<CgpaRow>)
    ensures |rows| <= |sems|
    ensures forall k :: 0 <= k < |rows| ==> rows[k].credits > 0
  {
    if |sems| == 0 then []
    else CgpaRows(sems[..|sems| - 1]) + (if IsReported(sems[|sems| - 1]) then [RowOf(sems[|sems| - 1])] else [])
  }

  /** The table's filter is the CGPA inclusion rule. */
  lemma ReportedIffCounted(s: Semester)
    ensures IsReported(s) <==> IsCounted(s)
  {
  }

  /** The rows keep the semesters' order: the rows of a concatenation are the rows of
      each part, one after the other. */
  lemma {:induction false} CgpaRowsAppend(xs: seq<Semester>, ys: seq<Semester>)
    ensures CgpaRows(xs + ys) == CgpaRows(xs) + CgpaRows(ys)
  {
    if |ys| == 0 {
      assert xs + ys == xs;
    } else {
      var n := |ys| - 1;
      assert (xs + ys)[..|xs + ys| - 1] == xs + ys[..n];
      CgpaRowsAppend(xs, ys[..n]);
    }
  }

  /** The sum of the credits column. */
  function RowCredits(rows: seq<CgpaRow>): int
  {
    if |rows| == 0 then 0 else RowCredits(rows[..|rows| - 1]) + rows[|rows| - 1].credits
  }

  /** The sum of the points column, when every row has a number there. */
  function RowPoints(rows: seq<CgpaRow>): Option<real>
  {
    if |rows| == 0 then Some(0.0)
    else
      var pre := RowPoints(rows[..|rows| - 1]);
      var p := rows[|rows| - 1].points;
      if pre.Some? && p.Some? then Some(pre.value + p.value) else None
  }

  /** The table has one row per counted semester and its credits column sums to the
      CGPA's total credit. */
  lemma {:induction false} CgpaRowsMatchStats(sems: seq<Semester>)
    ensures |CgpaRows(sems)| == CountedSemesters(sems) == OverallStatsOf(sems).secured
    ensures RowCredits(CgpaRows(sems)) == CountedCredits(sems) == OverallStatsOf(sems).offered
  {
    if |sems| > 0 {
      var n := |sems| - 1;
      CgpaRowsMatchStats(sems[..n]);
      var pre := CgpaRows(sems[..n]);
      if IsReported(sems[n]) {
        var rows := pre + [RowOf(sems[n])];
        assert rows[..|rows| - 1] == pre;
      } else {
        assert pre + [] == pre;
      }
    }
  }

  /** When every counted semester has a GPA, the points column sums to the CGPA's points. */
  lemma {:induction false} CgpaRowPointsMatchStats(sems: seq<Semester>)
    requires forall i :: 0 <= i < |sems| && IsCounted(sems[i]) ==> sems[i].manualGPA.Some?
    ensures RowPoints(CgpaRows(sems)) == Some(CountedPoints(sems))
  {
    if |sems| > 0 {
      var n := |sems| - 1;
      var front, s := sems[..n], sems[n];
      assert forall i :: 0 <= i < n ==> front[i] == sems[i];
      CgpaRowPointsMatchStats(front);
      var pre := CgpaRows(front);
      assert CountedPoints(sems) == CountedPoints(front) + ManualPointContribution(s);
      if IsReported(s) {
        RowPointsSnoc(pre, RowOf(s));
        assert CgpaRows(sems) == pre + [RowOf(s)];
      } else {
        assert CgpaRows(sems) == pre + [];
        assert pre + [] == pre;
      }
    }
  }

  /** Adding a row with a number in its points column adds that number to the sum. */
  lemma RowPointsSnoc(rows: seq<CgpaRow>, row: CgpaRow)
    requires RowPoints(rows).Some? && row.points.Some?
    ensures RowPoints(rows + [row]) == Some(RowPoints(rows).value + row.points.value)
  {
    assert (rows + [row])[..|rows|] == rows;
  }

  // --------------------------------------------------------------- file name

  /** The label used in the GPA file name: `activeSemester?.label || 'Result'`. */
  function FileLabel(activeSemester: Option<Semester>): (l: string)
    ensures l != ""
    ensures activeSemester.Some? && activeSemester.value.caption != "" ==> l == activeSemester.value.caption
    ensures activeSemester.None? || activeSemester.value.caption == "" ==> l == "Result"
  {
    if activeSemester.Some? && activeSemester.value.caption != "" then activeSemester.value.caption
    else "Result"
  }

  /** `fileName`. */
  function ReportFileName(mode: Mode, activeSemester: Option<Semester>): (name: string)
    ensures 4 <= |name| && name[|name| - 4..] == ".pdf"
    ensures mode == GPA ==> name == "GPA_Report_Semester_" + FileLabel(activeSemester) + ".pdf"
    ensures mode == CGPA ==> name == "CGPA_Summary_Report.pdf"
  {
    if mode == GPA then "GPA_Report_Semester_" + FileLabel(activeSemester) + ".pdf"
    else "CGPA_Summary_Report.pdf"
  }

  /** The GPA file name carries the semester label (or `Result`) between its fixed
      prefix and the extension, so the label can be read back from it. */
  lemma GpaFileNameCarriesLabel(activeSemester: Option<Semester>)
    ensures var name := ReportFileName(GPA, activeSemester);
      24 < |name| && name[..20] == "GPA_Report_Semester_" &&
      name[20..|name| - 4] == FileLabel(activeSemester)
  {
    var p, l := "GPA_Report_Semester_", FileLabel(activeSemester);
    var name := p + l + ".pdf";
    assert name[..20] == p;
    assert name[20..|name| - 4] == l;
  }

  /** Semesters with different non-empty labels get different GPA file names, and no GPA
      file name is the CGPA one. */
  lemma ReportFileNamesDistinct(s: Semester, t: Semester, u: Option<Semester>)
    requires s.caption != "" && t.caption != "" && s.caption != t.caption
    ensures ReportFileName(GPA, Some(s)) != ReportFileName(GPA, Some(t))
    ensures ReportFileName(GPA, u) != ReportFileName(CGPA, u)
  {
    GpaFileNameCarriesLabel(Some(s));
    GpaFileNameCarriesLabel(Some(t));
    var name := ReportFileName(GPA, u);
    assert name[0] == 'G';
    assert ReportFileName(CGPA, u)[0] == 'C';
  }
}
