/** The CGPA entry view (components/CGPAMode.tsx): which credit total each semester
    shows, and what editing a semester's GPA hands to `updateManual`. */
module CgpaMode {
  import opened Types
  import opened Constants
  import opened Aggregation
  import opened StateStore

  /** `s.courses?.reduce((acc, c) => acc + c.credits, 0) || 0`. */
  function CourseCredits(s: Semester): (n: nat)
    ensures s.courses == [] ==> n == 0
    ensures n == 0 <==> forall j :: 0 <= j < |s.courses| ==> s.courses[j].credits == 0
  {
    CreditSum(s.courses)
  }

  /** `courseCredits > 0 ? courseCredits : (s.manualCredits || 0)`: course credits win
      whenever there are any; otherwise the stored manual total is shown. */
  function DisplayCredits(s: Semester): (r: int)
    ensures CourseCredits(s) > 0 ==> r == CourseCredits(s)
    ensures CourseCredits(s) == 0 ==> r == s.manualCredits.GetOr(0)
    ensures s.manualCredits.GetOr(0) >= 0 ==> r >= 0
  {
    var n := CourseCredits(s);
    if n > 0 then n else s.manualCredits.GetOr(0)
  }

  /** `parseFloat(e.target.value) || 0`: `entered` is the parsed number, `None` when the
      input does not parse (NaN); NaN and 0 both become 0. */
  function ParsedGpa(entered: Option<real>): real
  {
    entered.GetOr(0.0)
  }

  /** The input's `onChange`: `updateManual(s.id, displayCredits, parseFloat(...) || 0)`. */
  function EditSemesterGpa(st: AppState, s: Semester, entered: Option<real>): (r: AppState)
    ensures r.mode == st.mode && r.activeSemesterId == st.activeSemesterId
    ensures |r.semesters| == |st.semesters|
    ensures forall i :: 0 <= i < |st.semesters| && st.semesters[i].id != s.id ==>
      r.semesters[i] == st.semesters[i]
    ensures forall i :: 0 <= i < |st.semesters| && st.semesters[i].id == s.id ==>
      var t := r.semesters[i];
      t.id == s.id && t.caption == st.semesters[i].caption && t.courses == st.semesters[i].courses &&
      t.manualCredits == Some(DisplayCredits(s)) &&
      (entered.None? ==> t.manualGPA == Some(0.0)) &&
      (entered.Some? ==> t.manualGPA == Some(entered.value))
  {
    UpdateManual(st, s.id, DisplayCredits(s), ParsedGpa(entered))
  }

  // ------------------------------------------------------------------ lemmas

  /** A semester without courses credits nothing, and so shows its manual total. */
  lemma NoCoursesShowsManual(s: Semester)
    requires s.courses == []
    ensures CourseCredits(s) == 0 && DisplayCredits(s) == s.manualCredits.GetOr(0)
  {
  }

  /** Editing the GPA of a semester whose course credits sum to more than 0 stores that
      sum as its manual credits, and the entered GPA as its manual GPA. */
  lemma EditStoresCourseCredits(st: AppState, i: nat, entered: Option<real>)
    requires i < |st.semesters| && CourseCredits(st.semesters[i]) > 0
    ensures var t := EditSemesterGpa(st, st.semesters[i], entered).semesters[i];
      t.manualCredits == Some(CreditSum(st.semesters[i].courses)) &&
      t.manualGPA == Some(ParsedGpa(entered)) && t.courses == st.semesters[i].courses
  {
  }

  /** The edited semester enters the CGPA exactly when the credits it shows are positive. */
  lemma EditCountsIffShownCreditsPositive(st: AppState, i: nat, entered: Option<real>)
    requires i < |st.semesters|
    ensures IsCounted(EditSemesterGpa(st, st.semesters[i], entered).semesters[i]) <==>
            DisplayCredits(st.semesters[i]) > 0
  {
  }

  /** The shown credits are a fixed point of the edit: after it the semester shows the
      same total, so each further keystroke passes the same credits again. */
  lemma EditKeepsShownCredits(st: AppState, i: nat, entered: Option<real>)
    requires i < |st.semesters|
    ensures DisplayCredits(EditSemesterGpa(st, st.semesters[i], entered).semesters[i]) ==
            DisplayCredits(st.semesters[i])
  {
    var s := st.semesters[i];
    var t := EditSemesterGpa(st, s, entered).semesters[i];
    assert t.courses == s.courses;
  }

  /** Two edits of the same semester leave the state of the second edit alone: the last
      value typed wins. */
  lemma LastEditWins(st: AppState, i: nat, first: Option<real>, second: Option<real>)
    requires i < |st.semesters|
    ensures var mid := EditSemesterGpa(st, st.semesters[i], first);
      EditSemesterGpa(mid, mid.semesters[i], second) == EditSemesterGpa(st, st.semesters[i], second)
  {
    var s := st.semesters[i];
    var mid := EditSemesterGpa(st, s, first);
    EditKeepsShownCredits(st, i, first);
    var a := EditSemesterGpa(mid, mid.semesters[i], second);
    var b := EditSemesterGpa(st, s, second);
    forall k | 0 <= k < |st.semesters| ensures a.semesters[k] == b.semesters[k] {
    }
    assert a.semesters == b.semesters;
  }

  /** When nothing is counted and a semester shows no positive credit total, editing
      its GPA keeps everything uncounted, and the CGPA card stays all zeros. */
  lemma UncountedEditKeepsZero(st: AppState, s: Semester, entered: Option<real>)
    requires forall i :: 0 <= i < |st.semesters| ==> !IsCounted(st.semesters[i])
    requires DisplayCredits(s) <= 0
    ensures var r := EditSemesterGpa(st, s, entered);
      OverallStatsOf(r.semesters) == OverallStatsOf(st.semesters) ==
      Stats(0.0, 2, 0, 0, "Total Credit", "Total Semester")
  {
    var r := EditSemesterGpa(st, s, entered);
    assert forall i :: 0 <= i < |r.semesters| ==> !IsCounted(r.semesters[i]);
    NoneCountedGivesZero(st.semesters);
    NoneCountedGivesZero(r.semesters);
  }

  /** In the seeded state, editing the GPA of any semester but 1.1 changes nothing in
      the CGPA: it has no courses and a zero manual total, so it stores 0 credits and
      stays excluded; the scorecard stays all zeros. */
  lemma SeededEmptySemesterNeverCounts(st: AppState, i: nat, entered: Option<real>)
    requires st.semesters == InitialSemesters && 1 <= i < |InitialSemesters|
    ensures EditSemesterGpa(st, st.semesters[i], entered).semesters[i].manualCredits == Some(0)
    ensures var r := EditSemesterGpa(st, st.semesters[i], entered);
      OverallStatsOf(r.semesters) == OverallStatsOf(st.semesters) ==
      Stats(0.0, 2, 0, 0, "Total Credit", "Total Semester")
  {
    InitialSemestersShape();
    InitialCoursesOnlyInFirst();
    var s := st.semesters[i];
    assert s.courses == [] && s.manualCredits == Some(0);
    NoCoursesShowsManual(s);
    UncountedEditKeepsZero(st, s, entered);
  }

  /** Dividing `g * w` by its positive factor `w` gives `g` back. */
  lemma ProductOverFactor(g: real, w: real)
    requires w > 0.0
    ensures g * w / w == g
  {
  }

  /** When nothing else is counted, a single counted semester's GPA is the CGPA. */
  lemma OnlyCountedSemesterGivesItsGpa(sems: seq<Semester>, k: nat, t: Semester)
    requires forall i :: 0 <= i < |sems| ==> !IsCounted(sems[i])
    requires k < |sems| && IsCounted(t)
    ensures OverallStatsOf(sems[k := t]) ==
      Stats(t.manualGPA.GetOr(0.0), 2, t.manualCredits.value, 1, "Total Credit", "Total Semester")
  {
    NoneCountedGivesZero(sems);
    ReplaceSemesterTotals(sems, k, t);
    var g, w := t.manualGPA.GetOr(0.0), t.manualCredits.value as real;
    assert CountedPoints(sems[k := t]) == g * w;
    ProductOverFactor(g, w);
  }

  /** In the seeded state, editing the GPA of 1.1 makes it the only counted semester,
      with its 19 course credits, so the CGPA is the GPA entered. */
  lemma SeededFirstSemesterGivesItsGpa(st: AppState, entered: Option<real>)
    requires st.semesters == InitialSemesters
    ensures var r := EditSemesterGpa(st, st.semesters[0], entered);
      OverallStatsOf(r.semesters) == Stats(ParsedGpa(entered), 2, 19, 1, "Total Credit", "Total Semester")
  {
    InitialSemestersShape();
    InitialCoursesOnlyInFirst();
    var sems := st.semesters;
    var t := sems[0].(manualCredits := Some(19), manualGPA := Some(ParsedGpa(entered)));
    var r := EditSemesterGpa(st, sems[0], entered);
    forall k | 0 <= k < |sems| ensures r.semesters[k] == sems[0 := t][k] {
      if k > 0 {
        assert sems[k].id == SemesterLabels[k] != "1.1";
      }
    }
    assert r.semesters == sems[0 := t];
    OnlyCountedSemesterGivesItsGpa(sems, 0, t);
  }
}
