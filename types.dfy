/** The data model of the calculator (types.ts): grades, courses, semesters
    and the application state, plus the credit fold every view shares. */
module Types {

  /** An optional value; `None` stands for a field that is absent or undefined. */
  datatype Option<+T> = None | Some(value: T) {
    /** The value, or `default` when absent (the source's `x || 0` on a number). */
    function GetOr(default: T): T {
      match this
      case Some(v) => v
      case None => default
    }
  }

  /** The two views of the calculator. */
  datatype Mode = GPA | CGPA

  /** The closed set of grades; `Unset` is the empty grade `''`. */
  datatype Grade = APlus | A | AMinus | BPlus | B | BMinus | CPlus | C | D | F | Unset

  /** A course of a semester; only its grade ever changes. */
  datatype Course = Course(id: string, code: string, title: string, credits: nat, grade: Grade)

  /** A semester: its courses and the optional manually entered credit total and GPA. */
  datatype Semester = Semester(
    id: string,
    caption: string,  // the source's `label` (a reserved word here)
    courses: seq<Course>,
    manualCredits: Option<int>,
    manualGPA: Option<real>)

  /** The whole application state that is rendered and persisted. */
  datatype AppState = AppState(mode: Mode, semesters: seq<Semester>, activeSemesterId: string)

  /** `courses.reduce((acc, c) => acc + c.credits, 0)`: a left fold, so it peels the last course. */
  function CreditSum(cs: seq<Course>): (r: nat)
    ensures forall i :: 0 <= i < |cs| ==> cs[i].credits <= r
    ensures r == 0 <==> forall i :: 0 <= i < |cs| ==> cs[i].credits == 0
  {
    if |cs| == 0 then 0
    else
      var n := |cs| - 1;
      assert forall i :: 0 <= i < n ==> cs[..n][i] == cs[i];
      CreditSum(cs[..n]) + cs[n].credits
  }

  /** Folding one more course onto the end adds its credits. */
  lemma CreditSumSnoc(cs: seq<Course>, c: Course)
    ensures CreditSum(cs + [c]) == CreditSum(cs) + c.credits
  {
    assert (cs + [c])[..|cs|] == cs;
  }

  /** The credit sum looks at credits only: lists with the same credits, position by
      position, have the same sum whatever their grades, ids or titles. */
  lemma {:induction false} CreditSumOnlyCredits(cs: seq<Course>, ds: seq<Course>)
    requires |cs| == |ds|
    requires forall i :: 0 <= i < |cs| ==> cs[i].credits == ds[i].credits
    ensures CreditSum(cs) == CreditSum(ds)
  {
    if |cs| > 0 {
      CreditSumOnlyCredits(cs[..|cs| - 1], ds[..|ds| - 1]);
    }
  }
}
