/** The grade table and the seeded semester catalog (constants.tsx). */
module Constants {
  import opened Types

  /** GRADE_POINTS, in hundredths of a grade point (every entry is a multiple of 0.25). */
  const GradePointTable: map<Grade, nat> := map[
    APlus := 400, A := 375, AMinus := 350, BPlus := 325, B := 300, BMinus := 275,
    CPlus := 250, C := 225, D := 200, F := 0, Unset := 0]

  /** The letter grades a course can be given, best first (the grade selector's list). */
  const LetterGrades: seq<Grade> := [APlus, A, AMinus, BPlus, B, BMinus, CPlus, C, D, F]

  /** The table is a `Record<Grade, number>`: it has an entry for every grade. */
  lemma GradePointTableTotal()
    ensures forall g: Grade :: g in GradePointTable
  {
    forall g: Grade ensures g in GradePointTable {
      match g
      case APlus => case A => case AMinus => case BPlus => case B => case BMinus =>
      case CPlus => case C => case D => case F => case Unset =>
    }
  }

  /** The grade point of `g`, in hundredths: at most 4.00, and 0 for the unset grade. */
  function GradePoints(g: Grade): (p: nat)
    ensures p <= 400
    ensures g == Unset ==> p == 0
    ensures p % 25 == 0
  {
    GradePointTableTotal();
    GradePointTable[g]
  }

  /** A+ is the best grade and F (with the unset grade) the worst. */
  lemma GradePointExtremes(g: Grade)
    ensures GradePoints(F) == 0 <= GradePoints(g) <= GradePoints(APlus) == 400
    ensures GradePoints(g) == 400 <==> g == APlus
    ensures GradePoints(g) == 0 <==> g == F || g == Unset
  {
    match g
    case APlus => case A => case AMinus => case BPlus => case B => case BMinus =>
    case CPlus => case C => case D => case F => case Unset =>
  }

  /** Grade points strictly decrease along A+, A, A-, B+, B, B-, C+, C, D, F. */
  lemma LetterGradesStrictlyDecreasing(i: nat, j: nat)
    requires i < j < |LetterGrades|
    ensures GradePoints(LetterGrades[i]) > GradePoints(LetterGrades[j])
  {
  }

  /** The decimal digit for `d`. */
  function DigitChar(d: nat): (ch: char)
    requires d < 10
    ensures ch as int == '0' as int + d
  {
    ('0' as int + d) as char
  }

  /** The decimal rendering of `n`, as a template literal prints it. */
  function NatToString(n: nat): (s: string)
    ensures 1 <= |s|
    ensures n < 10 <==> |s| == 1
  {
    if n < 10 then [DigitChar(n)] else NatToString(n / 10) + [DigitChar(n % 10)]
  }

  /** Distinct numbers print differently. */
  lemma {:induction false} NatToStringInjective(m: nat, n: nat)
    requires NatToString(m) == NatToString(n)
    ensures m == n
  {
    if 10 <= m && 10 <= n {
      var sm, sn := NatToString(m), NatToString(n);
      assert sm[|sm| - 1] == DigitChar(m % 10) && sn[|sn| - 1] == DigitChar(n % 10);
      assert sm[..|sm| - 1] == NatToString(m / 10);
      assert sn[..|sn| - 1] == NatToString(n / 10);
      NatToStringInjective(m / 10, n / 10);
    } else if m < 10 && n < 10 {
      assert NatToString(m)[0] == DigitChar(m);
    }
  }

  /** The course data of a real semester (code, title, credits). */
  datatype CourseSeed = CourseSeed(code: string, title: string, credits: nat)

  /** The courses of the only semester with real data, 1.1. */
  const RealCourses: map<string, seq<CourseSeed>> := map["1.1" := [
    CourseSeed("0915 09 NFT1101", "Basic Nutrition", 3),
    CourseSeed("0531 09 NFT1102", "Fundamental Chemistry Practical", 1),
    CourseSeed("0531 09 NFT1103", "Inorganic and Physical Chemistry", 3),
    CourseSeed("0512 09 NFT1104", "Food Chemistry Practical", 1),
    CourseSeed("0512 09 NFT 1105", "Food Chemistry", 3),
    CourseSeed("0611 09 NFT 1106", "Computer Fundamental Practical", 1),
    CourseSeed("0611 09 NFT 1109", "Computer Fundamentals", 2),
    CourseSeed("0912 09 NFT 1107", "Human Anatomy and Physiology-I", 3),
    CourseSeed("0231 09 NFT 1111", "Communicative English", 2)]]

  /** `realCourses[semester] || []`. */
  function DefaultCourses(caption: string): seq<CourseSeed>
  {
    if caption in RealCourses then RealCourses[caption] else []
  }

  /** `createInitialCourses`: course `i` of semester `caption` copies the code, title and
      credits of catalog entry `i`, gets id `caption-i` and no grade. */
  function CreateInitialCourses(caption: string): (cs: seq<Course>)
    ensures |cs| == |DefaultCourses(caption)|
    ensures caption !in RealCourses ==> cs == []
    ensures forall i :: 0 <= i < |cs| ==>
      var c, d := cs[i], DefaultCourses(caption)[i];
      c.id == caption + "-" + NatToString(i) && c.grade == Unset &&
      c.code == d.code && c.title == d.title && c.credits == d.credits
  {
    var d := DefaultCourses(caption);
    seq(|d|, i requires 0 <= i < |d| =>
      Course(caption + "-" + NatToString(i), d[i].code, d[i].title, d[i].credits, Unset))
  }

  /** Ids of the form `caption-i` differ for different positions `i`. */
  lemma CourseIdsDistinct(caption: string, i: nat, j: nat)
    requires i != j
    ensures caption + "-" + NatToString(i) != caption + "-" + NatToString(j)
  {
    var p := caption + "-";
    var si, sj := p + NatToString(i), p + NatToString(j);
    assert si[|p|..] == NatToString(i);
    assert sj[|p|..] == NatToString(j);
    if si == sj {
      NatToStringInjective(i, j);
    }
  }

  /** The seeded course ids of a semester are pairwise distinct. */
  lemma InitialCourseIdsDistinct(caption: string, i: nat, j: nat)
    requires i < j < |CreateInitialCourses(caption)|
    ensures CreateInitialCourses(caption)[i].id != CreateInitialCourses(caption)[j].id
  {
    CourseIdsDistinct(caption, i, j);
  }

  /** The eight semester labels, in order. */
  const SemesterLabels: seq<string> := ["1.1", "1.2", "2.1", "2.2", "3.1", "3.2", "4.1", "4.2"]

  /** The seeded semester for `caption`: id and caption alike, manual fields zero. */
  function SeedSemester(caption: string): Semester
  {
    Semester(caption, caption, CreateInitialCourses(caption), Some(0), Some(0.0))
  }

  /** `labels.map(label => ...)`: one seeded semester per label, in order. */
  function SeedSemesters(labels: seq<string>): (r: seq<Semester>)
    ensures |r| == |labels|
    ensures forall i :: 0 <= i < |labels| ==> r[i] == SeedSemester(labels[i])
  {
    if |labels| == 0 then [] else [SeedSemester(labels[0])] + SeedSemesters(labels[1..])
  }

  /** INITIAL_SEMESTERS. */
  const InitialSemesters: seq<Semester> := SeedSemesters(SemesterLabels)

  /** Eight semesters in the order of the labels, each with id == caption and zero manual fields. */
  lemma InitialSemestersShape()
    ensures |InitialSemesters| == 8
    ensures forall i :: 0 <= i < 8 ==>
      InitialSemesters[i].id == InitialSemesters[i].caption == SemesterLabels[i] &&
      InitialSemesters[i].manualCredits == Some(0) && InitialSemesters[i].manualGPA == Some(0.0)
    ensures InitialSemesters[0].id == "1.1"
  {
  }

  /** Only semester 1.1 has courses: nine of them, 19 credits in all, none graded. */
  lemma InitialCoursesOnlyInFirst()
    ensures |InitialSemesters[0].courses| == 9
    ensures CreditSum(InitialSemesters[0].courses) == 19
    ensures forall c :: c in InitialSemesters[0].courses ==> c.grade == Unset
    ensures forall i :: 1 <= i < |InitialSemesters| ==> InitialSemesters[i].courses == []
  {
    assert InitialSemesters[0].courses == CreateInitialCourses("1.1");
    FirstSemesterCourses();
    forall i | 1 <= i < |InitialSemesters|
      ensures InitialSemesters[i].courses == []
    {
      assert SemesterLabels[i] !in RealCourses;
    }
  }

  /** The nine seeded courses of 1.1 carry 19 credits and no grade. */
  lemma FirstSemesterCourses()
    ensures |CreateInitialCourses("1.1")| == 9
    ensures CreditSum(CreateInitialCourses("1.1")) == 19
    ensures forall c :: c in CreateInitialCourses("1.1") ==> c.grade == Unset
  {
    var cs := CreateInitialCourses("1.1");
    var d := RealCourses["1.1"];
    assert DefaultCourses("1.1") == d;
    assert [d[0].credits, d[1].credits, d[2].credits, d[3].credits, d[4].credits,
            d[5].credits, d[6].credits, d[7].credits, d[8].credits] == [3, 1, 3, 1, 3, 1, 2, 3, 2];
    CreditSumPrefixes(cs);
  }

  /** The nine-course credit sum, one course at a time. */
  lemma CreditSumPrefixes(cs: seq<Course>)
    requires |cs| == 9
    ensures CreditSum(cs) == cs[0].credits + cs[1].credits + cs[2].credits + cs[3].credits +
      cs[4].credits + cs[5].credits + cs[6].credits + cs[7].credits + cs[8].credits
  {
    forall k | 0 <= k < 9
      ensures CreditSum(cs[..k + 1]) == CreditSum(cs[..k]) + cs[k].credits
    {
      assert cs[..k + 1][..k] == cs[..k];
    }
    assert CreditSum(cs[..1]) == cs[0].credits;
    assert CreditSum(cs[..3]) == cs[0].credits + cs[1].credits + cs[2].credits;
    assert CreditSum(cs[..5]) == CreditSum(cs[..3]) + cs[3].credits + cs[4].credits;
    assert CreditSum(cs[..7]) == CreditSum(cs[..5]) + cs[5].credits + cs[6].credits;
    assert CreditSum(cs[..9]) == CreditSum(cs[..7]) + cs[7].credits + cs[8].credits;
    assert cs[..9] == cs;
  }
}
