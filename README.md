# GPA / CGPA calculator — a verified model of its core

The calculator keeps a list of semesters. Each semester has courses (code, title,
credits, a letter grade or no grade) and an optional manual credit total and manual GPA.
It runs in one of two modes:

- **GPA mode** shows the active semester's GPA. The GPA is the credit-weighted mean of
  the grade points of its graded courses. The scorecard also shows the semester's
  offered and secured credits.
- **CGPA mode** shows the credit-weighted mean of the manual GPAs. Only semesters whose
  manual credit total is positive take part.

This model covers:

- the state updaters of `App.tsx`;
- the scorecard computation, with its two loops;
- the decision at startup whether to restore a saved state;
- the grade table and the seeded semester catalog of `constants.tsx`;
- the figures the downloadable report prints (`components/DownloadPDF.tsx`);
- the credit total that the CGPA entry view shows and stores (`components/CGPAMode.tsx`).

Modules:

- `Types`: the records of `types.ts`, plus the credit fold that every view shares.
- `Constants`: `GRADE_POINTS`, `createInitialCourses` and `INITIAL_SEMESTERS`.
- `Aggregation`: the scorecard (`stats`).
  - Each branch is specified by a function: `SemesterStatsOf` for GPA mode, `OverallStatsOf` for CGPA mode.
  - Each branch's loop is a method with a `while` loop proved equal to that function: `ComputeSemesterStats`, `ComputeOverallStats`.
  - Lemmas state bounds, the exact effects of one edit, and worked examples.
- `StateStore`: `updateGrade`, `resetSemesterGrades`, `updateManual` and the two setters. The source rebuilds the state with `map` and spread, so these are pure functions. Lemmas state what each updater keeps.
- `Persistence`: the restore decision, and the round trip of save followed by restore.
- `DownloadPdf`: `isActive`, `summary`, the CGPA table rows and `fileName`.
- `CgpaMode`: `courseCredits`, `displayCredits` and the `updateManual` call of the GPA input.

Numbers:

- Grade points are integers in hundredths of a point: 4.00 is `400`. Every table entry is
  a multiple of 0.25, so no value is lost.
- Course credits are natural numbers.
- A manual credit total is an `int`, so it can be any integer, including 0 or a negative number.
- GPAs and quotients are exact reals.
- The `toFixed` precision of a score is kept as `Stats.decimals`: 3 in GPA mode, 2 in CGPA mode.

The report's props are assumed to be the ones `App.tsx` would pass: its `find` result for the active semester and its `stats`. `App.tsx:149-190` neither imports nor mounts `DownloadPDF`. It passes `resetGrades` at `App.tsx:178`, but `GPAMode.tsx` neither declares nor uses that prop. So in the app as written, neither the report nor `resetSemesterGrades` can be reached from the UI. The model keeps both.

`App.tsx` has no operation that resets every semester's manual entries, so the model has
none. `constants.tsx:41-42` seeds eight semesters.

## Model

| member | source | states |
|---|---|---|
| Types.CreditSum | App.tsx:106 | The `reduce` of the credits is at least each course's credits. It is 0 exactly when every course has 0 credits. |
| Types.CreditSumOnlyCredits | App.tsx:106 | The offered-credit fold reads only credits. Two course lists with the same credits at each position have the same sum, whatever their grades or ids. |
| Constants.GradePoints | constants.tsx:5-17 | Every grade has an entry in the table. A point value is at most 4.00 and a multiple of 0.25. The empty grade is worth 0. |
| Constants.GradePointExtremes | constants.tsx:5-17 | A+ is the only grade worth 4.00. F and the empty grade are the only ones worth 0. Every grade lies between the two. |
| Constants.LetterGradesStrictlyDecreasing | components/GPAMode.tsx:14 | Along the selector's list A+, A, A-, … , F, the grade points strictly decrease. |
| Constants.NatToString | constants.tsx:38 | The decimal rendering of an index is never empty. It is one digit long exactly when the index is below 10. |
| Constants.NatToStringInjective | constants.tsx:38 | Two indices with the same decimal rendering are equal. |
| Constants.CreateInitialCourses | constants.tsx:21-39 | A seeded course copies the code, title and credits of its catalog entry. It gets id `semester-i` and the empty grade. Semesters missing from the catalog get no courses. |
| Constants.InitialCourseIdsDistinct | constants.tsx:38 | The seeded course ids of a semester are pairwise distinct. |
| Constants.SeedSemesters | constants.tsx:41-49 | There is one seeded semester per label, in label order. |
| Constants.InitialSemestersShape | constants.tsx:41-49 | There are eight seeded semesters, 1.1 through 4.2. Each has id equal to its label, manual credits 0 and manual GPA 0. The first is 1.1. |
| Constants.InitialCoursesOnlyInFirst | constants.tsx:22-36 | Only 1.1 has courses: nine of them, 19 credits in all, none graded. Every other seeded semester has no courses. |
| Constants.FirstSemesterCourses | constants.tsx:23-33 | The catalog's 1.1 list seeds nine courses with 19 credits in all and no grade. |
| Aggregation.FindIndex | App.tsx:103 | The index returned is the first semester with the id, or the list length when there is none. |
| Aggregation.FindSemester | App.tsx:103 | `find` fails exactly when no semester has the id. Otherwise it returns the first semester with that id. |
| Aggregation.ComputeSemesterStats | App.tsx:106-124 | The GPA loop returns `SemesterStatsOf`. Offered is the credit sum. A course counts only when its grade is set and in the table; it then adds its credits and grade point times credits. The score is points / secured, or 0 when nothing is secured. |
| Aggregation.ComputeOverallStats | App.tsx:126-145 | The CGPA loop returns `OverallStatsOf`. A semester counts only when its manual credits are present and positive; it then adds `(manualGPA or 0) × credits` to the points, its credits to the total and 1 to the count. The score is points / credits, or 0 when there are no credits. |
| Aggregation.ComputeStats | App.tsx:101-147 | The scorecard selects the branch by mode. It gives the all-zero GPA card when the active id names no semester. |
| Aggregation.MissingActiveSemesterGivesZero | App.tsx:103-104 | In GPA mode, a missing active semester gives score 0, offered 0 and secured 0, at 3 decimals. |
| Aggregation.GpaStatsDescribeActiveSemester | App.tsx:103-124 | In GPA mode the figures are those of the first semester whose id is the active id. |
| Aggregation.GradedIffSet | App.tsx:111 | The table lookup in the loop's test never fails, so a course counts exactly when its grade is set. |
| Aggregation.SecuredAtMostOffered | App.tsx:106-115 | Secured credits never exceed offered credits. |
| Aggregation.PointsAtMostFourPerCredit | App.tsx:110-115 | The accumulated points are at most 4.00 per secured credit. |
| Aggregation.WeightedGpaBounds | App.tsx:117 | A weighted GPA with at most 4.00 per credit lies in [0, 4]. |
| Aggregation.SemesterStatsOf | App.tsx:106-124 | The GPA card's offered figure is the credit sum and its secured figure is at most that. The GPA lies in [0, 4] and is 0 when nothing is secured. It is shown at 3 decimals under the labels "Credit Offered" / "Credit Secured". |
| Aggregation.OverallStatsOf | App.tsx:126-145 | The CGPA card's credit total is positive exactly when its semester count is. The count is at most the credit total and at most the number of semesters. The CGPA is 0 when there are no credits. It is shown at 2 decimals under the labels "Total Credit" / "Total Semester". |
| Aggregation.StatsOf | App.tsx:101-147 | CGPA mode gives the CGPA card. GPA mode gives a card at 3 decimals with secured at most offered and a score in [0, 4], or the all-zero card when the active id names no semester. |
| Aggregation.NoGradesNothingSecured | App.tsx:110-117 | When no course has a grade, nothing is secured, there are no points and the GPA is 0. |
| Aggregation.ReplaceCourseTotals | App.tsx:110-115 | Replacing one course changes the secured credits and points by exactly the difference between the two courses' contributions. |
| Aggregation.UnsetRemovesContribution | App.tsx:110-115 | Clearing a graded course's grade lowers the secured credits by its credits, and the points by its grade point times its credits. |
| Aggregation.CountedCreditsIffSemesters | App.tsx:130-136 | The CGPA credit total is positive exactly when some semester is counted. The count is at most the credit total and at most the number of semesters. |
| Aggregation.NoneCountedGivesZero | App.tsx:126-138 | With no counted semester, the CGPA card shows 0 for the score, 0 credits and 0 semesters. |
| Aggregation.ReplaceSemesterTotals | App.tsx:130-136 | Replacing one semester changes the three CGPA totals by exactly the difference between the two semesters' contributions. |
| Aggregation.ExcludedGpaIrrelevant | App.tsx:131-132 | The manual GPA of a semester that is not counted has no effect on the CGPA card. |
| Aggregation.CountedPointsBounds | App.tsx:130-136 | When every counted GPA is in [0, 4], the points lie between 0 and 4 per counted credit. |
| Aggregation.OverallCgpaBounds | App.tsx:138 | When every counted GPA is in [0, 4], the CGPA lies in [0, 4]. |
| Aggregation.OneGradedOfTwoCourses | App.tsx:106-124 | Credits 3 and 3 with grades A+ and none give offered 6, secured 3 and GPA 4.000. |
| Aggregation.FailingGradeCountsWithZeroPoints | App.tsx:106-124 | Credits 3 with B and 1 with F give secured 4 and GPA 2.250: F counts with 0 points. |
| Aggregation.ZeroCreditSemesterSkipped | App.tsx:126-145 | Manual (3, 3.50) and (0, 4.00) give CGPA 3.50 over 3 credits and 1 semester: a zero-credit semester is skipped. |
| StateStore.UpdateGrade | App.tsx:68-79 | In every semester with the id, every course with the course id gets the new grade. Every other grade is kept. Nothing but grades changes. |
| StateStore.ResetSemesterGrades | App.tsx:81-92 | Every course of every semester with the id gets the empty grade. Nothing else changes. |
| StateStore.UpdateManual | App.tsx:94-99 | Every semester with the id gets both manual fields. Every other semester is unchanged, and so are ids, labels and courses. |
| StateStore.SetMode | App.tsx:168 | The mode is replaced and nothing else changes. |
| StateStore.SetActiveSemester | App.tsx:176 | The active id is replaced and is not checked. Nothing else changes. |
| StateStore.GradeEditKeepsOffered | App.tsx:68-92 | Grade edits and resets keep every semester's offered credits. |
| StateStore.SkeletonKeepsCgpaTotals | App.tsx:126-136 | Two semester lists that differ only in course grades have the same CGPA totals and the same CGPA card. |
| StateStore.GradeEditsKeepCgpa | App.tsx:68-92 | `updateGrade` and `resetSemesterGrades` never change the CGPA card. |
| StateStore.UpdateManualKeepsGpa | App.tsx:94-99 | `updateManual` never changes the GPA card. |
| StateStore.FindIndexSameIds | App.tsx:103 | The semester that `find` selects depends on the ids alone. |
| StateStore.UpdateGradeMissIsNoop | App.tsx:68-79 | When no semester with the id has the course id, `updateGrade` returns the same state. |
| StateStore.ResetMissIsNoop | App.tsx:81-92 | When no semester has the id, `resetSemesterGrades` returns the same state. |
| StateStore.UpdateManualMissIsNoop | App.tsx:94-99 | When no semester has the id, `updateManual` returns the same state. |
| StateStore.ResetIdempotent | App.tsx:81-92 | Resetting a semester twice is the same as resetting it once. |
| StateStore.ResetClearsSemesterGpa | App.tsx:81-92 | After a reset, that semester secures 0 credits and has GPA 0, and its offered credits are kept. |
| StateStore.SetUnknownActiveGivesZero | App.tsx:176 | Selecting an id that names no semester is accepted, and the GPA card then shows zeros. |
| StateStore.SetModeRoundTrip | App.tsx:168 | Switching the mode away and back gives the original state. |
| Persistence.ShapeIffEncoding | App.tsx:40 | The shape check accepts exactly the saved views of states with a non-empty active id. |
| Persistence.AcceptsIffEncoding | App.tsx:35-40 | A saved blob is accepted exactly when it is a non-empty string saved under version "1.0.2" that parses to the saved view of some state with a non-empty active id. |
| Persistence.Restore | App.tsx:27-49 | An accepted blob yields the parsed mode, semesters and active id. Anything else yields the seeded default. A state other than the default implies the saved version was exactly "1.0.2" and the active id is non-empty. |
| Persistence.DefaultStateShape | App.tsx:28-32 | The default is GPA mode with the eight seeded semesters and 1.1 active, which is the first semester. |
| Persistence.VersionMismatchGivesDefault | App.tsx:38 | A blob under any other version tag, or with no tag, is discarded. |
| Persistence.BadBlobGivesDefault | App.tsx:38-48 | A missing, empty, unparsable or ill-shaped blob gives the default. The shape checks are: a truthy value, an array of semesters and a truthy active id. |
| Persistence.Encode | App.tsx:53 | The saved view of a state carries its mode, its semesters array and its active id. It passes the shape check exactly when the active id is non-empty. |
| Persistence.RestoreRoundTrip | App.tsx:34-42 | Saving a state and restoring it under the same version gives the state back, provided its active id is non-empty. |
| Persistence.EmptyActiveIdNotRestored | App.tsx:40 | A saved state with an empty active id is not restored. |
| DownloadPdf.CanDownload | components/DownloadPDF.tsx:85-91 | In GPA mode the download is enabled exactly when there is an active semester and its attempted list is non-empty. |
| DownloadPdf.AttemptedNonEmptyIffSomeGraded | components/DownloadPDF.tsx:87 | Some course has a grade exactly when the summary's attempted list is non-empty. |
| DownloadPdf.SecuredCreditsEnableDownload | components/DownloadPDF.tsx:85-91 | In GPA mode, a semester that secures any credit enables the download. |
| DownloadPdf.ZeroCreditGradeEnablesDownload | components/DownloadPDF.tsx:87 | The converse fails. A graded 0-credit course enables the download while nothing is secured. |
| DownloadPdf.CgpaDownloadNeedsCountedSemester | components/DownloadPDF.tsx:89 | In CGPA mode, an enabled download implies a counted semester and a positive CGPA credit total. |
| DownloadPdf.CountedButNotDownloadable | components/DownloadPDF.tsx:89 | The download test is stricter than CGPA inclusion. A counted semester with GPA 0 does not enable the download. |
| DownloadPdf.Attempted | components/DownloadPDF.tsx:95 | The filter never yields more courses than it is given. |
| DownloadPdf.AttemptedMembers | components/DownloadPDF.tsx:95 | The attempted courses are exactly the courses that have a grade. |
| DownloadPdf.ReportSummary | components/DownloadPDF.tsx:93-107 | A summary exists exactly in GPA mode with an active semester. Its `secured` is the scorecard's. |
| DownloadPdf.GradePointSum | components/DownloadPDF.tsx:97 | The points of a list of courses are at most 4.00 per credit. |
| DownloadPdf.AttemptedCreditsMatch | components/DownloadPDF.tsx:95-96 | The attempted credits equal the scorecard loop's secured credits. |
| DownloadPdf.AttemptedPointsMatch | components/DownloadPDF.tsx:95-97 | The attempted points equal the scorecard loop's secured points. |
| DownloadPdf.AttemptedMatchesSecured | components/DownloadPDF.tsx:95-97 | Filtering on the grade and then summing gives the scorecard loop's secured credits and points. |
| DownloadPdf.SummaryAgreesWithStats | components/DownloadPDF.tsx:93-107 | The summary's offered figure is the scorecard's. Attempted equals secured, so it is at most offered. Points are the points behind the GPA. |
| DownloadPdf.ReportedIffCounted | components/DownloadPDF.tsx:191 | The table's row filter is exactly the CGPA inclusion rule. |
| DownloadPdf.CgpaRowsAppend | components/DownloadPDF.tsx:191 | The rows keep the order of the semesters. |
| DownloadPdf.CgpaRowsMatchStats | components/DownloadPDF.tsx:191-197 | There is one row per counted semester, and the credits column sums to the CGPA's total credit. |
| DownloadPdf.RowOf | components/DownloadPDF.tsx:192-197 | A row shows the semester's label and manual GPA, and a counted semester's credits. The points cell is NaN (`None`) exactly when the GPA is absent. Otherwise a counted semester's points equal its contribution to the CGPA points. |
| DownloadPdf.CgpaRows | components/DownloadPDF.tsx:191-197 | The table has no more rows than there are semesters, and every row has positive credits. |
| DownloadPdf.CgpaRowPointsMatchStats | components/DownloadPDF.tsx:191-197 | When every counted semester has a GPA, the points column sums to the CGPA's points. |
| DownloadPdf.FileLabel | components/DownloadPDF.tsx:28 | The label is the active semester's label when that is present and non-empty. Otherwise it is `Result`. It is never empty. |
| DownloadPdf.ReportFileName | components/DownloadPDF.tsx:27-29 | GPA mode gives `GPA_Report_Semester_<label>.pdf`. CGPA mode gives `CGPA_Summary_Report.pdf`. Every name ends in `.pdf`. |
| DownloadPdf.GpaFileNameCarriesLabel | components/DownloadPDF.tsx:28 | The GPA file name is the fixed prefix, the label and `.pdf`, so the label can be read back from it. |
| DownloadPdf.ReportFileNamesDistinct | components/DownloadPDF.tsx:27-29 | Different non-empty labels give different GPA file names. No GPA file name is the CGPA one. |
| CgpaMode.DisplayCredits | components/CGPAMode.tsx:43-44 | The shown total is the course-credit sum when that is positive, and the manual total (0 if absent) otherwise. It is non-negative whenever the manual total is. |
| CgpaMode.CourseCredits | components/CGPAMode.tsx:43 | A semester without courses has course credits 0. The sum is 0 exactly when every course has 0 credits. |
| CgpaMode.EditSemesterGpa | components/CGPAMode.tsx:73 | Every semester with the edited semester's id gets the shown credits and the entered GPA as its manual fields. Input that does not parse stores GPA 0. Every other semester, the mode and the active id are unchanged. |
| CgpaMode.NoCoursesShowsManual | components/CGPAMode.tsx:43-44 | A semester without courses has course credits 0 and shows its manual total. |
| CgpaMode.EditStoresCourseCredits | components/CGPAMode.tsx:73 | Editing the GPA of a semester whose course credits sum to more than 0 stores that sum as its manual credits, and the entered GPA as its manual GPA. |
| CgpaMode.EditCountsIffShownCreditsPositive | components/CGPAMode.tsx:73 | After the edit, the semester enters the CGPA exactly when the credits it showed were positive. |
| CgpaMode.EditKeepsShownCredits | components/CGPAMode.tsx:43-73 | The shown credits are a fixed point of the edit: they are the same after it. |
| CgpaMode.LastEditWins | components/CGPAMode.tsx:73 | Two GPA edits of a semester leave the state that the second edit alone gives. |
| CgpaMode.UncountedEditKeepsZero | components/CGPAMode.tsx:73 | When nothing is counted, editing the GPA of a semester that shows no positive credits keeps the CGPA card all zeros. |
| CgpaMode.SeededEmptySemesterNeverCounts | components/CGPAMode.tsx:43-73 | In the seeded state, editing the GPA of any semester other than 1.1 stores 0 credits. The CGPA card stays all zeros. |
| CgpaMode.OnlyCountedSemesterGivesItsGpa | App.tsx:126-145 | When one semester is counted and nothing else, its GPA is the CGPA, over its credits and 1 semester. |
| CgpaMode.SeededFirstSemesterGivesItsGpa | components/CGPAMode.tsx:73 | In the seeded state, editing 1.1's GPA makes the CGPA equal the entered GPA, over 19 credits and 1 semester. |

## Left out

- Rendering: the JSX of every component, the theme toggle and its stored preference, and Enter-key focus movement. Mounting in `index.tsx` is also left out. None of these affect the figures.
- PDF production: the element cloning, html2pdf and the `isDownloading` guard are browser I/O. Only the figures and the file name are modelled.
- Storage and JSON: `localStorage` and `JSON.parse` are not modelled.
  - `Persistence.Restore` takes the stored strings as parameters and the parser as a function parameter. A thrown exception is `None`.
  - The parsed value is reduced to the fields the shape check reads (semesters and active id), plus the mode that the accepted value carries into the state.
- Restored data is assumed to have the types of `types.ts`. The model cannot represent ill-typed fields: a grade outside the eleven values, a missing `courses` or `mode`, a non-string id.
- Negative course credits from a restored blob (such as `-3`) are not modelled, because course credits are natural numbers here while `types.ts:13` types them as `number`.
  - With a negative credit, the source can show secured credits above offered credits, or a GPA outside [0, 4].
  - `Aggregation.SecuredAtMostOffered` and the `0.0 <= r.score <= 4.0` clause of `Aggregation.SemesterStatsOf` hold only because credits cannot be negative.
- Fractional manual credits from a restored blob (such as `0.5`) are not modelled, because a manual credit total is an integer.
  - With fractional credits, the source can count 1 semester over 0.5 credits.
  - `Aggregation.CountedCreditsIffSemesters` and `Aggregation.OverallStatsOf` state that the count is at most the credit total. That holds only for integer credits.
- Floating point: sums, products and quotients are exact reals. Rounding by `toFixed` and `Math.round` is left out, and `toFixed`'s precision is kept as `Stats.decimals`. Scores are numbers here, not strings.
- EditSemesterGpa: `parseFloat` itself is not modelled. Its result is a parameter, with `None` for NaN.
- DownloadPdf.RowOf: the `toFixed(2)` text of a row is not modelled. Its number is.
- DownloadPdf.CgpaRowPointsMatchStats: it needs every counted semester to have a GPA. Where one has none, the source prints NaN (`None` here), and the column has no sum.
- Constants.NatToString: the template literal `${i}` is modelled only for natural numbers, which are the only values it receives.
- React's state batching and re-rendering are not modelled. Each updater is a function from the previous state, and every call is applied in order.
