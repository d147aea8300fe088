# GPA & CGPA calculator — verified model of the calculation engine

This project models the calculation core of a single-page GPA/CGPA
calculator (`src/App.jsx`, component `App`) and proves what it promises:

- the letter-grade table and its lookup;
- the semester GPA. It is a credit-weighted mean of grade points over the
  course rows that count, rounded to two decimals by `toFixed(2)`, or `null`
  when no row counts;
- the academic-standing ladder;
- the append-only semester archive, with its two ways in: saving the current
  semester and adding a semester by hand;
- the cumulative GPA over the archive, or `'N/A'` when it is empty;
- the three course-row list operations: edit a field, add a row, remove a row.

Modules, one per component:

| file | module | component |
|---|---|---|
| wrappers.dfy | `Wrappers` | `Option`: `None` is NaN, `null`, `''` or `'N/A'` |
| rounding.dfy | `Rounding` | `toFixed(2)` on exact reals (`Round2`) |
| grade_scale.dfy | `GradeScale` | grade table and lookup |
| standings.dfy | `Standings` | standing ladder |
| course_rows.dfy | `CourseRows` | course rows and their list operations |
| semester.dfy | `CurrentSemester` | semester totals and GPA |
| cumulative.dfy | `Cumulative` | archive entries and CGPA |
| calculator.dfy | `Calculator` | class `App`: the state slots and event handlers |

How the model maps the component:

- The `useState` slots are the fields of class `App`. Each event handler is a
  method.
- A handler that changes the rows ends by calling `CalculateCurrentGpa`. This
  stands in for the effect that recomputes the result whenever `courses`
  changes.
- `App.Valid()` is the invariant every handler keeps:
  - every archive entry has credits above zero and a GPA in [0, 4];
  - row ids are distinct and below the next id;
  - the shown GPA is `SemesterGpa(courses)`;
  - while a GPA is shown, the credit total and the standing match it.
- Numbers are exact reals. `Round2(x) = Floor(100·x + 1/2) / 100` is
  `toFixed(2)` for the non-negative values the calculator rounds.
  `Round2Unique` shows it is the nearest multiple of 0.01, ties going up.
- A parsed input is an `Option<real>`; `None` means `parseFloat` gave NaN.

Two behaviours of the code that a reader might not expect:

- When no row counts, the code clears only the GPA (`src/App.jsx:55-57`). The
  credit total and the standing keep their last values; they do not become 0.
- The cumulative GPA lies between the smallest and largest semester GPA only
  before rounding (`Cumulative.CgpaBetween`). A manually added GPA need not
  be a whole number of hundredths. After rounding, the CGPA lies between the
  roundings of those bounds.

## Model

| member | source | states |
|---|---|---|
| `Rounding.Round2` | src/App.jsx:51 | the result is a whole number of hundredths within half a hundredth of the input, ties rounding up |
| `Rounding.Round2Unique` | src/App.jsx:51 | those two properties determine the rounded value uniquely |
| `Rounding.Round2OfCents` | src/App.jsx:74 | parsing back a two-decimal value and rounding it again gives it back unchanged |
| `Rounding.Round2Monotone` | src/App.jsx:51 | rounding preserves order |
| `Rounding.Round2Between` | src/App.jsx:51 | rounding keeps a value inside an interval whose ends are two-decimal |
| `GradeScale.GradePoint` | src/App.jsx:32-34 | a key's point is its table value; any other letter gets 0; every point lies in [0, 4] |
| `GradeScale.TableInScale` | src/App.jsx:17-29 | every grade point of the table lies in [0, 4]; A is 4 and F is 0 |
| `GradeScale.LettersAreKeys` | src/App.jsx:17-29 | the table has exactly the eleven letters A … F |
| `GradeScale.PointsDescend` | src/App.jsx:17-29 | points fall strictly from A to F in table order |
| `Standings.Classify` | src/App.jsx:61-67 | the standing is the highest band whose inclusive lower bound the GPA reaches; no higher band is reached; total on all reals |
| `Standings.ClassifyMonotone` | src/App.jsx:61-67 | a higher GPA never gets a lower band |
| `Standings.ClassifyBoundaries` | src/App.jsx:61-67 | 3.67 gives Excellent and 3.66 Good; 1.0 gives Poor but passing and 0.99 Fail; likewise at 3.0 and 2.33 |
| `CourseRows.ApplyEdit` | src/App.jsx:120 | the named field takes the new value; every other field, id included, is kept |
| `CourseRows.UpdateById` | src/App.jsx:117-123 | same length and order; rows with the id are edited; all other rows are unchanged |
| `CourseRows.UpdateAbsent` | src/App.jsx:117-123 | editing an id no row carries changes nothing |
| `CourseRows.UpdateIdempotent` | src/App.jsx:117-123 | repeating an edit changes nothing more |
| `CourseRows.UpdatesCommute` | src/App.jsx:117-123 | edits of rows with different ids commute |
| `CourseRows.UpdateKeepsDistinct` | src/App.jsx:117-123 | editing keeps row ids distinct |
| `CourseRows.RemoveById` | src/App.jsx:131-133 | the filtered rows are never more than the rows |
| `CourseRows.RemoveKeepsExactly` | src/App.jsx:132 | a row is kept exactly when it was there and its id differs from the one removed |
| `CourseRows.RemoveAround` | src/App.jsx:132 | removing from rows around one row removes from each side and drops that row exactly when it carries the id |
| `CourseRows.RemoveAbsent` | src/App.jsx:132 | removing an id no row carries changes nothing |
| `CourseRows.RemoveDistributes` | src/App.jsx:132 | the filter works row by row over a concatenation, so the kept rows stay in order |
| `CourseRows.RemoveKeepsDistinct` | src/App.jsx:132 | removing keeps row ids distinct |
| `CourseRows.RemoveKeepsIdsBelow` | src/App.jsx:132 | removing keeps every id below the next id |
| `CourseRows.OnlyRowWith` | src/App.jsx:131-133 | with distinct ids, no row before or after row k carries row k's id |
| `CourseRows.RemoveLoneRow` | src/App.jsx:131-133 | when row k is the only row with its id, removing that id takes out row k alone |
| `CourseRows.RemoveUniqueRow` | src/App.jsx:131-133 | with distinct ids, removing row k's id gives exactly the rows before k followed by the rows after k |
| `CourseRows.RemoveOnlyThatRow` | src/App.jsx:131-133 | with distinct ids, removal takes out only the row with the id, or nothing when no row has it |
| `CourseRows.AddCourseAt` | src/App.jsx:126-128 | adding keeps the old rows as a prefix and appends one blank row stamped with the clock |
| `CourseRows.SameMillisecondRowsShareFate` | src/App.jsx:127 | two rows added in the same millisecond share an id, so removing one removes both and editing one edits both |
| `CurrentSemester.Counts` | src/App.jsx:44 | a row that counts has one of the eleven table letters as its grade |
| `CurrentSemester.SumCourses` | src/App.jsx:38-48 | the loop's two totals equal the points sum and the credit sum over the counting rows |
| `CurrentSemester.SumsBounded` | src/App.jsx:44-46 | both totals are non-negative, and points are at most 4 per credit |
| `CurrentSemester.CreditsPositiveIff` | src/App.jsx:44-50 | the credit total is positive exactly when some row has positive parsed credits and a known grade |
| `CurrentSemester.SumsAppend` | src/App.jsx:41-48 | the totals of two lists of rows, one after the other, add up |
| `CurrentSemester.RowContribution` | src/App.jsx:41-48 | a row adds exactly its own share wherever it stands; a row that does not count changes neither total; one that counts raises the credit total |
| `CurrentSemester.SemesterGpa` | src/App.jsx:37-58 | a result exists exactly when some row counts; it is two-decimal, lies in [0, 4], and is the credit-weighted mean rounded |
| `CurrentSemester.TwoCourseExample` | src/App.jsx:37-58 | 3 credits of A and 4 of B give 3.43 over 7 credits |
| `Cumulative.CreditSum` | src/App.jsx:101 | when every entry has positive credits, the total is positive exactly when the archive is non-empty |
| `Cumulative.Cgpa` | src/App.jsx:95-104 | no CGPA exactly when the archive is empty; otherwise a two-decimal value |
| `Cumulative.CalculateCgpa` | src/App.jsx:95-104 | the loop gives `'N/A'` exactly on an empty archive, and otherwise the weighted mean rounded |
| `Cumulative.WeightedSumBetween` | src/App.jsx:99-102 | if every GPA lies in [lo, hi], the weighted sum lies between lo and hi times the credit total |
| `Cumulative.CgpaBetween` | src/App.jsx:95-104 | the unrounded mean lies between any bounds on the semester GPAs, and the CGPA between their roundings |
| `Cumulative.CgpaInScale` | src/App.jsx:95-104 | on an archive of checked entries the CGPA lies in [0, 4] |
| `Cumulative.SumsAppend` | src/App.jsx:99-102 | the archive totals of two lists, one after the other, add up |
| `Cumulative.SumsSplit` | src/App.jsx:99-102 | a semester adds exactly its own share to each total, wherever it stands |
| `Cumulative.SumsPermutation` | src/App.jsx:99-102 | reordering the archive changes neither total |
| `Cumulative.CgpaPermutation` | src/App.jsx:95-104 | the CGPA does not depend on the order of the archive |
| `Calculator.App.constructor` | src/App.jsx:5-11 | one blank row, an empty archive, empty manual fields, no GPA, no standing, 0 credits; the invariant holds |
| `Calculator.App.DetermineAcademicStanding` | src/App.jsx:61-67 | the standing becomes the band of the given GPA; no other field changes |
| `Calculator.App.CalculateCurrentGpa` | src/App.jsx:37-58 | the shown GPA becomes the rows' GPA; with a result, the credit total and standing follow it; without one, both keep their old values |
| `Calculator.App.SaveCurrentSemester` | src/App.jsx:70-81 | with a GPA and non-zero credits, it appends {gpa, credits}, resets to one fresh blank row and clears GPA, standing and credits; otherwise nothing changes |
| `Calculator.App.AddManualSemester` | src/App.jsx:84-92 | appends {gpa, credits} and clears both fields exactly when both parse, credits > 0 and 0 ≤ gpa ≤ 4; otherwise nothing changes; the rows are untouched |
| `Calculator.App.SetNewSemesterGpa` | src/App.jsx:280 | typing sets the manual GPA field |
| `Calculator.App.SetNewSemesterCredits` | src/App.jsx:290 | typing sets the manual credits field |
| `Calculator.App.CalculateCgpa` | src/App.jsx:95-104 | the archive's CGPA: `'N/A'` exactly when it is empty, otherwise a value in [0, 4] |
| `Calculator.App.HandleInputChange` | src/App.jsx:117-123 | the rows become the edited rows; the result is recomputed; the invariant holds |
| `Calculator.App.AddCourse` | src/App.jsx:126-128 | appends one blank row with a fresh id; the result is unchanged; the invariant holds |
| `Calculator.App.RemoveCourse` | src/App.jsx:131-133 | the rows become the filtered rows; the result is recomputed; when no row counts any more, the credit total and standing keep their old values; the invariant holds |

## Left out

- Rendering, theming and the dark-mode switch (`src/App.jsx:159-391`) are presentation only.
- `exportToPDF` (`src/App.jsx:136-157`) is left out. It loads libraries dynamically, rasterises the page and calls `alert`, all of which are I/O and foreign calls.
- `scrollToTop` (`src/App.jsx:107-109`) is left out: it is a browser window call.
- React's update batching and effect timing are left out. Recomputation is an explicit call at the end of each handler that changes the rows.
- `Date.now()` row ids are replaced by the counter `nextId`. The clock collision this removes is recorded under Findings.
- IEEE-754 arithmetic is not modelled; numbers are exact reals. Float rounding can put a value that is exactly a half-hundredth on the other side, so the model's `Round2` can differ from `toFixed(2)` there.
- `parseFloat` on text is not modelled. A field holds the parsed value, with `None` for NaN. An empty field and text that is not a number are therefore the same state.
- Text that parses to `Infinity` is not modelled.
- The `status` labels in the grade table (`src/App.jsx:18-28`) feed no calculation. They also disagree with the standing ladder: "A−" is labelled Good but 3.67 classifies as Excellent. They are not modelled.
- Grade lookup: the model treats a grade as valid only when it is one of the table's own eleven keys. The grade comes from a selector offering exactly those keys or the empty choice. So inherited object properties such as `"constructor"`, which JavaScript lookup would also find, never reach the lookup.
- `handleInputChange` with a field name other than name, credits or grade is not modelled. It would add a new property to the row or, for `id`, replace the row's id. The interface never does this.

## Findings

| source | as written | input that shows it | evidently intended | confidence | as-written member | corrected member |
|---|---|---|---|---|---|---|
| src/App.jsx:127 | a new row's id is `Date.now()`, the time in milliseconds | two rows added within the same millisecond | each row has its own id, so removing or editing one row touches only that row | low (needs two additions in one millisecond); not executed | `CourseRows.SameMillisecondRowsShareFate` | `Calculator.App.AddCourse` |

With the clock ids, those two rows share one id. Removing one removes both,
and editing a field of one edits both. The model hands out ids from a
counter instead. `App.Valid()` keeps the ids distinct, and
`CourseRows.RemoveOnlyThatRow` proves that removal then takes out exactly one
row.
