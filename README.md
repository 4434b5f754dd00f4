# Peer-evaluation backend: a verified model of its business rules

This project models the server-side rules of a web application in which
student teams publish project deliverables and anonymous juries of fellow
students grade them. A professor reads the results.

- **Trimmed grade average.** A deliverable's average drops one lowest and
  one highest grade once there are three grades or more. It is rounded to
  two decimals.
- **Project average.** It is a weighted mean when every graded deliverable
  has a weight, and a plain mean otherwise.
- **Random jury.** A Fisher–Yates shuffle of the eligible students,
  followed by a prefix.
- **Service checks.** The services check ownership, deadlines, grade
  ranges, the one-grade-per-evaluator rule, the one-jury-per-deliverable
  rule, the one-project-per-student rule and the 100% weight budget of a
  project.
- **Role guard.** The guard in front of the routes answers 401, answers
  403, or passes the request on.

Layout, one module per file:

| module | models |
|---|---|
| `Domain` | rows of the five tables, roles, error kinds, what `Number(x)` sees of an input |
| `Decimal` | two-decimal rounding (`toFixed(2)` on exact reals) and the values a DECIMAL(p,2) column holds |
| `Tables` | queries over tables (find by key, filter by foreign key, weight totals) and the schema constraints as predicates |
| `Database` | the class `Store`: one sequence per table and the autoincrement counters, with `Valid()` as invariant |
| `GradeCalculator` | `calculateAverageGrade` |
| `RandomSelector` | `shuffleArray` (an in-place loop over an array) and `selectRandomEvaluators` |
| `ProjectService`, `DeliverableService`, `JuryService`, `GradeService` | the four services |
| `RequireRole` | the `requireRole` middleware |

How the model stands in for the environment:

- State-changing service calls are methods on a `Store` object. Each
  keeps `Valid()`:
  - primary keys are unique and below their counter;
  - the unique (project, deliverable, evaluator) triples of the grades
    and jury-assignment tables hold;
  - every foreign key resolves: projects' owners and assignments'
    evaluators are registered users, deliverables and assignments point
    at existing projects and deliverables, and every grade has an
    assignment behind it (so its evaluator is a user too);
  - stored grades are two-decimal values in [1, 10];
  - stored weights are two-decimal values in [0, 100];
  - no project's weights add up to more than 100;
  - no student owns two projects.
- Each method states its whole new state in terms of the old one and of a
  check function. The check function computes the error in the order the
  code tests its guards.
- `new Date()` becomes a `now: int` parameter. Deadlines are plain
  integers.
- `Math.random()` becomes a sequence `draws` of indices. Draw i satisfies
  `draws[i] <= i`. `DrawsFromRandoms` shows how real numbers in [0, 1)
  give such indices through `Math.floor(r * (i + 1))`.
- Numbers are exact reals. `Round2` rounds half away from zero to two
  decimals. Writing a value to a DECIMAL column stores `Round2` of it.

## Model

| member | source | states |
|---|---|---|
| `Decimal.Round2` | backend/src/utils/gradeCalculator.js:17 | `toFixed(2)` read back by `parseFloat`: the result is a whole number of hundredths, within half a hundredth of the input, with the input's sign |
| `GradeCalculator.Sum` | backend/src/utils/gradeCalculator.js:16 | the `reduce` sum of a list of grades, from 0; it has no contract of its own, and `SumPermutation` and `MeanBetweenExtremes` state its properties |
| `GradeCalculator.MinOf` | backend/src/utils/gradeCalculator.js:20 | `Math.min(...values)` is one of the values and no value is below it |
| `GradeCalculator.MaxOf` | backend/src/utils/gradeCalculator.js:21 | `Math.max(...values)` is one of the values and no value is above it |
| `GradeCalculator.IndexOf` | backend/src/utils/gradeCalculator.js:24 | `indexOf` finds the first occurrence: the value is at that index and at no earlier one |
| `GradeCalculator.RemoveAt` | backend/src/utils/gradeCalculator.js:25 | `splice(i, 1)` leaves one element fewer, and its multiset loses exactly one copy of the removed element |
| `GradeCalculator.MaxSurvives` | backend/src/utils/gradeCalculator.js:24-27 | once the first minimum is removed, the maximum is still present, so the second `indexOf` finds it |
| `GradeCalculator.CalculateAverageGrade` | backend/src/utils/gradeCalculator.js:8-31 | the result is null exactly when there are no grades; otherwise it is a two-decimal number |
| `GradeCalculator.MeanBeforeRounding` | backend/src/utils/gradeCalculator.js:15-30 | the unrounded mean: the plain mean below three grades, the mean of the trimmed list from three on; no contract of its own, `MeanBetweenExtremes` bounds it |
| `GradeCalculator.Trimmed` | backend/src/utils/gradeCalculator.js:23-27 | the copy with the first minimum and then the first maximum spliced out; no contract of its own, `TrimmedDropsOneMinAndOneMax` and `TrimmedComesFromInput` state what it holds |
| `GradeCalculator.FewGradesArePlainMean` | backend/src/utils/gradeCalculator.js:15-18 | with one or two grades the result is their mean rounded to two decimals |
| `GradeCalculator.TrimmedDropsOneMinAndOneMax` | backend/src/utils/gradeCalculator.js:20-30 | from three grades on, the trimmed list has n − 2 values, its multiset is the input's minus one minimum and one maximum, and the result is its rounded mean |
| `GradeCalculator.TrimmedComesFromInput` | backend/src/utils/gradeCalculator.js:23-27 | every value that survives trimming is one of the input grades |
| `GradeCalculator.AllEqualGrades` | backend/src/utils/gradeCalculator.js:23-27 | when all n ≥ 3 grades are equal, two copies are removed, the mean before rounding is that grade, and a two-decimal grade is returned unchanged |
| `GradeCalculator.MinMaxOfPermutation` | backend/src/utils/gradeCalculator.js:20-21 | reordering the grades changes neither the minimum nor the maximum |
| `GradeCalculator.AverageIgnoresOrder` | backend/src/utils/gradeCalculator.js:20-27 | two grade lists with the same multiset have the same average |
| `GradeCalculator.SumPermutation` | backend/src/utils/gradeCalculator.js:16 | two lists with the same multiset have the same `reduce` sum |
| `GradeCalculator.MeanBetweenExtremes` | backend/src/utils/gradeCalculator.js:15-30 | before rounding, the average lies between the lowest and the highest grade |
| `GradeCalculator.AverageBetweenExtremes` | backend/src/utils/gradeCalculator.js:15-30 | the same bound before rounding; after rounding too, when the grades are non-negative two-decimal values |
| `GradeCalculator.SeededGradesAverage` | backend/src/utils/gradeCalculator.js:20-30 | the grades 9.5, 8.75, 9.0, 8.5, 9.25 that the seed script gives the first deliverable average to 9.00 |
| `GradeCalculator.TwoGradesAverage` | backend/src/utils/gradeCalculator.js:15-18 | the grades 5 and 7 average to 6.00 |
| `RandomSelector.Draw` | backend/src/utils/randomSelector.js:9 | `Math.floor(Math.random() * (i + 1))` is an index from 0 to i |
| `RandomSelector.DrawsFromRandoms` | backend/src/utils/randomSelector.js:8-9 | random numbers in [0, 1) give one valid draw per loop step |
| `RandomSelector.Swap` | backend/src/utils/randomSelector.js:10 | the destructuring swap exchanges positions i and j and keeps the length |
| `RandomSelector.SwapKeepsOthers` | backend/src/utils/randomSelector.js:10 | the swap leaves every other position as it was |
| `RandomSelector.ShuffleSteps` | backend/src/utils/randomSelector.js:8-11 | the loop from index i down to 1 keeps the length |
| `RandomSelector.Shuffled` | backend/src/utils/randomSelector.js:6-13 | the shuffle keeps the length |
| `RandomSelector.SwapPermutes` | backend/src/utils/randomSelector.js:10 | a swap keeps the multiset |
| `RandomSelector.ShuffleStepsPermutes` | backend/src/utils/randomSelector.js:8-11 | the loop keeps the multiset |
| `RandomSelector.ShuffledPermutes` | backend/src/utils/randomSelector.js:7-12 | `shuffleArray` returns a permutation of its input |
| `RandomSelector.ShuffleStepsKeepAbove` | backend/src/utils/randomSelector.js:8-11 | the steps from i downwards never touch the positions above i |
| `RandomSelector.ShuffleStepsUnfold` | backend/src/utils/randomSelector.js:8-11 | one loop step is a swap of i with its draw, followed by the rest of the loop |
| `RandomSelector.ShuffleInPlace` | backend/src/utils/randomSelector.js:8-11 | the descending loop of swaps over the array leaves it holding the shuffle of its old contents |
| `RandomSelector.ShuffleArray` | backend/src/utils/randomSelector.js:6-13 | the loop runs on a fresh array filled with a copy of the input; the result is the shuffle of the input and a permutation of it |
| `RandomSelector.Eligible` | backend/src/utils/randomSelector.js:24 | the eligible students are exactly the input students whose id is not excluded |
| `RandomSelector.SliceLength` | backend/src/utils/randomSelector.js:26 | `slice(0, count)` keeps min(count, n) elements for a non-negative count, never more than n, and max(n + count, 0) for a negative count, which counts back from the end |
| `RandomSelector.EligibleKeepsIdsUnique` | backend/src/utils/randomSelector.js:24 | filtering keeps ids distinct |
| `RandomSelector.ShuffleStepsKeepIdsUnique` | backend/src/utils/randomSelector.js:8-11 | shuffling keeps ids distinct |
| `RandomSelector.PrefixOfReordering` | backend/src/utils/randomSelector.js:25-26 | a prefix of a permutation takes each element at most as often as the original holds it |
| `RandomSelector.PrefixKeepsIdsUnique` | backend/src/utils/randomSelector.js:26 | a prefix keeps ids distinct |
| `RandomSelector.SelectRandomEvaluators` | backend/src/utils/randomSelector.js:23-27 | the result is the prefix of the shuffled eligible list that `slice(0, count)` keeps; none has an excluded id; all come from the input; distinct input ids give distinct output ids |
| `Tables.FindUser` | backend/src/services/projectService.js:20 | `findByPk` on users: the row with that id, or none exactly when no row has it |
| `Tables.FindProject` | backend/src/services/projectService.js:72-78 | `findByPk` on projects, with the same two directions |
| `Tables.FindDeliverable` | backend/src/services/deliverableService.js:107 | `findByPk` on deliverables, with the same two directions |
| `Tables.FindGrade` | backend/src/services/gradeService.js:81 | `findByPk` on grades gives the position of the row with that id, or none exactly when no row has it |
| `Tables.FindGradeByTriple` | backend/src/services/gradeService.js:49-55 | the grade of an (evaluator, project, deliverable) triple, or none exactly when no grade has that triple |
| `Tables.OwnsProject` | backend/src/services/projectService.js:25 | `Project.findOne({ where: { ownerId } })` finds a row: some project has that owner; a predicate, so no contract of its own |
| `Tables.HasAssignment` | backend/src/services/gradeService.js:23-29 | the assignment lookup on the (evaluator, project, deliverable) triple finds a row; a predicate, so no contract of its own |
| `Tables.EvaluatesProject` | backend/src/services/projectService.js:93-98 | the assignment lookup on (project, evaluator) finds a row: the user evaluates some deliverable of the project; a predicate, so no contract of its own |
| `Tables.DeliverablesOf` | backend/src/services/deliverableService.js:74-77 | `findAll({ where: { projectId } })`: exactly the project's deliverables |
| `Tables.AssignmentsFor` | backend/src/services/deliverableService.js:82-87 | exactly the assignments of a (project, deliverable) pair |
| `Tables.GradesFor` | backend/src/services/gradeService.js:130-136 | exactly the grades of a (project, deliverable) pair |
| `Tables.Filter` | backend/src/services/deliverableService.js:74-77 | the `where` clause of a `findAll`: at most as many rows, each row kept exactly when it was in the table and satisfies the clause, and no row more often than the table holds it |
| `Tables.Students` | backend/src/services/juryService.js:40-42 | exactly the users whose role is student |
| `Tables.TotalWeight` | backend/src/services/deliverableService.js:49-51 | the `reduce` over a project's weights, a null counting as 0; no contract of its own, `TotalWeightAppend` and `TotalWeightIsCents` state its properties |
| `Tables.WeightOrZero` | backend/src/services/deliverableService.js:50 | what one stored weight adds to the total, a null counting as 0; no contract of its own, `TotalWeightAppend` uses it |
| `Tables.TotalWeightAppend` | backend/src/services/deliverableService.js:49-51 | appending a deliverable adds its weight, null counting as 0, to its own project's total and leaves the other totals unchanged |
| `Tables.TotalWeightIsCents` | backend/src/services/deliverableService.js:49-51 | a total of stored DECIMAL(5,2) weights is a non-negative two-decimal number |
| `Tables.GradeAuthorsAreUsers` | backend/src/models/Grade.js:31-37 | every grade's evaluator is a registered user, since the grade has an assignment with that evaluator |
| `Database.Store.Valid` | backend/src/models/Project.js:7-19 | the store's invariant, the schema's constraints: unique primary keys below their counters, the unique triples, foreign keys from projects and evaluators to users and from deliverables, assignments and grades to projects and deliverables, stored grades and weights, the 100% budget and one project per student; a predicate, so it has no contract of its own |
| `Database.Store.constructor` | backend/src/migrate.js:26 | an empty store over the registered users satisfies every table constraint |
| `ProjectService.CreateProjectCheck` | backend/src/services/projectService.js:20-28 | passes exactly when the user exists, is a student, and owns no project; an unknown user gets the "only students" error |
| `ProjectService.CreateProject` | backend/src/services/projectService.js:19-37 | on success exactly one project with the next id and that owner is appended and nothing else changes; on failure nothing changes; the store stays valid, so one project per student holds |
| `ProjectService.GetAllProjects` | backend/src/services/projectService.js:46-60 | a professor gets every project; anyone else gets exactly the projects they own |
| `ProjectService.StudentSeesAtMostOneProject` | backend/src/services/projectService.js:57-59 | since owners are unique, a student's list has at most one entry, and has one exactly when the student owns a project |
| `ProjectService.GetProjectById` | backend/src/services/projectService.js:71-105 | not found exactly when no project has the id; otherwise access is granted exactly to a professor, the owner, or an evaluator holding an assignment on the project |
| `DeliverableService.ValidateWeight` | backend/src/services/deliverableService.js:33-41 | a missing or empty weight is "required"; a non-finite weight, one ≤ 0 or one > 100 is invalid; everything else passes unchanged |
| `DeliverableService.CreateDeliverableCheck` | backend/src/services/deliverableService.js:22-55 | passes exactly when the project exists, the caller owns it, the weight is valid and the existing total plus the weight is at most 100; an overflow reports the remaining budget rounded to two decimals |
| `DeliverableService.RoundedWeightFits` | backend/src/services/deliverableService.js:53-63 | a weight that fits the budget still fits once the DECIMAL(5,2) column rounds it |
| `DeliverableService.AppendKeepsBudget` | backend/src/services/deliverableService.js:53-63 | if every project's total is at most 100 before a fitting append, it is after |
| `DeliverableService.AppendKeepsTables` | backend/src/services/deliverableService.js:57-63 | appending a fitting deliverable with the next id keeps the deliverables table valid and every jury assignment's foreign key resolvable |
| `DeliverableService.CreateDeliverable` | backend/src/services/deliverableService.js:22-66 | on success exactly one deliverable is appended, with the weight as the column stores it; on failure nothing changes; the budget invariant is kept |
| `DeliverableService.InsertByDeadline` | backend/src/services/deliverableService.js:76 | insertion into a list adds exactly that deliverable to its multiset |
| `DeliverableService.InsertKeepsSorted` | backend/src/services/deliverableService.js:76 | insertion keeps a list in ascending deadline order |
| `DeliverableService.SortByDeadline` | backend/src/services/deliverableService.js:74-77 | `order: [['deadline', 'ASC']]` returns a permutation of its rows |
| `DeliverableService.SortByDeadlineSorts` | backend/src/services/deliverableService.js:74-77 | the sorted list is in ascending deadline order |
| `DeliverableService.InsertKeepsTies` | backend/src/services/deliverableService.js:76 | an inserted deliverable goes in front of every deliverable due at the same time, and the others due then keep their order |
| `DeliverableService.SortKeepsTiesInOrder` | backend/src/services/deliverableService.js:74-77 | the sort is stable: the deliverables due at any one time come out in table order |
| `DeliverableService.WithJury` | backend/src/services/deliverableService.js:80-95 | each row keeps its deliverable and carries the number of jury assignments for it, with `juryAssigned` true exactly when the count is positive |
| `DeliverableService.GetDeliverablesByProject` | backend/src/services/deliverableService.js:73-98 | the project's deliverables, as a permutation in ascending deadline order, each with its jury count and `juryAssigned` true exactly when the count is positive |
| `DeliverableService.ListsEveryDeliverable` | backend/src/services/deliverableService.js:73-98 | every deliverable of the project appears in the list |
| `DeliverableService.GetDeliverableById` | backend/src/services/deliverableService.js:106-114 | fails exactly for an unknown id; otherwise returns the row with that id |
| `JuryService.AssignJuryCheck` | backend/src/services/juryService.js:22-38 | passes exactly when the project exists, the deliverable exists in that project, and it has no assignment yet; a missing project is reported first |
| `JuryService.JuryBatch` | backend/src/services/juryService.js:56-64 | one assignment per selected evaluator, in order, for that project and deliverable, with consecutive ids |
| `JuryService.Pool` | backend/src/services/juryService.js:40-50 | the candidates are exactly the students other than the owner |
| `JuryService.AppendBatchKeepsKeys` | backend/src/models/JuryAssignment.js:43-47 | a batch for a pair that had no assignment, over distinct evaluators, keeps ids and triples unique |
| `JuryService.BatchKeepsAssignmentsOk` | backend/src/services/juryService.js:56-64 | a batch that passed the checks keeps the assignment table valid |
| `JuryService.BatchFromPool` | backend/src/services/juryService.js:40-64 | every assignment drawn from the pool has the right project and deliverable, is held by a student, and never by the owner |
| `JuryService.BatchKeepsUserKeys` | backend/src/models/JuryAssignment.js:31-37 | a batch for registered users keeps every assignment's evaluator a registered user |
| `JuryService.AddJury` | backend/src/services/juryService.js:56-64 | the batch is appended, the counter advances by its size, nothing else changes, and the store stays valid |
| `JuryService.AssignJury` | backend/src/services/juryService.js:21-70 | a failed check changes nothing; an empty selection fails and changes nothing; otherwise exactly one assignment per selected evaluator is appended, the count returned is that number, positive and at most `evaluatorCount` (5 by default), and no new assignment goes to the owner or to a non-student |
| `JuryService.AssignmentsOf` | backend/src/services/juryService.js:80-97 | exactly the evaluator's assignments |
| `JuryService.AssignedEntry` | backend/src/services/juryService.js:99-123 | the entry shows the assignment's project and deliverable columns; `existingGrade` is present exactly when a grade of that triple exists, and then shows that grade's id, value and time |
| `JuryService.GetAssignedProjects` | backend/src/services/juryService.js:77-127 | one entry per assignment of the evaluator, each as `AssignedEntry` describes it |
| `GradeService.ValidateGrade` | backend/src/services/gradeService.js:44-47 | a finite number from 1 to 10, both ends included, passes unchanged; anything else is out of range |
| `GradeService.SubmitGradeCheck` | backend/src/services/gradeService.js:23-59 | passes exactly when an assignment for exactly this triple exists, the deliverable exists, `now` is not after its deadline, the value is in range and the triple has no grade yet; a missing assignment is reported first |
| `GradeService.StoredGradeInRange` | backend/src/models/Grade.js:39-46 | a value in [1, 10] is still a valid DECIMAL(4,2) grade once rounded to two decimals |
| `GradeService.AppendGradeKeepsGradesOk` | backend/src/models/Grade.js:50-54 | appending a grade with the next id, a new triple, a stored value and an assignment keeps the grades table valid |
| `GradeService.SubmitGrade` | backend/src/services/gradeService.js:22-69 | on success exactly one grade is appended, stored with the rounded value and `now` as both timestamps, while the returned object holds the value as given; on failure nothing changes; the store stays valid |
| `GradeService.SubmitIsOneShot` | backend/src/services/gradeService.js:49-59 | once a triple has a grade, every further submit for it fails, as a duplicate when no earlier check fails first |
| `GradeService.UpdateGradeCheck` | backend/src/services/gradeService.js:81-103 | passes exactly when the grade exists, the caller is its author, its deliverable exists, `now` is not after the deadline and the new value is in range; an unknown grade is reported first |
| `GradeService.OnlyAuthorUpdates` | backend/src/services/gradeService.js:87-89 | a successful update was made by the grade's author |
| `GradeService.AuthorUpdatesUntilDeadline` | backend/src/services/gradeService.js:96-103 | the author can set any value in [1, 10] up to the deadline, the deadline itself included |
| `GradeService.ChangeValueKeepsGradesOk` | backend/src/services/gradeService.js:105-106 | changing one grade's value to a stored value, and its update time, keeps the grades table valid |
| `GradeService.UpdateGrade` | backend/src/services/gradeService.js:80-109 | on success only that grade changes, and only in its value and update time; on failure nothing changes; the store stays valid |
| `GradeService.Values` | backend/src/utils/gradeCalculator.js:13 | `grades.map(g => parseFloat(g.value))`: one value per grade, in order, each the grade's stored value |
| `GradeService.Views` | backend/src/services/gradeService.js:147-150 | each grade is shown by its value and creation time only, never by its evaluator |
| `GradeService.SummarizeDeliverable` | backend/src/services/gradeService.js:129-151 | the entry of a deliverable: its columns, its weight as stored, its grade count, its anonymous grade list, and the trimmed average of its grades, null exactly when it has none |
| `GradeService.DeliverableAverageInRange` | backend/src/services/gradeService.js:138 | over stored grades, a deliverable average lies between 1.00 and 10.00 |
| `GradeService.GradedOfComesFrom` | backend/src/services/gradeService.js:157 | each graded deliverable carries the average and the weight of one of the entries |
| `GradeService.GradedOfEmpty` | backend/src/services/gradeService.js:157-159 | there is no graded deliverable exactly when no entry has an average |
| `GradeService.GradedOfConcat` | backend/src/services/gradeService.js:157 | the filter distributes over concatenation |
| `GradeService.GradedOf` | backend/src/services/gradeService.js:157 | `summary.filter(d => d.averageGrade !== null)`: no longer than the summary; `GradedOfComesFrom`, `GradedOfEmpty` and `GradedOfConcat` state the rest |
| `GradeService.Averages` | backend/src/services/gradeService.js:175 | the graded deliverables' averages, one per deliverable, in order |
| `GradeService.SumWeights` | backend/src/services/gradeService.js:165 | `totalWeight`, a null counting as 0; no contract of its own, `WeightedBounds` relates it to the weighted sum |
| `GradeService.SumWeighted` | backend/src/services/gradeService.js:168-170 | `weightedSum`, the sum of average times weight; no contract of its own, `WeightedBounds` bounds it |
| `GradeService.AllWeighted` | backend/src/services/gradeService.js:161 | `every(d => d.weight !== null)`: every graded deliverable has a weight; a predicate, so no contract of its own |
| `GradeService.ProjectAverage` | backend/src/services/gradeService.js:155-183 | null exactly when nothing is graded, or every graded deliverable has a weight and the weights add up to at most 0; otherwise the rounded weighted mean when all graded deliverables have weights, and the rounded plain mean of their averages when one lacks a weight |
| `GradeService.WeightedBounds` | backend/src/services/gradeService.js:165-171 | with non-negative weights, the weighted sum lies between lo and hi times the total weight when every average does |
| `GradeService.ProjectAverageWithin` | backend/src/services/gradeService.js:155-183 | the project average lies within any two-decimal bounds of the deliverable averages |
| `GradeService.WeightedMeanWithin` | backend/src/services/gradeService.js:163-172 | the rounded weighted mean stays within such bounds |
| `GradeService.PlainMeanWithin` | backend/src/services/gradeService.js:173-177 | the rounded plain mean stays within such bounds |
| `GradeService.UngradedDeliverableIgnored` | backend/src/services/gradeService.js:157-161 | a deliverable without grades changes neither the project average nor the choice between weighted and plain mean, whatever its weight |
| `GradeService.WeightedExample` | backend/src/services/gradeService.js:163-172 | averages 8 and 6 with weights 40 and 60 give 6.80 |
| `GradeService.PlainMeanExample` | backend/src/services/gradeService.js:173-177 | when one graded deliverable lacks a weight, the average is the plain mean |
| `GradeService.ZeroWeightsExample` | backend/src/services/gradeService.js:165-167 | graded deliverables whose weights are all 0 give a null project average, not a plain mean |
| `GradeService.GetGradesSummary` | backend/src/services/gradeService.js:118-186 | fails exactly for an unknown project; otherwise shows its title, one summary per deliverable of the project, and the project average over them |
| `GradeService.UngradedDeliverableHasNoAverage` | backend/src/services/gradeService.js:130-138 | a deliverable of a project without grades has a null average |
| `GradeService.UngradedProjectHasNoAverage` | backend/src/services/gradeService.js:156-159 | a project nobody has graded has a null project average |
| `GradeService.SummaryAverageInRange` | backend/src/services/gradeService.js:155-183 | over a valid store, a project average lies between 1.00 and 10.00 |
| `RequireRole.RequireRole` | backend/src/middleware/requireRole.js:7-19 | exactly one outcome per request: no user gives 401, a role outside the allowed list gives 403, an allowed role passes |
| `RequireRole.StatusCode` | backend/src/middleware/requireRole.js:9-15 | the guard answers 401 or 403, or passes the request on with no answer |
| `RequireRole.NoRolesForbidsEveryone` | backend/src/middleware/requireRole.js:13-15 | with no allowed roles every authenticated user gets 403 |
| `RequireRole.MoreRolesNeverRemoveAccess` | backend/src/middleware/requireRole.js:13 | allowing more roles never takes access away and never changes who is unauthenticated |
| `RequireRole.SingleRoleGuards` | backend/src/middleware/requireRole.js:7-19 | a student-only guard passes exactly students, a professor-only guard passes exactly professors, and a guard allowing both roles passes everyone |

## Where the code and its description differ

The model follows the code in each case below.

- **Weights checked only on graded deliverables.** The weighted mean
  needs weights only on the graded deliverables
  (backend/src/services/gradeService.js:161). An ungraded deliverable
  without a weight does not force the plain mean. This is
  `UngradedDeliverableIgnored`.
- **Zero total weight.** When the total weight is 0, the project average
  stays null (backend/src/services/gradeService.js:167). It does not fall
  back to the plain mean. This is `ZeroWeightsExample`.
- **No default weight on the server.** The server rejects a missing or
  empty weight (backend/src/services/deliverableService.js:34). The
  "empty weight takes the remaining budget" default exists only in the
  browser.
- **Summary weights are not coerced to null.** Deliverable weights reach
  `getGradesSummary` as DECIMAL strings, so the test `d.weight ? … :
  null` turns only a null weight into null (line 144). A weight of 0
  therefore stays 0, and a set of such weights leads to the null average
  above.
- **Stored and returned values differ.** A grade or weight is stored
  rounded to its column's two decimals. The grade object that
  `submitGrade` and `updateGrade` return still holds the value as given.
  So a weight of 0.001 passes the check and is stored as 0.00.
  The same holds for deliverables: `createDeliverable` stores the weight
  rounded and returns the instance `Deliverable.create` built, which
  keeps the weight as given (33.333 is stored as 33.33 and returned as
  33.333).

## Left out

- The frontend is not part of this model. It only mirrors the server
  rules, and it holds the client-side default weight.
- Express controllers and routes are not part of this model. This
  includes the owner-only check in front of `assignJury`, the name and
  deadline presence checks, and the `parseFloat`/`parseInt` coercions of
  request fields. A request value reaches the services as a
  `NumericInput`: what `Number(x)` makes of it.
- Authentication (password hashing, JWT signing and verification) is a
  foreign call. The guard receives the authenticated user, or none.
- User registration is left out. The store starts from a list of
  registered users.
- Concurrency is left out: the `Promise.all` fan-outs and the
  read-then-write races between requests. Every call is modelled as
  sequential and atomic.
- IEEE-754 doubles are not modelled. Arithmetic is on exact reals, and
  `toFixed(2)` ties are rounded away from zero.
- The uniform distribution of the shuffle is not modelled. The random
  numbers are a parameter, and only their range is assumed.
- ORM includes (owner names and e-mails next to a project) are not
  modelled. The results carry the rows' own columns.
- `createdAt` and `updatedAt` are modelled only on grades, where the
  summary shows them. For the other tables they are left out.
- Deliverables with the same deadline come back in table order
  (`SortKeepsTiesInOrder`). The database may return such ties in any
  order; the model fixes one of them.
- `DeliverableNotInProject` covers both a missing deliverable and a
  deliverable of another project. The code reports the two with the same
  message.
- `GetAssignedProjects` requires that every assignment's project and
  deliverable exist. The store invariant guarantees this, and the code
  would fail on a dangling row anyway.
- `AssignJury` requires that `draws` hold a valid index for every user.
  The pool is never longer than the users table.
