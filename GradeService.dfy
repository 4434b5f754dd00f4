/** `GradeService`: submitting and updating an evaluator's grade, and the
    anonymous grade summary of a project with its overall average. */
module GradeService {
  import opened Domain
  import opened Decimal
  import opened Tables
  import opened Database
  import opened GradeCalculator

  // ---------------------------------------------------------------------
  // Submitting and updating a grade

  /** `Number(value)` and the range check shared by `submitGrade` and
      `updateGrade`: a finite number from 1 to 10, both ends included. */
  function ValidateGrade(value: NumericInput): (r: Result<real>)
    ensures r.Ok? <==> value.Finite? && 1.0 <= value.number <= 10.0
    ensures r.Ok? ==> r.value == value.number
    ensures r.Err? ==> r.error == GradeOutOfRange
  {
    if value.Finite? && 1.0 <= value.number <= 10.0 then Ok(value.number) else Err(GradeOutOfRange)
  }

  /** The checks `submitGrade` makes before inserting, in the order it makes
      them: an assignment for exactly this evaluator, project and
      deliverable; the deliverable exists; its deadline has not passed; the
      value is in range; the evaluator has no grade for it yet. */
  function SubmitGradeCheck(assignments: seq<JuryAssignment>, deliverables: seq<Deliverable>,
                            grades: seq<Grade>, evaluatorId: nat, projectId: nat, deliverableId: nat,
                            value: NumericInput, now: int): (r: Result<real>)
    ensures !HasAssignment(assignments, projectId, deliverableId, evaluatorId) ==> r == Err(NotAssigned)
    ensures r.Ok? <==>
      && HasAssignment(assignments, projectId, deliverableId, evaluatorId)
      && (exists d <- deliverables :: d.id == deliverableId)
      && now <= FindDeliverable(deliverables, deliverableId).value.deadline
      && ValidateGrade(value).Ok?
      && (forall g <- grades :: GradeTriple(g) != (projectId, deliverableId, evaluatorId))
    ensures r.Ok? ==> r.value == value.number
    ensures r == Err(DeadlinePassed) ==>
      FindDeliverable(deliverables, deliverableId).Some? && now > FindDeliverable(deliverables, deliverableId).value.deadline
    ensures r == Err(DuplicateGrade) ==>
      exists g <- grades :: GradeTriple(g) == (projectId, deliverableId, evaluatorId)
    ensures r.Err? ==> r.error in {NotAssigned, DeliverableNotFound, DeadlinePassed, GradeOutOfRange, DuplicateGrade}
  {
    if !HasAssignment(assignments, projectId, deliverableId, evaluatorId) then Err(NotAssigned)
    else
      var deliverable := FindDeliverable(deliverables, deliverableId);
      if deliverable.None? then Err(DeliverableNotFound)
      else if now > deliverable.value.deadline then Err(DeadlinePassed)
      else
        var checked := ValidateGrade(value);
        if checked.Err? then checked
        else if FindGradeByTriple(grades, projectId, deliverableId, evaluatorId).Some? then Err(DuplicateGrade)
        else checked
  }

  /** A value that passed the range check is stored in a DECIMAL(4,2)
      column, and its rounding still lies between 1.00 and 10.00. */
  lemma StoredGradeInRange(v: real)
    requires 1.0 <= v <= 10.0
    ensures GradeValueOk(Round2(v))
  {
    CentsFromInt(100);
    CentsFromInt(1000);
    Round2Between(1.0, v, 10.0);
  }

  /** A grade with the next id, a triple no grade has, a stored value and an
      assignment behind it keeps the constraints of the grades table. */
  lemma AppendGradeKeepsGradesOk(grades: seq<Grade>, assignments: seq<JuryAssignment>, next: nat, g: Grade)
    requires GradesOk(grades, assignments, next)
    requires g.id == next && forall x <- grades :: GradeTriple(x) != GradeTriple(g)
    requires GradeValueOk(g.value)
    requires HasAssignment(assignments, g.projectId, g.deliverableId, g.evaluatorId)
    ensures GradesOk(grades + [g], assignments, next + 1)
  {
    AppendFreshKey(grades, GradeId, next, g);
    AppendNewKey(grades, GradeTriple, g);
    assert forall x <- grades + [g] :: x in grades || x == g;
  }

  /** `submitGrade`: on success exactly one grade is appended, holding the
      value rounded to the column's two decimals and `now` as both
      timestamps; the grade returned holds the value as given, like the
      object `Grade.create` returns. */
  method SubmitGrade(db: Store, evaluatorId: nat, projectId: nat, deliverableId: nat,
                     value: NumericInput, now: int)
    returns (r: Result<Grade>)
    requires db.Valid()
    modifies db
    ensures db.Valid()
    ensures db.users == old(db.users) && db.projects == old(db.projects)
    ensures db.deliverables == old(db.deliverables) && db.assignments == old(db.assignments)
    ensures db.nextProjectId == old(db.nextProjectId)
    ensures db.nextDeliverableId == old(db.nextDeliverableId) && db.nextAssignmentId == old(db.nextAssignmentId)
    ensures var check := SubmitGradeCheck(old(db.assignments), old(db.deliverables), old(db.grades),
                                          evaluatorId, projectId, deliverableId, value, now);
      if check.Err? then
        && r == Err(check.error)
        && db.grades == old(db.grades) && db.nextGradeId == old(db.nextGradeId)
      else
        && r == Ok(Grade(old(db.nextGradeId), projectId, deliverableId, evaluatorId, check.value, now, now))
        && db.grades == old(db.grades) + [r.value.(value := Round2(check.value))]
        && db.nextGradeId == old(db.nextGradeId) + 1
  {
    var check := SubmitGradeCheck(db.assignments, db.deliverables, db.grades,
                                  evaluatorId, projectId, deliverableId, value, now);
    if check.Err? {
      return Err(check.error);
    }
    var g := Grade(db.nextGradeId, projectId, deliverableId, evaluatorId, Round2(check.value), now, now);
    assert GradesOk(db.grades + [g], db.assignments, db.nextGradeId + 1) by {
      StoredGradeInRange(check.value);
      AppendGradeKeepsGradesOk(db.grades, db.assignments, db.nextGradeId, g);
    }
    db.grades := db.grades + [g];
    db.nextGradeId := db.nextGradeId + 1;
    r := Ok(g.(value := check.value));
  }

  /** Once an evaluator has a grade for a deliverable, every further submit
      for the same triple fails, whatever the value and the time; while the
      earlier checks pass, it fails as a duplicate. */
  lemma SubmitIsOneShot(assignments: seq<JuryAssignment>, deliverables: seq<Deliverable>, grades: seq<Grade>,
                        g: Grade, value: NumericInput, now: int)
    requires g in grades
    ensures var check := SubmitGradeCheck(assignments, deliverables, grades,
                                          g.evaluatorId, g.projectId, g.deliverableId, value, now);
      && check.Err?
      && (check.error !in {NotAssigned, DeliverableNotFound, DeadlinePassed, GradeOutOfRange} ==>
            check.error == DuplicateGrade)
  {
  }

  /** The checks `updateGrade` makes before saving, in the order it makes
      them: the grade exists; the caller gave it; its deliverable exists;
      the deadline has not passed; the new value is in range. */
  function UpdateGradeCheck(grades: seq<Grade>, deliverables: seq<Deliverable>, gradeId: nat,
                            evaluatorId: nat, newValue: NumericInput, now: int): (r: Result<real>)
    ensures (forall g <- grades :: g.id != gradeId) ==> r == Err(GradeNotFound)
    ensures r.Ok? <==>
      && FindGrade(grades, gradeId).Some?
      && grades[FindGrade(grades, gradeId).value].evaluatorId == evaluatorId
      && FindDeliverable(deliverables, grades[FindGrade(grades, gradeId).value].deliverableId).Some?
      && now <= FindDeliverable(deliverables, grades[FindGrade(grades, gradeId).value].deliverableId).value.deadline
      && ValidateGrade(newValue).Ok?
    ensures r.Ok? ==> r.value == newValue.number
    ensures r == Err(NotGradeAuthor) ==> exists g <- grades :: g.id == gradeId && g.evaluatorId != evaluatorId
    ensures r.Err? ==> r.error in {GradeNotFound, NotGradeAuthor, DeliverableNotFound, DeadlinePassed, GradeOutOfRange}
  {
    var found := FindGrade(grades, gradeId);
    if found.None? then Err(GradeNotFound)
    else
      var grade := grades[found.value];
      if grade.evaluatorId != evaluatorId then
        assert grade in grades;
        Err(NotGradeAuthor)
      else
        var deliverable := FindDeliverable(deliverables, grade.deliverableId);
        if deliverable.None? then Err(DeliverableNotFound)
        else if now > deliverable.value.deadline then Err(DeadlinePassed)
        else ValidateGrade(newValue)
  }

  /** Only the author of a grade can update it. */
  lemma OnlyAuthorUpdates(grades: seq<Grade>, deliverables: seq<Deliverable>, gradeId: nat,
                          evaluatorId: nat, newValue: NumericInput, now: int, g: Grade)
    requires KeysUnique(grades, GradeId)
    requires g in grades && g.id == gradeId
    requires UpdateGradeCheck(grades, deliverables, gradeId, evaluatorId, newValue, now).Ok?
    ensures g.evaluatorId == evaluatorId
  {
    var i := FindGrade(grades, gradeId).value;
    KeyIdentifies(grades, GradeId, g, grades[i]);
  }

  /** The author of a grade can update it with any value in range until the
      deadline of its deliverable, the deadline itself included. */
  lemma AuthorUpdatesUntilDeadline(grades: seq<Grade>, deliverables: seq<Deliverable>, g: Grade,
                                   d: Deliverable, newValue: real, now: int)
    requires KeysUnique(grades, GradeId) && KeysUnique(deliverables, DeliverableId)
    requires g in grades && d in deliverables && d.id == g.deliverableId
    requires now <= d.deadline && 1.0 <= newValue <= 10.0
    ensures UpdateGradeCheck(grades, deliverables, g.id, g.evaluatorId, Finite(newValue), now) == Ok(newValue)
  {
    var i := FindGrade(grades, g.id).value;
    KeyIdentifies(grades, GradeId, g, grades[i]);
    var found := FindDeliverable(deliverables, d.id).value;
    KeyIdentifies(deliverables, DeliverableId, d, found);
  }

  /** Changing a grade's value to a stored value, and its update time,
      keeps the constraints of the grades table. */
  lemma ChangeValueKeepsGradesOk(grades: seq<Grade>, assignments: seq<JuryAssignment>, next: nat,
                                 i: nat, v: real, t: int)
    requires GradesOk(grades, assignments, next)
    requires i < |grades| && GradeValueOk(v)
    ensures GradesOk(grades[i := grades[i].(value := v, updatedAt := t)], assignments, next)
  {
    var s := grades[i := grades[i].(value := v, updatedAt := t)];
    assert forall k :: 0 <= k < |s| ==> GradeId(s[k]) == GradeId(grades[k]) && GradeTriple(s[k]) == GradeTriple(grades[k]);
    forall x <- s
      ensures GradeValueOk(x.value) && HasAssignment(assignments, x.projectId, x.deliverableId, x.evaluatorId)
    {
      var k :| 0 <= k < |s| && s[k] == x;
      if k != i {
        assert grades[k] in grades;
      } else {
        assert grades[i] in grades;
      }
    }
  }

  /** `updateGrade`: on success only that grade changes, and only in its
      value (rounded to two decimals where it is stored) and its update
      time. */
  method UpdateGrade(db: Store, gradeId: nat, evaluatorId: nat, newValue: NumericInput, now: int)
    returns (r: Result<Grade>)
    requires db.Valid()
    modifies db
    ensures db.Valid()
    ensures db.users == old(db.users) && db.projects == old(db.projects)
    ensures db.deliverables == old(db.deliverables) && db.assignments == old(db.assignments)
    ensures db.nextProjectId == old(db.nextProjectId) && db.nextDeliverableId == old(db.nextDeliverableId)
    ensures db.nextAssignmentId == old(db.nextAssignmentId) && db.nextGradeId == old(db.nextGradeId)
    ensures var check := UpdateGradeCheck(old(db.grades), old(db.deliverables), gradeId, evaluatorId, newValue, now);
      if check.Err? then
        r == Err(check.error) && db.grades == old(db.grades)
      else
        var i := FindGrade(old(db.grades), gradeId).value;
        && r == Ok(old(db.grades)[i].(value := check.value, updatedAt := now))
        && db.grades == old(db.grades)[i := old(db.grades)[i].(value := Round2(check.value), updatedAt := now)]
  {
    var check := UpdateGradeCheck(db.grades, db.deliverables, gradeId, evaluatorId, newValue, now);
    if check.Err? {
      return Err(check.error);
    }
    var i := FindGrade(db.grades, gradeId).value;
    var grade := db.grades[i];
    assert GradesOk(db.grades[i := grade.(value := Round2(check.value), updatedAt := now)],
                    db.assignments, db.nextGradeId) by {
      StoredGradeInRange(check.value);
      ChangeValueKeepsGradesOk(db.grades, db.assignments, db.nextGradeId, i, Round2(check.value), now);
    }
    db.grades := db.grades[i := grade.(value := Round2(check.value), updatedAt := now)];
    r := Ok(grade.(value := check.value, updatedAt := now));
  }

  // ---------------------------------------------------------------------
  // The grade summary of a project

  /** A grade as the summary shows it: its value and when it was given, and
      nothing that names the evaluator. */
  datatype GradeView = GradeView(value: real, submittedAt: int)

  /** One deliverable of the summary. */
  datatype DeliverableSummary = DeliverableSummary(
    deliverableId: nat, deliverableName: string, deadline: int, weight: Option<real>,
    gradesCount: nat, averageGrade: Option<real>, grades: seq<GradeView>)

  datatype ProjectSummary = ProjectSummary(
    projectId: nat, projectTitle: string, projectAverage: Option<real>, deliverables: seq<DeliverableSummary>)

  function Values(gs: seq<Grade>): (vs: seq<real>)
    ensures |vs| == |gs| && forall k :: 0 <= k < |gs| ==> vs[k] == gs[k].value
  {
    seq(|gs|, k requires 0 <= k < |gs| => gs[k].value)
  }

  /** `grades.map(g => ({ value, submittedAt: g.createdAt }))`. */
  function Views(gs: seq<Grade>): (vs: seq<GradeView>)
    ensures |vs| == |gs| && forall k :: 0 <= k < |gs| ==> vs[k] == GradeView(gs[k].value, gs[k].createdAt)
  {
    seq(|gs|, k requires 0 <= k < |gs| => GradeView(gs[k].value, gs[k].createdAt))
  }

  /** The summary of one deliverable: its columns, the weight as stored (a
      DECIMAL column reaches the service as a string, so only a null weight
      is shown as null), and the project's grades for it, in table order,
      with their trimmed average. A deliverable has an average exactly when
      it has grades. */
  function SummarizeDeliverable(grades: seq<Grade>, projectId: nat, d: Deliverable): (e: DeliverableSummary)
    ensures e.deliverableId == d.id && e.deliverableName == d.name && e.deadline == d.deadline
    ensures e.weight == d.weight
    ensures e.gradesCount == |e.grades| == |GradesFor(grades, projectId, d.id)|
    ensures e.grades == Views(GradesFor(grades, projectId, d.id))
    ensures e.averageGrade.None? <==> e.gradesCount == 0
    ensures e.averageGrade == CalculateAverageGrade(Values(GradesFor(grades, projectId, d.id)))
  {
    var mine := GradesFor(grades, projectId, d.id);
    DeliverableSummary(d.id, d.name, d.deadline, d.weight, |mine|, CalculateAverageGrade(Values(mine)), Views(mine))
  }

  /** Stored grades give a deliverable average between 1.00 and 10.00. */
  lemma DeliverableAverageInRange(grades: seq<Grade>, projectId: nat, d: Deliverable)
    requires forall g <- grades :: GradeValueOk(g.value)
    ensures var e := SummarizeDeliverable(grades, projectId, d);
      e.averageGrade.Some? ==> 1.0 <= e.averageGrade.value <= 10.0
  {
    var vs := Values(GradesFor(grades, projectId, d.id));
    if |vs| > 0 {
      assert forall x <- vs :: GradeValueOk(x) by {
        forall x <- vs ensures GradeValueOk(x) {
          var k :| 0 <= k < |vs| && vs[k] == x;
          assert GradesFor(grades, projectId, d.id)[k] in GradesFor(grades, projectId, d.id);
        }
      }
      AverageBetweenExtremes(vs);
    }
  }

  /** A graded deliverable: its average and its weight. */
  datatype Graded = Graded(average: real, weight: Option<real>)

  /** `summary.filter(d => d.averageGrade !== null)`. */
  function GradedOf(entries: seq<DeliverableSummary>): (gs: seq<Graded>)
    ensures |gs| <= |entries|
  {
    if entries == [] then []
    else
      var rest := GradedOf(entries[1..]);
      if entries[0].averageGrade.Some? then [Graded(entries[0].averageGrade.value, entries[0].weight)] + rest
      else rest
  }

  /** Each graded deliverable comes from an entry with that average and
      that weight. */
  lemma {:induction false} GradedOfComesFrom(entries: seq<DeliverableSummary>)
    ensures forall x <- GradedOf(entries) :: exists e <- entries :: e.averageGrade == Some(x.average) && e.weight == x.weight
  {
    if entries != [] {
      GradedOfComesFrom(entries[1..]);
      assert forall e <- entries[1..] :: e in entries;
    }
  }

  /** Nothing is graded exactly when no entry has an average. */
  lemma {:induction false} GradedOfEmpty(entries: seq<DeliverableSummary>)
    ensures |GradedOf(entries)| == 0 <==> forall e <- entries :: e.averageGrade.None?
  {
    if entries != [] {
      GradedOfEmpty(entries[1..]);
      assert forall e <- entries :: e == entries[0] || e in entries[1..];
    }
  }

  lemma {:induction false} GradedOfConcat(a: seq<DeliverableSummary>, b: seq<DeliverableSummary>)
    ensures GradedOf(a + b) == GradedOf(a) + GradedOf(b)
  {
    if a == [] {
      assert a + b == b;
    } else {
      assert (a + b)[1..] == a[1..] + b;
      GradedOfConcat(a[1..], b);
    }
  }

  function Averages(gs: seq<Graded>): (vs: seq<real>)
    ensures |vs| == |gs| && forall k :: 0 <= k < |gs| ==> vs[k] == gs[k].average
  {
    seq(|gs|, k requires 0 <= k < |gs| => gs[k].average)
  }

  /** The sum of the weights, a null counting as 0. */
  function SumWeights(gs: seq<Graded>): real {
    if gs == [] then 0.0 else WeightOrZero(gs[0].weight) + SumWeights(gs[1..])
  }

  /** The sum of average times weight. */
  function SumWeighted(gs: seq<Graded>): real {
    if gs == [] then 0.0 else gs[0].average * WeightOrZero(gs[0].weight) + SumWeighted(gs[1..])
  }

  predicate AllWeighted(gs: seq<Graded>) {
    forall x <- gs :: x.weight.Some?
  }

  /** The overall average of `getGradesSummary`, over the graded
      deliverables only: none gives null; when every graded deliverable has
      a weight, the weighted mean, or null when the weights add up to 0;
      otherwise the plain mean of the averages. Rounded as `toFixed(2)`. */
  function ProjectAverage(entries: seq<DeliverableSummary>): (r: Option<real>)
    ensures r.None? <==>
      || |GradedOf(entries)| == 0
      || (AllWeighted(GradedOf(entries)) && SumWeights(GradedOf(entries)) <= 0.0)
    ensures r.Some? ==> IsCents(r.value)
    ensures r.Some? && AllWeighted(GradedOf(entries)) ==>
      r.value == Round2(SumWeighted(GradedOf(entries)) / SumWeights(GradedOf(entries)))
    ensures r.Some? && !AllWeighted(GradedOf(entries)) ==>
      r.value == Round2(Sum(Averages(GradedOf(entries))) / |GradedOf(entries)| as real)
  {
    var gs := GradedOf(entries);
    if |gs| == 0 then None
    else if AllWeighted(gs) then
      var total := SumWeights(gs);
      if total > 0.0 then Some(Round2(SumWeighted(gs) / total)) else None
    else Some(Round2(Sum(Averages(gs)) / |gs| as real))
  }

  /** With non-negative weights, the weighted sum of averages in [lo, hi]
      lies between lo and hi times the total weight. */
  lemma {:induction false} WeightedBounds(gs: seq<Graded>, lo: real, hi: real)
    requires forall x <- gs :: lo <= x.average <= hi && WeightOrZero(x.weight) >= 0.0
    ensures SumWeights(gs) >= 0.0
    ensures lo * SumWeights(gs) <= SumWeighted(gs) <= hi * SumWeights(gs)
  {
    if gs != [] {
      var tail := gs[1..];
      assert forall x <- tail :: lo <= x.average <= hi && WeightOrZero(x.weight) >= 0.0 by {
        assert forall x <- tail :: x in gs;
      }
      WeightedBounds(tail, lo, hi);
      var a, w := gs[0].average, WeightOrZero(gs[0].weight);
      assert lo <= a <= hi && w >= 0.0 by {
        assert gs[0] in gs;
      }
      StepBounds(lo, hi, a, w, SumWeights(tail), SumWeighted(tail), SumWeights(gs), SumWeighted(gs));
    }
  }

  /** One step of the induction: adding a deliverable with average a and
      weight w to a prefix of weight `rest`. */
  lemma StepBounds(lo: real, hi: real, a: real, w: real, rest: real, restWeighted: real,
                   total: real, weighted: real)
    requires lo <= a <= hi && w >= 0.0
    requires lo * rest <= restWeighted <= hi * rest
    requires total == w + rest && weighted == a * w + restWeighted
    ensures lo * total <= weighted <= hi * total
  {
    assert (a - lo) * w >= 0.0 && (hi - a) * w >= 0.0;
    assert lo * total == lo * w + lo * rest;
    assert hi * total == hi * w + hi * rest;
  }

  lemma DivideByWeight(weighted: real, total: real, lo: real, hi: real)
    requires total > 0.0 && lo * total <= weighted <= hi * total
    ensures lo <= weighted / total <= hi
  {
    assert lo == lo * total / total && hi == hi * total / total;
  }

  /** The project average lies between any two-decimal bounds of the
      deliverable averages, when weights are not negative. */
  lemma ProjectAverageWithin(entries: seq<DeliverableSummary>, lo: real, hi: real)
    requires IsCents(lo) && IsCents(hi) && 0.0 <= lo
    requires forall e <- entries :: e.averageGrade.Some? ==> lo <= e.averageGrade.value <= hi
    requires forall e <- entries :: WeightOrZero(e.weight) >= 0.0
    ensures ProjectAverage(entries).Some? ==> lo <= ProjectAverage(entries).value <= hi
  {
    var gs := GradedOf(entries);
    assert forall x <- gs :: lo <= x.average <= hi && WeightOrZero(x.weight) >= 0.0 by {
      GradedOfComesFrom(entries);
      forall x <- gs ensures lo <= x.average <= hi && WeightOrZero(x.weight) >= 0.0 {
        var e :| e in entries && e.averageGrade == Some(x.average) && e.weight == x.weight;
      }
    }
    if ProjectAverage(entries).Some? {
      if AllWeighted(gs) {
        WeightedMeanWithin(gs, lo, hi);
      } else {
        PlainMeanWithin(gs, lo, hi);
      }
    }
  }

  lemma WeightedMeanWithin(gs: seq<Graded>, lo: real, hi: real)
    requires IsCents(lo) && IsCents(hi) && 0.0 <= lo
    requires forall x <- gs :: lo <= x.average <= hi && WeightOrZero(x.weight) >= 0.0
    requires SumWeights(gs) > 0.0
    ensures lo <= Round2(SumWeighted(gs) / SumWeights(gs)) <= hi
  {
    WeightedBounds(gs, lo, hi);
    DivideByWeight(SumWeighted(gs), SumWeights(gs), lo, hi);
    Round2Between(lo, SumWeighted(gs) / SumWeights(gs), hi);
  }

  lemma PlainMeanWithin(gs: seq<Graded>, lo: real, hi: real)
    requires IsCents(lo) && IsCents(hi) && 0.0 <= lo
    requires forall x <- gs :: lo <= x.average <= hi
    requires |gs| > 0
    ensures lo <= Round2(Sum(Averages(gs)) / |gs| as real) <= hi
  {
    var vs := Averages(gs);
    var mean := Sum(vs) / |vs| as real;
    assert lo <= mean <= hi by {
      assert forall x <- vs :: lo <= x <= hi by {
        forall x <- vs ensures lo <= x <= hi {
          var k :| 0 <= k < |vs| && vs[k] == x;
          assert gs[k] in gs;
        }
      }
      MeanWithin(vs, lo, hi);
    }
    Round2Between(lo, mean, hi);
  }

  /** A deliverable without grades does not change the project average,
      whatever its weight: the weighted mode looks at graded deliverables
      only. */
  lemma UngradedDeliverableIgnored(before: seq<DeliverableSummary>, e: DeliverableSummary,
                                   after: seq<DeliverableSummary>)
    requires e.averageGrade.None?
    ensures ProjectAverage(before + [e] + after) == ProjectAverage(before + after)
  {
    GradedOfConcat(before + [e], after);
    GradedOfConcat(before, [e]);
    GradedOfConcat(before, after);
    assert GradedOf([e]) == [] by {
      assert [e][1..] == [];
    }
    assert GradedOf(before) + [] == GradedOf(before);
  }

  /** Averages 8.00 and 6.00 with weights 40 and 60 give (8·40 + 6·60) / 100
      = 6.80. */
  lemma WeightedExample(entries: seq<DeliverableSummary>, a: DeliverableSummary, b: DeliverableSummary)
    requires a.averageGrade == Some(8.0) && a.weight == Some(40.0)
    requires b.averageGrade == Some(6.0) && b.weight == Some(60.0)
    requires entries == [a, b]
    ensures ProjectAverage(entries) == Some(6.8)
  {
    assert entries[1..] == [b] && [b][1..] == [];
    assert GradedOf([b]) == [Graded(6.0, Some(60.0))] + GradedOf([]);
    var gs := GradedOf(entries);
    assert gs == [Graded(8.0, Some(40.0)), Graded(6.0, Some(60.0))];
    assert gs[1..] == [gs[1]] && [gs[1]][1..] == [];
    assert SumWeights([gs[1]]) == 60.0 + SumWeights([]);
    assert SumWeights(gs) == 100.0;
    assert SumWeighted([gs[1]]) == 360.0 + SumWeighted([]);
    assert SumWeighted(gs) == 680.0;
    CentsFromInt(680);
    Round2OfCents(6.8);
  }

  /** Averages 8.00 with weight 40 and 6.00 without a weight give the plain
      mean 7.00. */
  lemma PlainMeanExample(entries: seq<DeliverableSummary>, a: DeliverableSummary, b: DeliverableSummary)
    requires a.averageGrade == Some(8.0) && a.weight == Some(40.0)
    requires b.averageGrade == Some(6.0) && b.weight == None
    requires entries == [a, b]
    ensures ProjectAverage(entries) == Some(7.0)
  {
    assert entries[1..] == [b] && [b][1..] == [];
    assert GradedOf([b]) == [Graded(6.0, None)] + GradedOf([]);
    var gs := GradedOf(entries);
    assert gs == [Graded(8.0, Some(40.0)), Graded(6.0, None)];
    assert !AllWeighted(gs) by {
      assert gs[1] in gs;
    }
    assert Averages(gs) == [8.0, 6.0];
    assert Sum([8.0, 6.0]) == 14.0;
    CentsFromInt(700);
    Round2OfCents(7.0);
  }

  /** Graded deliverables whose weights are all 0 give no project average,
      rather than a plain mean. */
  lemma ZeroWeightsExample(entries: seq<DeliverableSummary>, a: DeliverableSummary, b: DeliverableSummary)
    requires a.averageGrade == Some(8.0) && a.weight == Some(0.0)
    requires b.averageGrade == Some(6.0) && b.weight == Some(0.0)
    requires entries == [a, b]
    ensures ProjectAverage(entries) == None
  {
    assert entries[1..] == [b] && [b][1..] == [];
    assert GradedOf([b]) == [Graded(6.0, Some(0.0))] + GradedOf([]);
    var gs := GradedOf(entries);
    assert gs == [Graded(8.0, Some(0.0)), Graded(6.0, Some(0.0))];
    assert gs[1..] == [gs[1]] && [gs[1]][1..] == [];
    assert SumWeights([gs[1]]) == 0.0 + SumWeights([]);
    assert SumWeights(gs) == 0.0;
  }

  /** `getGradesSummary`: the project's title, one summary per deliverable
      of the project in table order, and the overall average of those
      summaries. */
  function GetGradesSummary(projects: seq<Project>, deliverables: seq<Deliverable>, grades: seq<Grade>,
                            projectId: nat): (r: Result<ProjectSummary>)
    ensures r.Err? <==> forall p <- projects :: p.id != projectId
    ensures r.Err? ==> r.error == ProjectNotFound
    ensures r.Ok? ==>
      && r.value.projectId == projectId
      && (exists p <- projects :: p.id == projectId && p.title == r.value.projectTitle)
      && |r.value.deliverables| == |DeliverablesOf(deliverables, projectId)|
      && (forall k :: 0 <= k < |r.value.deliverables| ==>
            r.value.deliverables[k] == SummarizeDeliverable(grades, projectId, DeliverablesOf(deliverables, projectId)[k]))
      && r.value.projectAverage == ProjectAverage(r.value.deliverables)
  {
    var project := FindProject(projects, projectId);
    if project.None? then Err(ProjectNotFound)
    else
      var ds := DeliverablesOf(deliverables, projectId);
      var entries := seq(|ds|, k requires 0 <= k < |ds| => SummarizeDeliverable(grades, projectId, ds[k]));
      Ok(ProjectSummary(projectId, project.value.title, ProjectAverage(entries), entries))
  }

  /** A project nobody has graded yet has no overall average. */
  lemma UngradedProjectHasNoAverage(projects: seq<Project>, deliverables: seq<Deliverable>, grades: seq<Grade>,
                                     projectId: nat)
    requires forall g <- grades :: g.projectId != projectId
    ensures var r := GetGradesSummary(projects, deliverables, grades, projectId);
      r.Ok? ==> r.value.projectAverage.None?
  {
    var r := GetGradesSummary(projects, deliverables, grades, projectId);
    if r.Ok? {
      var entries := r.value.deliverables;
      assert forall e <- entries :: e.averageGrade.None? by {
        forall e <- entries ensures e.averageGrade.None? {
          var k :| 0 <= k < |entries| && entries[k] == e;
          UngradedDeliverableHasNoAverage(grades, projectId, DeliverablesOf(deliverables, projectId)[k]);
        }
      }
      GradedOfEmpty(entries);
    }
  }

  lemma UngradedDeliverableHasNoAverage(grades: seq<Grade>, projectId: nat, d: Deliverable)
    requires forall g <- grades :: g.projectId != projectId
    ensures SummarizeDeliverable(grades, projectId, d).averageGrade.None?
  {
    assert GradesFor(grades, projectId, d.id) == [];
  }

  /** Over a store whose grades and weights satisfy the schema, the overall
      average lies between 1.00 and 10.00. */
  lemma SummaryAverageInRange(projects: seq<Project>, deliverables: seq<Deliverable>, grades: seq<Grade>,
                              projectId: nat)
    requires forall g <- grades :: GradeValueOk(g.value)
    requires forall d <- deliverables :: WeightOk(d.weight)
    ensures var r := GetGradesSummary(projects, deliverables, grades, projectId);
      r.Ok? && r.value.projectAverage.Some? ==> 1.0 <= r.value.projectAverage.value <= 10.0
  {
    var r := GetGradesSummary(projects, deliverables, grades, projectId);
    if r.Ok? {
      var entries := r.value.deliverables;
      var ds := DeliverablesOf(deliverables, projectId);
      forall e <- entries
        ensures (e.averageGrade.Some? ==> 1.0 <= e.averageGrade.value <= 10.0) && WeightOrZero(e.weight) >= 0.0
      {
        var k :| 0 <= k < |entries| && entries[k] == e;
        assert ds[k] in ds;
        DeliverableAverageInRange(grades, projectId, ds[k]);
      }
      CentsFromInt(100);
      CentsFromInt(1000);
      ProjectAverageWithin(entries, 1.0, 10.0);
    }
  }
}
