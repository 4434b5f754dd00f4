/** `JuryService`: the one-shot random assignment of student evaluators to a
    deliverable, and the list of assignments an evaluator sees. */
module JuryService {
  import opened Domain
  import opened Tables
  import opened Database
  import opened RandomSelector

  /** `evaluatorCount = 5`. */
  const DefaultEvaluatorCount := 5

  /** The checks `assignJury` makes before selecting anyone, in the order it
      makes them: the project exists, the deliverable exists and belongs to
      it, and no evaluator has been assigned to it yet. */
  function AssignJuryCheck(projects: seq<Project>, deliverables: seq<Deliverable>,
                           assignments: seq<JuryAssignment>, projectId: nat, deliverableId: nat)
    : (r: Option<Error>)
    ensures r == None <==>
      && (exists p <- projects :: p.id == projectId)
      && (exists d <- deliverables :: d.id == deliverableId)
      && FindDeliverable(deliverables, deliverableId).value.projectId == projectId
      && |AssignmentsFor(assignments, projectId, deliverableId)| == 0
    ensures (forall p <- projects :: p.id != projectId) ==> r == Some(ProjectNotFound)
    ensures r.Some? ==> r.value in {ProjectNotFound, DeliverableNotInProject, JuryAlreadyAssigned}
    ensures r == Some(JuryAlreadyAssigned) ==> exists a <- assignments :: a.projectId == projectId && a.deliverableId == deliverableId
  {
    if FindProject(projects, projectId).None? then Some(ProjectNotFound)
    else
      var deliverable := FindDeliverable(deliverables, deliverableId);
      if deliverable.None? || deliverable.value.projectId != projectId then Some(DeliverableNotInProject)
      else
        var existing := AssignmentsFor(assignments, projectId, deliverableId);
        if |existing| > 0 then
          assert existing[0] in existing;
          Some(JuryAlreadyAssigned)
        else None
  }

  /** The rows `JuryAssignment.create` adds for the selected evaluators, one
      per evaluator, numbered from the counter's value on. */
  function JuryBatch(projectId: nat, deliverableId: nat, evaluators: seq<User>, firstId: nat)
    : (batch: seq<JuryAssignment>)
    ensures |batch| == |evaluators|
    ensures forall k :: 0 <= k < |batch| ==>
      batch[k] == JuryAssignment(firstId + k, projectId, deliverableId, evaluators[k].id)
  {
    seq(|evaluators|, k requires 0 <= k < |evaluators| =>
      JuryAssignment(firstId + k, projectId, deliverableId, evaluators[k].id))
  }

  /** The students `assignJury` may pick for a project with this owner. */
  function Pool(users: seq<User>, ownerId: nat): (pool: seq<User>)
    ensures forall u <- pool :: u in users && u.role == Student && u.id != ownerId
    ensures forall u <- users :: u.role == Student && u.id != ownerId ==> u in pool
  {
    Eligible(Students(users), [ownerId])
  }

  /** Adding a batch with fresh consecutive ids, for a deliverable that had
      no assignment, to distinct evaluators, keeps the keys of the table
      unique. */
  lemma {:induction false} AppendBatchKeepsKeys(assignments: seq<JuryAssignment>, next: nat,
                                                projectId: nat, deliverableId: nat, evaluators: seq<User>)
    requires KeysBelow(assignments, AssignmentId, next) && KeysUnique(assignments, AssignmentId)
    requires KeysUnique(assignments, AssignmentTriple)
    requires forall a <- assignments :: !(a.projectId == projectId && a.deliverableId == deliverableId)
    requires KeysUnique(evaluators, UserId)
    ensures var s := assignments + JuryBatch(projectId, deliverableId, evaluators, next);
      && KeysBelow(s, AssignmentId, next + |evaluators|)
      && KeysUnique(s, AssignmentId)
      && KeysUnique(s, AssignmentTriple)
  {
    var batch := JuryBatch(projectId, deliverableId, evaluators, next);
    var s := assignments + batch;
    var n := |assignments|;
    forall i | 0 <= i < |s| ensures AssignmentId(s[i]) < next + |evaluators| {
      if i >= n {
        assert s[i] == batch[i - n];
      } else {
        assert s[i] == assignments[i];
      }
    }
    forall i, j | 0 <= i < j < |s|
      ensures AssignmentId(s[i]) != AssignmentId(s[j]) && AssignmentTriple(s[i]) != AssignmentTriple(s[j])
    {
      if j < n {
        assert s[i] == assignments[i] && s[j] == assignments[j];
      } else if i < n {
        assert s[i] == assignments[i] && s[i] in assignments;
        assert s[j] == batch[j - n];
      } else {
        assert s[i] == batch[i - n] && s[j] == batch[j - n];
        assert UserId(evaluators[i - n]) != UserId(evaluators[j - n]);
      }
    }
  }

  /** The batch for a deliverable that passed the checks keeps every
      constraint of the jury_assignments table. */
  lemma BatchKeepsAssignmentsOk(projects: seq<Project>, deliverables: seq<Deliverable>,
                                assignments: seq<JuryAssignment>, next: nat,
                                projectId: nat, deliverableId: nat, evaluators: seq<User>)
    requires AssignmentsOk(assignments, projects, deliverables, next)
    requires AssignJuryCheck(projects, deliverables, assignments, projectId, deliverableId) == None
    requires KeysUnique(evaluators, UserId)
    ensures AssignmentsOk(assignments + JuryBatch(projectId, deliverableId, evaluators, next),
                          projects, deliverables, next + |evaluators|)
  {
    var batch := JuryBatch(projectId, deliverableId, evaluators, next);
    assert forall a <- assignments :: !(a.projectId == projectId && a.deliverableId == deliverableId);
    AppendBatchKeepsKeys(assignments, next, projectId, deliverableId, evaluators);
    var d := FindDeliverable(deliverables, deliverableId).value;
    forall a <- assignments + batch
      ensures && (exists p <- projects :: p.id == a.projectId)
              && (exists d <- deliverables :: d.id == a.deliverableId && d.projectId == a.projectId)
    {
      if a !in assignments {
        var k :| 0 <= k < |batch| && batch[k] == a;
        assert d.id == a.deliverableId && d.projectId == a.projectId;
      }
    }
  }

  /** Grades only need some assignment with their triple, so adding
      assignments keeps the grades table's constraints. */
  lemma MoreAssignmentsKeepGradesOk(grades: seq<Grade>, assignments: seq<JuryAssignment>,
                                    extra: seq<JuryAssignment>, next: nat)
    requires GradesOk(grades, assignments, next)
    ensures GradesOk(grades, assignments + extra, next)
  {
    forall g <- grades ensures HasAssignment(assignments + extra, g.projectId, g.deliverableId, g.evaluatorId) {
      var a :| a in assignments && AssignmentTriple(a) == (g.projectId, g.deliverableId, g.evaluatorId);
      assert a in assignments + extra;
    }
  }

  /** Every assignment of a batch drawn from the pool names a student who
      does not own the project. */
  lemma BatchFromPool(users: seq<User>, ownerId: nat, projectId: nat, deliverableId: nat,
                      selected: seq<User>, next: nat)
    requires forall u <- selected :: u in Pool(users, ownerId)
    ensures forall a <- JuryBatch(projectId, deliverableId, selected, next) ::
      && a.projectId == projectId && a.deliverableId == deliverableId
      && a.evaluatorId != ownerId
      && (exists u <- users :: u.id == a.evaluatorId && u.role == Student)
  {
    var batch := JuryBatch(projectId, deliverableId, selected, next);
    forall a <- batch
      ensures && a.evaluatorId != ownerId
              && (exists u <- users :: u.id == a.evaluatorId && u.role == Student)
    {
      var k :| 0 <= k < |batch| && batch[k] == a;
      assert selected[k] in selected;
    }
  }

  /** A batch for registered users keeps every assignment's evaluator a
      registered user. */
  lemma BatchKeepsUserKeys(users: seq<User>, projects: seq<Project>, assignments: seq<JuryAssignment>,
                           projectId: nat, deliverableId: nat, selected: seq<User>, next: nat)
    requires UserKeysOk(users, projects, assignments)
    requires forall u <- selected :: u in users
    ensures UserKeysOk(users, projects, assignments + JuryBatch(projectId, deliverableId, selected, next))
  {
    var batch := JuryBatch(projectId, deliverableId, selected, next);
    forall a <- assignments + batch ensures IsUser(users, a.evaluatorId) {
      if a !in assignments {
        var k :| 0 <= k < |batch| && batch[k] == a;
        assert selected[k] in selected;
      }
    }
  }

  /** The `JuryAssignment.create` calls of `assignJury`: the batch for the
      selected evaluators is appended and the counter moves past it. */
  method AddJury(db: Store, projectId: nat, deliverableId: nat, selected: seq<User>)
    requires db.Valid()
    requires AssignJuryCheck(db.projects, db.deliverables, db.assignments, projectId, deliverableId) == None
    requires KeysUnique(selected, UserId)
    requires forall u <- selected :: u in db.users
    modifies db
    ensures db.Valid()
    ensures db.users == old(db.users) && db.projects == old(db.projects)
    ensures db.deliverables == old(db.deliverables) && db.grades == old(db.grades)
    ensures db.nextProjectId == old(db.nextProjectId)
    ensures db.nextDeliverableId == old(db.nextDeliverableId) && db.nextGradeId == old(db.nextGradeId)
    ensures db.assignments == old(db.assignments)
      + JuryBatch(projectId, deliverableId, selected, old(db.nextAssignmentId))
    ensures db.nextAssignmentId == old(db.nextAssignmentId) + |selected|
  {
    var batch := JuryBatch(projectId, deliverableId, selected, db.nextAssignmentId);
    BatchKeepsAssignmentsOk(db.projects, db.deliverables, db.assignments, db.nextAssignmentId,
                            projectId, deliverableId, selected);
    MoreAssignmentsKeepGradesOk(db.grades, db.assignments, batch, db.nextGradeId);
    BatchKeepsUserKeys(db.users, db.projects, db.assignments, projectId, deliverableId, selected, db.nextAssignmentId);
    db.assignments := db.assignments + batch;
    db.nextAssignmentId := db.nextAssignmentId + |batch|;
  }

  /** `assignJury`. `draws` stands for the values `Math.random()` returns
      while the pool is shuffled. */
  method AssignJury(db: Store, projectId: nat, deliverableId: nat, draws: seq<nat>,
                    evaluatorCount: int := DefaultEvaluatorCount)
    returns (r: Result<nat>)
    requires db.Valid()
    requires DrawsValid(draws, |db.users|)
    modifies db
    ensures db.Valid()
    ensures db.users == old(db.users) && db.projects == old(db.projects)
    ensures db.deliverables == old(db.deliverables) && db.grades == old(db.grades)
    ensures db.nextProjectId == old(db.nextProjectId)
    ensures db.nextDeliverableId == old(db.nextDeliverableId) && db.nextGradeId == old(db.nextGradeId)
    ensures var check := AssignJuryCheck(old(db.projects), old(db.deliverables), old(db.assignments),
                                         projectId, deliverableId);
      check.Some? ==>
        && r == Err(check.value)
        && db.assignments == old(db.assignments) && db.nextAssignmentId == old(db.nextAssignmentId)
    ensures var check := AssignJuryCheck(old(db.projects), old(db.deliverables), old(db.assignments),
                                         projectId, deliverableId);
      check.None? ==>
        var pool := Pool(old(db.users), FindProject(old(db.projects), projectId).value.ownerId);
        var n := SliceLength(evaluatorCount, |pool|);
        if n == 0 then
          && r == Err(InsufficientEvaluators)
          && db.assignments == old(db.assignments) && db.nextAssignmentId == old(db.nextAssignmentId)
        else
          && r == Ok(n)
          && db.assignments == old(db.assignments)
               + JuryBatch(projectId, deliverableId, Shuffled(pool, draws)[..n], old(db.nextAssignmentId))
          && db.nextAssignmentId == old(db.nextAssignmentId) + n
    ensures r.Ok? ==> 0 < r.value && (evaluatorCount >= 0 ==> r.value <= evaluatorCount)
    ensures r.Ok? ==> forall a <- db.assignments[|old(db.assignments)|..] ::
      && a.projectId == projectId && a.deliverableId == deliverableId
      && a.evaluatorId != FindProject(db.projects, projectId).value.ownerId
      && (exists u <- db.users :: u.id == a.evaluatorId && u.role == Student)
  {
    var check := AssignJuryCheck(db.projects, db.deliverables, db.assignments, projectId, deliverableId);
    if check.Some? {
      return Err(check.value);
    }
    var owner := FindProject(db.projects, projectId).value.ownerId;
    var students := Students(db.users);
    var selected := SelectRandomEvaluators(students, [owner], evaluatorCount, draws);
    if |selected| == 0 {
      return Err(InsufficientEvaluators);
    }
    FilterKeepsKeysUnique(db.users, (u: User) => u.role == Student, UserId);
    BatchFromPool(db.users, owner, projectId, deliverableId, selected, db.nextAssignmentId);
    AddJury(db, projectId, deliverableId, selected);
    r := Ok(|selected|);
  }

  /** Filtering a table keeps a unique key unique. */
  lemma {:induction false} FilterKeepsKeysUnique<T(!new), K>(s: seq<T>, keep: T -> bool, key: T -> K)
    requires KeysUnique(s, key)
    ensures KeysUnique(Filter(s, keep), key)
  {
    if s != [] {
      var tail := s[1..];
      assert KeysUnique(tail, key) by {
        forall i, j | 0 <= i < j < |tail| ensures key(tail[i]) != key(tail[j]) {
          assert tail[i] == s[i + 1] && tail[j] == s[j + 1];
        }
      }
      FilterKeepsKeysUnique(tail, keep, key);
      var rest := Filter(tail, keep);
      if keep(s[0]) {
        var r := [s[0]] + rest;
        forall i, j | 0 <= i < j < |r| ensures key(r[i]) != key(r[j]) {
          if i == 0 {
            assert r[j] == rest[j - 1] && rest[j - 1] in tail;
            var k :| 0 <= k < |tail| && tail[k] == rest[j - 1];
            assert tail[k] == s[k + 1];
          } else {
            assert r[i] == rest[i - 1] && r[j] == rest[j - 1];
          }
        }
      }
    }
  }

  /** The grade an evaluator already gave, as `getAssignedProjects` shows
      it. */
  datatype ExistingGrade = ExistingGrade(id: nat, value: real, submittedAt: int)

  /** One element of the list `getAssignedProjects` returns. */
  datatype AssignedProject = AssignedProject(
    projectId: nat, projectTitle: string, projectDescription: Option<string>,
    deliverableId: nat, deliverableName: string, deadline: int, videoUrl: Option<string>,
    existingGrade: Option<ExistingGrade>)

  function AssignmentsOf(assignments: seq<JuryAssignment>, evaluatorId: nat): (r: seq<JuryAssignment>)
    ensures forall a :: a in r <==> a in assignments && a.evaluatorId == evaluatorId
  {
    Filter(assignments, (a: JuryAssignment) => a.evaluatorId == evaluatorId)
  }

  /** e is what `getAssignedProjects` shows for assignment a: its project's
      title and description, its deliverable's name, deadline and video, and
      the evaluator's grade with that triple when there is one. */
  ghost predicate Describes(e: AssignedProject, a: JuryAssignment, projects: seq<Project>,
                            deliverables: seq<Deliverable>, grades: seq<Grade>, evaluatorId: nat) {
    && e.projectId == a.projectId && e.deliverableId == a.deliverableId
    && (exists p <- projects :: p.id == a.projectId && p.title == e.projectTitle
                                && p.description == e.projectDescription)
    && (exists d <- deliverables :: d.id == a.deliverableId && d.name == e.deliverableName
                                    && d.deadline == e.deadline && d.videoUrl == e.videoUrl)
    && (e.existingGrade.Some? <==>
          exists g <- grades :: GradeTriple(g) == (a.projectId, a.deliverableId, evaluatorId))
    && (e.existingGrade.Some? ==>
          exists g <- grades :: && GradeTriple(g) == (a.projectId, a.deliverableId, evaluatorId)
                                && e.existingGrade.value == ExistingGrade(g.id, g.value, g.createdAt))
  }

  function AssignedEntry(projects: seq<Project>, deliverables: seq<Deliverable>, grades: seq<Grade>,
                         evaluatorId: nat, a: JuryAssignment): (e: AssignedProject)
    requires (exists p <- projects :: p.id == a.projectId) && (exists d <- deliverables :: d.id == a.deliverableId)
    ensures Describes(e, a, projects, deliverables, grades, evaluatorId)
  {
    var p := FindProject(projects, a.projectId).value;
    var d := FindDeliverable(deliverables, a.deliverableId).value;
    var g := FindGradeByTriple(grades, a.projectId, a.deliverableId, evaluatorId);
    AssignedProject(
      a.projectId, p.title, p.description, a.deliverableId, d.name, d.deadline, d.videoUrl,
      if g.Some? then Some(ExistingGrade(g.value.id, g.value.value, g.value.createdAt)) else None)
  }

  /** `getAssignedProjects`: one entry per assignment of the evaluator, in
      table order. The joins find the referenced rows because the foreign
      keys hold. */
  function GetAssignedProjects(projects: seq<Project>, deliverables: seq<Deliverable>,
                               assignments: seq<JuryAssignment>, grades: seq<Grade>, evaluatorId: nat)
    : (r: seq<AssignedProject>)
    requires forall a <- assignments ::
      (exists p <- projects :: p.id == a.projectId) && (exists d <- deliverables :: d.id == a.deliverableId)
    ensures |r| == |AssignmentsOf(assignments, evaluatorId)|
    ensures forall k :: 0 <= k < |r| ==>
      Describes(r[k], AssignmentsOf(assignments, evaluatorId)[k], projects, deliverables, grades, evaluatorId)
  {
    var mine := AssignmentsOf(assignments, evaluatorId);
    seq(|mine|, k requires 0 <= k < |mine| =>
      assert mine[k] in assignments;
      AssignedEntry(projects, deliverables, grades, evaluatorId, mine[k]))
  }
}
