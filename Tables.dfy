/** The rows of the five tables the services read and write (users,
    projects, deliverables, jury_assignments, grades) as sequences in
    insertion order, the lookups the services perform on them, and the
    constraints the schema imposes on them. */
module Tables {
  import opened Domain
  import opened Decimal

  // ---------------------------------------------------------------------
  // Generic row helpers

  /** `Model.findAll({ where })`: the rows that match, in table order. */
  function Filter<T(!new)>(s: seq<T>, keep: T -> bool): (r: seq<T>)
    ensures |r| <= |s|
    ensures forall x :: x in r <==> x in s && keep(x)
    ensures multiset(r) <= multiset(s)
  {
    if s == [] then []
    else
      var rest := Filter(s[1..], keep);
      assert s == [s[0]] + s[1..];
      if keep(s[0]) then [s[0]] + rest else rest
  }

  lemma {:induction false} FilterConcat<T(!new)>(a: seq<T>, b: seq<T>, keep: T -> bool)
    ensures Filter(a + b, keep) == Filter(a, keep) + Filter(b, keep)
  {
    if a == [] {
      assert a + b == b;
    } else {
      assert (a + b)[1..] == a[1..] + b;
      FilterConcat(a[1..], b, keep);
    }
  }

  /** Every key is below the next value of the autoincrement counter. */
  predicate KeysBelow<T>(s: seq<T>, key: T -> nat, next: nat) {
    forall i :: 0 <= i < |s| ==> key(s[i]) < next
  }

  /** No two rows share a key (a primary key or a unique index). */
  predicate KeysUnique<T, K(==)>(s: seq<T>, key: T -> K) {
    forall i, j :: 0 <= i < j < |s| ==> key(s[i]) != key(s[j])
  }

  /** A row whose key is the counter's value may be appended: the keys stay
      unique and below the advanced counter. */
  lemma AppendFreshKey<T>(s: seq<T>, key: T -> nat, next: nat, x: T)
    requires KeysBelow(s, key, next) && KeysUnique(s, key) && key(x) == next
    ensures KeysBelow(s + [x], key, next + 1) && KeysUnique(s + [x], key)
  {
    var t := s + [x];
    forall i, j | 0 <= i < j < |t| ensures key(t[i]) != key(t[j]) {
      if j == |s| {
        assert t[i] == s[i] && key(s[i]) < next;
      } else {
        assert t[i] == s[i] && t[j] == s[j];
      }
    }
  }

  /** A unique key identifies its row. */
  lemma KeyIdentifies<T, K>(s: seq<T>, key: T -> K, x: T, y: T)
    requires KeysUnique(s, key) && x in s && y in s && key(x) == key(y)
    ensures x == y
  {
    var i :| 0 <= i < |s| && s[i] == x;
    var j :| 0 <= j < |s| && s[j] == y;
    assert key(s[i]) == key(s[j]);
    assert i == j;
  }

  /** A row whose key no row has yet may be appended: the keys stay
      unique. */
  lemma AppendNewKey<T, K>(s: seq<T>, key: T -> K, x: T)
    requires KeysUnique(s, key) && forall y <- s :: key(y) != key(x)
    ensures KeysUnique(s + [x], key)
  {
    var t := s + [x];
    forall i, j | 0 <= i < j < |t| ensures key(t[i]) != key(t[j]) {
      assert t[i] == s[i] && s[i] in s;
      if j < |s| {
        assert t[j] == s[j];
      }
    }
  }

  function UserId(u: User): nat { u.id }
  function ProjectId(p: Project): nat { p.id }
  function ProjectOwner(p: Project): nat { p.ownerId }
  function DeliverableId(d: Deliverable): nat { d.id }
  function AssignmentId(a: JuryAssignment): nat { a.id }
  function GradeId(g: Grade): nat { g.id }

  /** The unique index (projectId, deliverableId, evaluatorId) of the
      jury_assignments table. */
  function AssignmentTriple(a: JuryAssignment): (nat, nat, nat) {
    (a.projectId, a.deliverableId, a.evaluatorId)
  }

  /** The unique index (projectId, deliverableId, evaluatorId) of the grades
      table. */
  function GradeTriple(g: Grade): (nat, nat, nat) {
    (g.projectId, g.deliverableId, g.evaluatorId)
  }

  // ---------------------------------------------------------------------
  // `findByPk` and `findOne`

  function FindUser(users: seq<User>, id: nat): (r: Option<User>)
    ensures r.Some? ==> r.value in users && r.value.id == id
    ensures r.None? <==> forall u <- users :: u.id != id
  {
    if users == [] then None
    else if users[0].id == id then Some(users[0])
    else
      assert forall u <- users :: u == users[0] || u in users[1..];
      FindUser(users[1..], id)
  }

  function FindProject(projects: seq<Project>, id: nat): (r: Option<Project>)
    ensures r.Some? ==> r.value in projects && r.value.id == id
    ensures r.None? <==> forall p <- projects :: p.id != id
  {
    if projects == [] then None
    else if projects[0].id == id then Some(projects[0])
    else
      assert forall p <- projects :: p == projects[0] || p in projects[1..];
      FindProject(projects[1..], id)
  }

  function FindDeliverable(deliverables: seq<Deliverable>, id: nat): (r: Option<Deliverable>)
    ensures r.Some? ==> r.value in deliverables && r.value.id == id
    ensures r.None? <==> forall d <- deliverables :: d.id != id
  {
    if deliverables == [] then None
    else if deliverables[0].id == id then Some(deliverables[0])
    else
      assert forall d <- deliverables :: d == deliverables[0] || d in deliverables[1..];
      FindDeliverable(deliverables[1..], id)
  }

  function FindGrade(grades: seq<Grade>, id: nat): (r: Option<nat>)
    ensures r.Some? ==> r.value < |grades| && grades[r.value].id == id
    ensures r.None? <==> forall g <- grades :: g.id != id
  {
    if grades == [] then None
    else if grades[0].id == id then Some(0)
    else
      assert forall g <- grades :: g == grades[0] || g in grades[1..];
      var rest := FindGrade(grades[1..], id);
      if rest.Some? then Some(rest.value + 1) else None
  }

  /** The grade with this triple, if there is one (`Grade.findOne`). */
  function FindGradeByTriple(grades: seq<Grade>, projectId: nat, deliverableId: nat, evaluatorId: nat)
    : (r: Option<Grade>)
    ensures r.Some? ==> r.value in grades && GradeTriple(r.value) == (projectId, deliverableId, evaluatorId)
    ensures r.None? <==> forall g <- grades :: GradeTriple(g) != (projectId, deliverableId, evaluatorId)
  {
    if grades == [] then None
    else if GradeTriple(grades[0]) == (projectId, deliverableId, evaluatorId) then Some(grades[0])
    else
      assert forall g <- grades :: g == grades[0] || g in grades[1..];
      FindGradeByTriple(grades[1..], projectId, deliverableId, evaluatorId)
  }

  predicate OwnsProject(projects: seq<Project>, ownerId: nat) {
    exists p <- projects :: p.ownerId == ownerId
  }

  predicate HasAssignment(assignments: seq<JuryAssignment>, projectId: nat, deliverableId: nat, evaluatorId: nat) {
    exists a <- assignments :: AssignmentTriple(a) == (projectId, deliverableId, evaluatorId)
  }

  /** `JuryAssignment.findOne({ where: { projectId, evaluatorId } })`. */
  predicate EvaluatesProject(assignments: seq<JuryAssignment>, projectId: nat, evaluatorId: nat) {
    exists a <- assignments :: a.projectId == projectId && a.evaluatorId == evaluatorId
  }

  // ---------------------------------------------------------------------
  // `findAll({ where })`

  function DeliverablesOf(deliverables: seq<Deliverable>, projectId: nat): (r: seq<Deliverable>)
    ensures forall d :: d in r <==> d in deliverables && d.projectId == projectId
  {
    Filter(deliverables, (d: Deliverable) => d.projectId == projectId)
  }

  function AssignmentsFor(assignments: seq<JuryAssignment>, projectId: nat, deliverableId: nat)
    : (r: seq<JuryAssignment>)
    ensures forall a :: a in r <==> a in assignments && a.projectId == projectId && a.deliverableId == deliverableId
  {
    Filter(assignments, (a: JuryAssignment) => a.projectId == projectId && a.deliverableId == deliverableId)
  }

  function GradesFor(grades: seq<Grade>, projectId: nat, deliverableId: nat): (r: seq<Grade>)
    ensures forall g :: g in r <==> g in grades && g.projectId == projectId && g.deliverableId == deliverableId
  {
    Filter(grades, (g: Grade) => g.projectId == projectId && g.deliverableId == deliverableId)
  }

  function Students(users: seq<User>): (r: seq<User>)
    ensures |r| <= |users|
    ensures forall u :: u in r <==> u in users && u.role == Student
  {
    Filter(users, (u: User) => u.role == Student)
  }

  // ---------------------------------------------------------------------
  // Weights

  /** What a stored weight adds to the budget: a null counts as 0. */
  function WeightOrZero(w: Option<real>): real {
    if w.Some? then w.value else 0.0
  }

  /** The budget already used in a project: the weights of its
      deliverables, nulls counting as 0. */
  function TotalWeight(deliverables: seq<Deliverable>, projectId: nat): real {
    if deliverables == [] then 0.0
    else
      (if deliverables[0].projectId == projectId then WeightOrZero(deliverables[0].weight) else 0.0)
      + TotalWeight(deliverables[1..], projectId)
  }

  lemma {:induction false} TotalWeightAppend(deliverables: seq<Deliverable>, d: Deliverable, projectId: nat)
    ensures TotalWeight(deliverables + [d], projectId)
      == TotalWeight(deliverables, projectId) + (if d.projectId == projectId then WeightOrZero(d.weight) else 0.0)
  {
    if deliverables == [] {
      assert [] + [d] == [d];
      assert [d][1..] == [];
    } else {
      assert (deliverables + [d])[1..] == deliverables[1..] + [d];
      TotalWeightAppend(deliverables[1..], d, projectId);
    }
  }

  /** A stored weight: a DECIMAL(5,2) value in 0..100. */
  predicate WeightOk(w: Option<real>) {
    w.Some? ==> IsCents(w.value) && 0.0 <= w.value <= 100.0
  }

  lemma {:induction false} TotalWeightIsCents(deliverables: seq<Deliverable>, projectId: nat)
    requires forall d <- deliverables :: WeightOk(d.weight)
    ensures IsCents(TotalWeight(deliverables, projectId))
    ensures TotalWeight(deliverables, projectId) >= 0.0
  {
    if deliverables == [] {
      assert 0.0 * 100.0 == 0.0;
    } else {
      assert deliverables[0] in deliverables;
      TotalWeightIsCents(deliverables[1..], projectId);
      var x := if deliverables[0].projectId == projectId then WeightOrZero(deliverables[0].weight) else 0.0;
      assert IsCents(x) by {
        assert 0.0 * 100.0 == 0.0;
      }
      CentsAdd(x, TotalWeight(deliverables[1..], projectId));
    }
  }

  // ---------------------------------------------------------------------
  // The constraints of the schema, table by table

  ghost predicate UsersOk(users: seq<User>) {
    KeysUnique(users, UserId)
  }

  /** Primary keys, and the one-project-per-student rule `createProject`
      keeps. */
  ghost predicate ProjectsOk(projects: seq<Project>, nextId: nat) {
    && KeysBelow(projects, ProjectId, nextId)
    && KeysUnique(projects, ProjectId)
    && KeysUnique(projects, ProjectOwner)
  }

  /** Primary keys, the foreign key to projects, the DECIMAL(5,2) weights,
      and the 100% budget of every project. */
  ghost predicate DeliverablesOk(deliverables: seq<Deliverable>, projects: seq<Project>, nextId: nat) {
    && KeysBelow(deliverables, DeliverableId, nextId)
    && KeysUnique(deliverables, DeliverableId)
    && (forall d <- deliverables :: (exists p <- projects :: p.id == d.projectId))
    && (forall d <- deliverables :: WeightOk(d.weight))
    && (forall projectId: nat :: TotalWeight(deliverables, projectId) <= 100.0)
  }

  /** Primary keys, the unique triple, and foreign keys to a project and to
      one of that project's deliverables. */
  ghost predicate AssignmentsOk(assignments: seq<JuryAssignment>, projects: seq<Project>,
                                deliverables: seq<Deliverable>, nextId: nat) {
    && KeysBelow(assignments, AssignmentId, nextId)
    && KeysUnique(assignments, AssignmentId)
    && KeysUnique(assignments, AssignmentTriple)
    && (forall a <- assignments :: (exists p <- projects :: p.id == a.projectId))
    && (forall a <- assignments ::
          (exists d <- deliverables :: d.id == a.deliverableId && d.projectId == a.projectId))
  }

  /** Some registered user has this id. */
  predicate IsUser(users: seq<User>, id: nat) {
    exists u <- users :: u.id == id
  }

  /** The foreign keys to users: the owner of every project and the
      evaluator of every jury assignment is a registered user. */
  ghost predicate UserKeysOk(users: seq<User>, projects: seq<Project>, assignments: seq<JuryAssignment>) {
    && (forall p <- projects :: IsUser(users, p.ownerId))
    && (forall a <- assignments :: IsUser(users, a.evaluatorId))
  }

  /** A grade value as stored: DECIMAL(4,2) between 1.00 and 10.00. */
  predicate GradeValueOk(v: real) {
    IsCents(v) && 1.0 <= v <= 10.0
  }

  /** Primary keys, the unique triple, the range of values, and that every
      grade was given by an evaluator assigned to that deliverable. */
  ghost predicate GradesOk(grades: seq<Grade>, assignments: seq<JuryAssignment>, nextId: nat) {
    && KeysBelow(grades, GradeId, nextId)
    && KeysUnique(grades, GradeId)
    && KeysUnique(grades, GradeTriple)
    && (forall g <- grades :: GradeValueOk(g.value))
    && (forall g <- grades :: HasAssignment(assignments, g.projectId, g.deliverableId, g.evaluatorId))
  }

  /** The grades' foreign key to users follows from the others: every
      grade has an assignment with its evaluator, and every assignment's
      evaluator is a registered user. */
  lemma GradeAuthorsAreUsers(users: seq<User>, projects: seq<Project>, assignments: seq<JuryAssignment>,
                             grades: seq<Grade>, next: nat)
    requires UserKeysOk(users, projects, assignments)
    requires GradesOk(grades, assignments, next)
    ensures forall g <- grades :: IsUser(users, g.evaluatorId)
  {
    forall g <- grades ensures IsUser(users, g.evaluatorId) {
      var a :| a in assignments && AssignmentTriple(a) == (g.projectId, g.deliverableId, g.evaluatorId);
      assert IsUser(users, a.evaluatorId);
    }
  }
}
