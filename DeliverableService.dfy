/** `DeliverableService`: creating a weighted deliverable within the 100%
    budget of its project, listing a project's deliverables by deadline with
    their jury counts, and reading one deliverable. */
module DeliverableService {
  import opened Domain
  import opened Decimal
  import opened Tables
  import opened Database

  /** The weight checks of `createDeliverable`: present, finite, and in the
      interval (0, 100]. */
  function ValidateWeight(weight: NumericInput): (r: Result<real>)
    ensures r.Ok? <==> weight.Finite? && 0.0 < weight.number <= 100.0
    ensures r.Ok? ==> r.value == weight.number
    ensures weight.Missing? || weight.EmptyText? ==> r == Err(WeightRequired)
    ensures weight.NotFinite? ==> r == Err(InvalidWeight)
    ensures weight.Finite? && !(0.0 < weight.number <= 100.0) ==> r == Err(InvalidWeight)
  {
    match weight
    case Missing => Err(WeightRequired)
    case EmptyText => Err(WeightRequired)
    case NotFinite => Err(InvalidWeight)
    case Finite(n) => if n <= 0.0 || n > 100.0 then Err(InvalidWeight) else Ok(n)
  }

  /** The checks `createDeliverable` makes before inserting, in the order
      it makes them; on success, the validated weight. */
  function CreateDeliverableCheck(projects: seq<Project>, deliverables: seq<Deliverable>,
                                  projectId: nat, userId: nat, weight: NumericInput): (r: Result<real>)
    ensures (forall p <- projects :: p.id != projectId) ==> r == Err(ProjectNotFound)
    ensures r.Ok? <==>
      && (exists p <- projects :: p.id == projectId)
      && FindProject(projects, projectId).value.ownerId == userId
      && ValidateWeight(weight).Ok?
      && TotalWeight(deliverables, projectId) + weight.number <= 100.0
    ensures r.Ok? ==> r == ValidateWeight(weight)
    ensures r.Err? && r.error.WeightOverflow? ==>
      && ValidateWeight(weight).Ok?
      && TotalWeight(deliverables, projectId) + weight.number > 100.0
      && r.error.available == Round2(100.0 - TotalWeight(deliverables, projectId))
  {
    var project := FindProject(projects, projectId);
    if project.None? then Err(ProjectNotFound)
    else if project.value.ownerId != userId then Err(NotProjectOwner)
    else
      var checked := ValidateWeight(weight);
      if checked.Err? then checked
      else
        var total := TotalWeight(deliverables, projectId);
        if total + checked.value > 100.0 then Err(WeightOverflow(Round2(100.0 - total)))
        else checked
  }

  /** The weight the DECIMAL(5,2) column keeps for an accepted weight still
      fits the budget: rounding never pushes a two-decimal total above 100. */
  lemma RoundedWeightFits(total: real, w: real)
    requires IsCents(total) && 0.0 <= total && 0.0 < w && total + w <= 100.0
    ensures WeightOk(Some(Round2(w)))
    ensures total + Round2(w) <= 100.0
  {
    assert IsCents(100.0) by {
      assert 100.0 * 100.0 == 10000.0;
    }
    CentsAdd(100.0, total);
    Round2Between(0.0, w, 100.0 - total) by {
      assert 0.0 * 100.0 == 0.0;
    }
  }

  /** Appending a deliverable adds its weight to its own project's total
      and leaves every other project's total as it was. */
  lemma AppendKeepsBudget(deliverables: seq<Deliverable>, d: Deliverable)
    requires forall projectId: nat :: TotalWeight(deliverables, projectId) <= 100.0
    requires TotalWeight(deliverables, d.projectId) + WeightOrZero(d.weight) <= 100.0
    ensures forall projectId: nat :: TotalWeight(deliverables + [d], projectId) <= 100.0
  {
    forall projectId: nat ensures TotalWeight(deliverables + [d], projectId) <= 100.0 {
      TotalWeightAppend(deliverables, d, projectId);
    }
  }

  /** `createDeliverable`: on success exactly one deliverable is appended,
      holding the weight rounded to the column's two decimals, and the
      project's budget still does not exceed 100. The instance `create`
      returns keeps the weight as it was given. */
  method CreateDeliverable(db: Store, projectId: nat, userId: nat, name: string, deadline: int,
                           videoUrl: Option<string>, weight: NumericInput)
    returns (r: Result<Deliverable>)
    requires db.Valid()
    modifies db
    ensures db.Valid()
    ensures db.users == old(db.users) && db.projects == old(db.projects)
    ensures db.assignments == old(db.assignments) && db.grades == old(db.grades)
    ensures db.nextProjectId == old(db.nextProjectId)
    ensures db.nextAssignmentId == old(db.nextAssignmentId) && db.nextGradeId == old(db.nextGradeId)
    ensures var check := CreateDeliverableCheck(old(db.projects), old(db.deliverables), projectId, userId, weight);
      if check.Err? then
        && r == Err(check.error)
        && db.deliverables == old(db.deliverables)
        && db.nextDeliverableId == old(db.nextDeliverableId)
      else
        && r == Ok(Deliverable(old(db.nextDeliverableId), projectId, name, deadline, videoUrl,
                               Some(check.value)))
        && db.deliverables == old(db.deliverables) + [r.value.(weight := Some(Round2(check.value)))]
        && db.nextDeliverableId == old(db.nextDeliverableId) + 1
  {
    var check := CreateDeliverableCheck(db.projects, db.deliverables, projectId, userId, weight);
    if check.Err? {
      return Err(check.error);
    }
    var total := TotalWeight(db.deliverables, projectId);
    TotalWeightIsCents(db.deliverables, projectId);
    RoundedWeightFits(total, check.value);
    var d := Deliverable(db.nextDeliverableId, projectId, name, deadline, videoUrl, Some(Round2(check.value)));
    AppendKeepsTables(db.projects, db.deliverables, db.assignments, db.nextDeliverableId, db.nextAssignmentId, d);
    db.deliverables := db.deliverables + [d];
    db.nextDeliverableId := db.nextDeliverableId + 1;
    r := Ok(d.(weight := Some(check.value)));
  }

  /** Appending a deliverable of an existing project, with the next key and
      a weight that fits the budget, keeps the deliverables table valid and
      every jury assignment's foreign key resolvable. */
  lemma AppendKeepsTables(projects: seq<Project>, deliverables: seq<Deliverable>, assignments: seq<JuryAssignment>,
                          next: nat, nextAssignment: nat, d: Deliverable)
    requires DeliverablesOk(deliverables, projects, next)
    requires AssignmentsOk(assignments, projects, deliverables, nextAssignment)
    requires d.id == next && (exists p <- projects :: p.id == d.projectId) && WeightOk(d.weight)
    requires TotalWeight(deliverables, d.projectId) + WeightOrZero(d.weight) <= 100.0
    ensures DeliverablesOk(deliverables + [d], projects, next + 1)
    ensures AssignmentsOk(assignments, projects, deliverables + [d], nextAssignment)
  {
    AppendFreshKey(deliverables, DeliverableId, next, d);
    AppendKeepsBudget(deliverables, d);
    assert forall x <- deliverables :: x in deliverables + [d];
  }

  /** Deliverables in ascending order of deadline. */
  predicate SortedByDeadline(ds: seq<Deliverable>) {
    forall i, j :: 0 <= i < j < |ds| ==> ds[i].deadline <= ds[j].deadline
  }

  /** Insert d into a list, after the leading deliverables whose deadline
      is earlier than d's. */
  function InsertByDeadline(d: Deliverable, sorted: seq<Deliverable>): (r: seq<Deliverable>)
    ensures multiset(r) == multiset(sorted) + multiset{d}
  {
    if sorted == [] then [d]
    else if d.deadline <= sorted[0].deadline then [d] + sorted
    else
      assert sorted == [sorted[0]] + sorted[1..];
      [sorted[0]] + InsertByDeadline(d, sorted[1..])
  }

  lemma {:induction false} InsertKeepsSorted(d: Deliverable, sorted: seq<Deliverable>)
    requires SortedByDeadline(sorted)
    ensures SortedByDeadline(InsertByDeadline(d, sorted))
  {
    if sorted == [] {
    } else if d.deadline <= sorted[0].deadline {
      assert forall x <- sorted :: d.deadline <= x.deadline by {
        forall x <- sorted ensures d.deadline <= x.deadline {
          var k :| 0 <= k < |sorted| && sorted[k] == x;
        }
      }
      ConsKeepsSorted(d, sorted);
    } else {
      var tail := sorted[1..];
      assert SortedByDeadline(tail) by {
        forall i, j | 0 <= i < j < |tail| ensures tail[i].deadline <= tail[j].deadline {
          assert tail[i] == sorted[i + 1] && tail[j] == sorted[j + 1];
        }
      }
      InsertKeepsSorted(d, tail);
      var rest := InsertByDeadline(d, tail);
      assert forall x <- rest :: sorted[0].deadline <= x.deadline by {
        forall x <- rest ensures sorted[0].deadline <= x.deadline {
          assert x in multiset(rest);
          if x != d {
            assert x in multiset(tail);
            var k :| 0 <= k < |tail| && tail[k] == x;
            assert tail[k] == sorted[k + 1];
          }
        }
      }
      ConsKeepsSorted(sorted[0], rest);
    }
  }

  /** A deliverable due no later than every deliverable of a sorted list
      can be put in front of it. */
  lemma ConsKeepsSorted(x: Deliverable, rest: seq<Deliverable>)
    requires SortedByDeadline(rest)
    requires forall y <- rest :: x.deadline <= y.deadline
    ensures SortedByDeadline([x] + rest)
  {
    var r := [x] + rest;
    forall i, j | 0 <= i < j < |r| ensures r[i].deadline <= r[j].deadline {
      assert r[j] == rest[j - 1] && rest[j - 1] in rest;
      if i > 0 {
        assert r[i] == rest[i - 1];
      }
    }
  }

  /** The `order: [['deadline', 'ASC']]` of the query, as an insertion
      sort. Deliverables with the same deadline keep their table order
      (`SortKeepsTiesInOrder`), one of the orders the database may return. */
  function SortByDeadline(ds: seq<Deliverable>): (r: seq<Deliverable>)
    ensures multiset(r) == multiset(ds)
  {
    if ds == [] then []
    else
      assert ds == [ds[0]] + ds[1..];
      InsertByDeadline(ds[0], SortByDeadline(ds[1..]))
  }

  lemma {:induction false} SortByDeadlineSorts(ds: seq<Deliverable>)
    ensures SortedByDeadline(SortByDeadline(ds))
  {
    if ds != [] {
      SortByDeadlineSorts(ds[1..]);
      InsertKeepsSorted(ds[0], SortByDeadline(ds[1..]));
    }
  }

  /** The deliverables of a list that are due at time t, in list order. */
  function DueAt(ds: seq<Deliverable>, t: int): seq<Deliverable> {
    Filter(ds, (x: Deliverable) => x.deadline == t)
  }

  /** Inserting d puts it in front of every deliverable of the list that is
      due at the same time, and moves no other deliverable due then. */
  lemma {:induction false} InsertKeepsTies(d: Deliverable, sorted: seq<Deliverable>, t: int)
    ensures DueAt(InsertByDeadline(d, sorted), t) ==
      if d.deadline == t then [d] + DueAt(sorted, t) else DueAt(sorted, t)
  {
    if sorted == [] {
      assert [d][1..] == [];
    } else if d.deadline <= sorted[0].deadline {
      assert ([d] + sorted)[1..] == sorted;
    } else {
      var tail := sorted[1..];
      InsertKeepsTies(d, tail, t);
      assert ([sorted[0]] + InsertByDeadline(d, tail))[1..] == InsertByDeadline(d, tail);
    }
  }

  /** Sorting is stable: the deliverables due at any one time come out in
      the order the table holds them. */
  lemma {:induction false} SortKeepsTiesInOrder(ds: seq<Deliverable>, t: int)
    ensures DueAt(SortByDeadline(ds), t) == DueAt(ds, t)
  {
    if ds != [] {
      SortKeepsTiesInOrder(ds[1..], t);
      InsertKeepsTies(ds[0], SortByDeadline(ds[1..]), t);
    }
  }

  /** One element of the list `getDeliverablesByProject` returns: the
      deliverable's columns, the number of evaluators assigned to it, and
      whether there are any. */
  datatype DeliverableWithJury = DeliverableWithJury(deliverable: Deliverable, juryAssigned: bool, juryCount: nat)

  function Rows(r: seq<DeliverableWithJury>): (ds: seq<Deliverable>)
    ensures |ds| == |r| && forall k :: 0 <= k < |r| ==> ds[k] == r[k].deliverable
  {
    seq(|r|, k requires 0 <= k < |r| => r[k].deliverable)
  }

  /** Each deliverable of a list, with the number of evaluators assigned to
      it. */
  function WithJury(sorted: seq<Deliverable>, assignments: seq<JuryAssignment>, projectId: nat)
    : (r: seq<DeliverableWithJury>)
    ensures Rows(r) == sorted
    ensures forall k :: 0 <= k < |r| ==>
      && r[k].juryCount == |AssignmentsFor(assignments, projectId, r[k].deliverable.id)|
      && (r[k].juryAssigned <==> r[k].juryCount > 0)
  {
    var r := seq(|sorted|, k requires 0 <= k < |sorted| =>
      var count := |AssignmentsFor(assignments, projectId, sorted[k].id)|;
      DeliverableWithJury(sorted[k], count > 0, count));
    assert Rows(r) == sorted;
    r
  }

  /** `getDeliverablesByProject`. */
  function GetDeliverablesByProject(deliverables: seq<Deliverable>, assignments: seq<JuryAssignment>,
                                    projectId: nat): (r: seq<DeliverableWithJury>)
    ensures multiset(Rows(r)) == multiset(DeliverablesOf(deliverables, projectId))
    ensures SortedByDeadline(Rows(r))
    ensures forall k :: 0 <= k < |r| ==>
      && r[k].deliverable in deliverables && r[k].deliverable.projectId == projectId
      && r[k].juryCount == |AssignmentsFor(assignments, projectId, r[k].deliverable.id)|
      && (r[k].juryAssigned <==> r[k].juryCount > 0)
  {
    var mine := DeliverablesOf(deliverables, projectId);
    var sorted := SortByDeadline(mine);
    SortByDeadlineSorts(mine);
    assert forall k :: 0 <= k < |sorted| ==> sorted[k] in mine by {
      forall k | 0 <= k < |sorted| ensures sorted[k] in mine {
        assert sorted[k] in multiset(sorted);
      }
    }
    WithJury(sorted, assignments, projectId)
  }

  /** Every deliverable of the project appears in the list. */
  lemma ListsEveryDeliverable(deliverables: seq<Deliverable>, assignments: seq<JuryAssignment>,
                              projectId: nat, d: Deliverable)
    requires d in deliverables && d.projectId == projectId
    ensures exists k :: (0 <= k < |GetDeliverablesByProject(deliverables, assignments, projectId)|
      && GetDeliverablesByProject(deliverables, assignments, projectId)[k].deliverable == d)
  {
    var r := GetDeliverablesByProject(deliverables, assignments, projectId);
    assert d in DeliverablesOf(deliverables, projectId);
    assert d in multiset(Rows(r));
    var k :| 0 <= k < |Rows(r)| && Rows(r)[k] == d;
    assert r[k].deliverable == d;
  }

  /** `getDeliverableById`. */
  function GetDeliverableById(deliverables: seq<Deliverable>, id: nat): (r: Result<Deliverable>)
    ensures r.Ok? ==> r.value in deliverables && r.value.id == id
    ensures r == Err(DeliverableNotFound) <==> forall d <- deliverables :: d.id != id
    ensures r.Err? ==> r.error == DeliverableNotFound
  {
    var d := FindDeliverable(deliverables, id);
    if d.None? then Err(DeliverableNotFound) else Ok(d.value)
  }
}
