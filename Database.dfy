/** The relational store behind the services: one object holding the rows
    of every table and the autoincrement counters, with the schema's
    constraints and the services' rules as its invariant. */
module Database {
  import opened Domain
  import opened Tables

  class Store {
    var users: seq<User>
    var projects: seq<Project>
    var deliverables: seq<Deliverable>
    var assignments: seq<JuryAssignment>
    var grades: seq<Grade>
    var nextProjectId: nat
    var nextDeliverableId: nat
    var nextAssignmentId: nat
    var nextGradeId: nat

    ghost predicate Valid()
      reads this
    {
      && UsersOk(users)
      && ProjectsOk(projects, nextProjectId)
      && DeliverablesOk(deliverables, projects, nextDeliverableId)
      && AssignmentsOk(assignments, projects, deliverables, nextAssignmentId)
      && GradesOk(grades, assignments, nextGradeId)
      && UserKeysOk(users, projects, assignments)
    }

    /** A store holding the registered users and nothing else (user
        registration is not part of this model). */
    constructor (registered: seq<User>)
      requires UsersOk(registered)
      ensures Valid()
      ensures users == registered
      ensures projects == [] && deliverables == [] && assignments == [] && grades == []
    {
      users := registered;
      projects := [];
      deliverables := [];
      assignments := [];
      grades := [];
      nextProjectId := 1;
      nextDeliverableId := 1;
      nextAssignmentId := 1;
      nextGradeId := 1;
    }
  }
}
