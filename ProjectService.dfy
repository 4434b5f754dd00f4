/** `ProjectService`: creating a student's single project, listing projects
    by role, and the access rule for reading one project. */
module ProjectService {
  import opened Domain
  import opened Tables
  import opened Database

  /** The checks `createProject` makes before inserting (the user must
      exist and be a student, and must not own a project yet). */
  function CreateProjectCheck(users: seq<User>, projects: seq<Project>, ownerId: nat): (r: Option<Error>)
    requires KeysUnique(users, UserId)
    ensures r == None <==>
      (exists u <- users :: u.id == ownerId && u.role == Student) && !OwnsProject(projects, ownerId)
    ensures (forall u <- users :: u.id != ownerId) ==> r == Some(OnlyStudentsCreateProjects)
    ensures r.Some? ==> r.value in {OnlyStudentsCreateProjects, ProjectAlreadyExists}
    ensures r == Some(ProjectAlreadyExists) ==> OwnsProject(projects, ownerId)
  {
    var user := FindUser(users, ownerId);
    if user.None? || user.value.role != Student then
      assert forall u <- users :: u.id == ownerId ==> u == user.value by {
        forall u <- users | u.id == ownerId ensures u == user.value {
          KeyIdentifies(users, UserId, u, user.value);
        }
      }
      Some(OnlyStudentsCreateProjects)
    else if OwnsProject(projects, ownerId) then Some(ProjectAlreadyExists)
    else None
  }

  /** `createProject`: on success exactly one project, owned by `ownerId`,
      is added, and no other table changes. */
  method CreateProject(db: Store, ownerId: nat, title: string, description: Option<string>)
    returns (r: Result<Project>)
    requires db.Valid()
    modifies db
    ensures db.Valid()
    ensures db.users == old(db.users) && db.deliverables == old(db.deliverables)
    ensures db.assignments == old(db.assignments) && db.grades == old(db.grades)
    ensures db.nextDeliverableId == old(db.nextDeliverableId)
    ensures db.nextAssignmentId == old(db.nextAssignmentId) && db.nextGradeId == old(db.nextGradeId)
    ensures var check := CreateProjectCheck(old(db.users), old(db.projects), ownerId);
      if check.Some? then
        r == Err(check.value) && db.projects == old(db.projects) && db.nextProjectId == old(db.nextProjectId)
      else
        && r == Ok(Project(old(db.nextProjectId), ownerId, title, description))
        && db.projects == old(db.projects) + [r.value]
        && db.nextProjectId == old(db.nextProjectId) + 1
  {
    var check := CreateProjectCheck(db.users, db.projects, ownerId);
    if check.Some? {
      return Err(check.value);
    }
    var project := Project(db.nextProjectId, ownerId, title, description);
    AppendFreshKey(db.projects, ProjectId, db.nextProjectId, project);
    AppendNewKey(db.projects, ProjectOwner, project);
    assert UserKeysOk(db.users, db.projects + [project], db.assignments) by {
      assert IsUser(db.users, ownerId);
      assert forall p <- db.projects + [project] :: p in db.projects || p == project;
    }
    db.projects := db.projects + [project];
    db.nextProjectId := db.nextProjectId + 1;
    r := Ok(project);
  }

  /** `getAllProjects`: a professor sees every project, anyone else only the
      projects they own. */
  function GetAllProjects(projects: seq<Project>, userId: nat, role: Role): (r: seq<Project>)
    ensures role == Professor ==> r == projects
    ensures role != Professor ==> forall p :: p in r <==> p in projects && p.ownerId == userId
  {
    if role == Professor then projects
    else Filter(projects, (p: Project) => p.ownerId == userId)
  }

  /** Since an owner has at most one project, a student's list has at most
      one entry, and it is empty exactly when the student owns none. */
  lemma {:induction false} StudentSeesAtMostOneProject(projects: seq<Project>, userId: nat)
    requires KeysUnique(projects, ProjectOwner)
    ensures |GetAllProjects(projects, userId, Student)| <= 1
    ensures |GetAllProjects(projects, userId, Student)| == 1 <==> OwnsProject(projects, userId)
  {
    var r := GetAllProjects(projects, userId, Student);
    if |r| >= 2 {
      assert r[0] in projects && r[1] in projects;
      KeyIdentifies(projects, ProjectOwner, r[0], r[1]);
      FilterNoRepeats(projects, userId);
      assert false;
    }
    if OwnsProject(projects, userId) {
      var p :| p in projects && p.ownerId == userId;
      assert p in r;
    }
  }

  /** The rows of a table whose owners are unique never repeat. */
  lemma {:induction false} FilterNoRepeats(projects: seq<Project>, userId: nat)
    requires KeysUnique(projects, ProjectOwner)
    ensures var r := Filter(projects, (p: Project) => p.ownerId == userId);
      |r| >= 2 ==> r[0] != r[1]
  {
    var keep := (p: Project) => p.ownerId == userId;
    if projects != [] {
      var tail := projects[1..];
      assert KeysUnique(tail, ProjectOwner) by {
        forall i, j | 0 <= i < j < |tail| ensures ProjectOwner(tail[i]) != ProjectOwner(tail[j]) {
          assert tail[i] == projects[i + 1] && tail[j] == projects[j + 1];
        }
      }
      FilterNoRepeats(tail, userId);
    }
  }

  /** `getProjectById`: the project, if the caller is a professor, its
      owner, or one of its evaluators. */
  function GetProjectById(projects: seq<Project>, assignments: seq<JuryAssignment>,
                          projectId: nat, userId: nat, role: Role): (r: Result<Project>)
    ensures r.Ok? ==> r.value in projects && r.value.id == projectId
    ensures (forall p <- projects :: p.id != projectId) <==> r == Err(ProjectNotFound)
    ensures r.Err? ==> r.error in {ProjectNotFound, AccessDenied}
    ensures forall p <- projects :: p.id == projectId && KeysUnique(projects, ProjectId) ==>
      (r == Ok(p) <==> role == Professor || p.ownerId == userId || EvaluatesProject(assignments, projectId, userId))
  {
    var project := FindProject(projects, projectId);
    if project.None? then Err(ProjectNotFound)
    else if role == Professor then Ok(project.value)
    else if project.value.ownerId == userId then Ok(project.value)
    else if EvaluatesProject(assignments, projectId, userId) then Ok(project.value)
    else Err(AccessDenied)
  }
}
