/** The entities of the peer-evaluation backend and the error kinds its
    services report, as plain values. */
module Domain {

  datatype Option<+T> = None | Some(value: T)

  /** A service call either yields a value or fails with one of the
      validation errors below (the source throws an Error with a message). */
  datatype Result<+T> = Ok(value: T) | Err(error: Error)

  datatype Error =
    | ProjectNotFound
    | NotProjectOwner
    | WeightRequired
    | InvalidWeight
    | WeightOverflow(available: real)
    | DeliverableNotFound
    | DeliverableNotInProject
    | JuryAlreadyAssigned
    | InsufficientEvaluators
    | NotAssigned
    | DeadlinePassed
    | GradeOutOfRange
    | DuplicateGrade
    | GradeNotFound
    | NotGradeAuthor
    | OnlyStudentsCreateProjects
    | ProjectAlreadyExists
    | AccessDenied

  /** The `role` column of the users table: ENUM('student', 'professor'). */
  datatype Role = Student | Professor

  /** What `Number(x)` sees of a request field: absent (`undefined` or
      `null`), the empty string, something that is not a finite number
      (NaN, Infinity), or a finite number. */
  datatype NumericInput = Missing | EmptyText | NotFinite | Finite(number: real)

  datatype User = User(id: nat, name: string, email: string, role: Role)

  datatype Project = Project(id: nat, ownerId: nat, title: string, description: Option<string>)

  /** `weight` is a DECIMAL(5,2) percentage, nullable for historical rows. */
  datatype Deliverable = Deliverable(
    id: nat, projectId: nat, name: string, deadline: int,
    videoUrl: Option<string>, weight: Option<real>)

  datatype JuryAssignment = JuryAssignment(id: nat, projectId: nat, deliverableId: nat, evaluatorId: nat)

  /** `value` is a DECIMAL(4,2) between 1.00 and 10.00. */
  datatype Grade = Grade(
    id: nat, projectId: nat, deliverableId: nat, evaluatorId: nat,
    value: real, createdAt: int, updatedAt: int)
}
