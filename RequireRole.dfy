/** `requireRole`: the route guard that lets a request through only when an
    authenticated user with one of the allowed roles made it. */
module RequireRole {
  import opened Domain

  /** What the guard does with a request: answer 401, answer 403, or call
      `next()`. */
  datatype Outcome = Unauthenticated | Forbidden | Pass

  /** The guard built by `requireRole(...allowedRoles)`, applied to a request
      whose authenticated user (`req.user`) may be missing. */
  function RequireRole(allowedRoles: seq<Role>, user: Option<User>): (o: Outcome)
    ensures o == Unauthenticated <==> user.None?
    ensures o == Forbidden <==> user.Some? && user.value.role !in allowedRoles
    ensures o == Pass <==> user.Some? && user.value.role in allowedRoles
  {
    if user.None? then Unauthenticated
    else if user.value.role !in allowedRoles then Forbidden
    else Pass
  }

  /** The HTTP status the guard answers with; `None` when it passes the
      request on. */
  function StatusCode(o: Outcome): (code: Option<nat>)
    ensures code.None? <==> o == Pass
    ensures code == Some(401) <==> o == Unauthenticated
    ensures code == Some(403) <==> o == Forbidden
  {
    match o
    case Unauthenticated => Some(401)
    case Forbidden => Some(403)
    case Pass => None
  }

  /** A guard with no allowed roles answers every authenticated user with
      403. */
  lemma NoRolesForbidsEveryone(u: User)
    ensures StatusCode(RequireRole([], Some(u))) == Some(403)
  {
    assert u.role !in [];
  }

  /** Allowing more roles never takes access away, and allows no one who
      was unauthenticated. */
  lemma {:induction false} MoreRolesNeverRemoveAccess(allowed: seq<Role>, more: seq<Role>, user: Option<User>)
    requires forall r <- allowed :: r in more
    ensures RequireRole(allowed, user) == Pass ==> RequireRole(more, user) == Pass
    ensures RequireRole(more, user) == Unauthenticated <==> RequireRole(allowed, user) == Unauthenticated
  {
    if user.Some? && user.value.role in allowed {
      assert user.value.role in more;
    }
  }

  /** The routes' guards: `requireRole('student')` keeps professors out,
      `requireRole('professor')` keeps students out, and a guard allowing
      both roles passes every authenticated user. */
  lemma SingleRoleGuards(u: User)
    ensures RequireRole([Student], Some(u)) == Pass <==> u.role == Student
    ensures RequireRole([Professor], Some(u)) == Pass <==> u.role == Professor
    ensures RequireRole([Student, Professor], Some(u)) == Pass
  {
    assert u.role in [Student, Professor] by {
      if u.role == Student {
        assert [Student, Professor][0] == u.role;
      } else {
        assert [Student, Professor][1] == u.role;
      }
    }
  }
}
