/**
 * The two role permissions. Each evaluates
 * `request.user and request.user.role == <ROLE>` in Python.
 */
module Permissions {
  import opened Users

  /**
   * What `request.user` can be: `None`, Django's `AnonymousUser` (truthy,
   * but without a `role` attribute), or a stored user.
   */
  datatype RequestUser = NoUser | Anonymous | SignedIn(user: User)

  /** The outcome of `has_permission`: granted, refused, or an `AttributeError` raised while reading `role`. */
  datatype Decision = Grant | Refuse | AttributeError

  /** `request.user and request.user.role == role` for a role value. */
  function RoleCheck(u: RequestUser, role: Role): Decision
  {
    match u
    case NoUser => Refuse
    case Anonymous => AttributeError
    case SignedIn(x) => if x.role == role then Grant else Refuse
  }

  /** `IsAdmin.has_permission`. */
  function IsAdmin(u: RequestUser): Decision { RoleCheck(u, Admin) }

  /** `IsProfessor.has_permission`. */
  function IsProfessor(u: RequestUser): Decision { RoleCheck(u, Professor) }

  /** `IsAdmin` grants exactly to a stored user whose role is `ADMIN`. */
  lemma IsAdminExactly(u: RequestUser)
    ensures IsAdmin(u) == Grant <==> u.SignedIn? && u.user.role == Admin
    ensures IsAdmin(u) == AttributeError <==> u.Anonymous?
  {
  }

  /** `IsProfessor` grants exactly to a stored user whose role is `PROFESSOR`. */
  lemma IsProfessorExactly(u: RequestUser)
    ensures IsProfessor(u) == Grant <==> u.SignedIn? && u.user.role == Professor
    ensures IsProfessor(u) == AttributeError <==> u.Anonymous?
  {
  }

  /** No request is granted both permissions; a stored user is granted exactly one. */
  lemma RolesExclusive(u: RequestUser)
    ensures !(IsAdmin(u) == Grant && IsProfessor(u) == Grant)
    ensures u.SignedIn? ==> (IsAdmin(u) == Grant <==> IsProfessor(u) == Refuse)
  {
  }

  /** With no user both checks refuse, before any role is read. */
  lemma NoUserRefused()
    ensures IsAdmin(NoUser) == Refuse && IsProfessor(NoUser) == Refuse
  {
  }
}
