/**
 * The role gate in front of every task operation: each handler's @PreAuthorize
 * expression, evaluated over the caller's granted authorities, decides whether the
 * call goes ahead. A request with no authenticated caller is turned away before any
 * expression is evaluated.
 */
module Access {

  /** The five task operations. */
  datatype Operation = GetAllTasks | CreateTask | GetTaskById | UpdateTask | DeleteTask

  /** The roles that appear in the annotations. */
  datatype Role = Member | Admin

  /** Who is calling: nobody (no token, or one that did not validate), or a principal with its authority strings. */
  datatype Caller = Anonymous | Authenticated(authorities: seq<string>)

  /** The three terminal states of the gate: proceed, 401 (no caller) and 403 (caller lacks every listed role). */
  datatype Decision = Allow | Unauthenticated | LacksRole

  /** The name of a role as written inside hasRole('...'). */
  function RoleName(role: Role): string
  {
    match role
    case Member => "MEMBER"
    case Admin => "ADMIN"
  }

  /** hasRole('X') is satisfied by the authority string "ROLE_X". */
  function Authority(role: Role): (a: string)
    ensures a == "ROLE_" + RoleName(role)
  {
    match role
    case Member => "ROLE_MEMBER"
    case Admin => "ROLE_ADMIN"
  }

  /** An access-control expression as the handlers write it: hasRole('X') joined by `or`. */
  datatype Rule = HasRole(role: Role) | Or(left: Rule, right: Rule)

  /** The expression in each handler's @PreAuthorize annotation. */
  function PreAuthorize(op: Operation): Rule
  {
    match op
    case DeleteTask => HasRole(Admin)
    case _ => Or(HasRole(Member), HasRole(Admin))
  }

  /** Evaluates an expression over the caller's authorities. */
  function Holds(rule: Rule, authorities: seq<string>): bool
  {
    match rule
    case HasRole(role) => Authority(role) in authorities
    case Or(left, right) => Holds(left, authorities) || Holds(right, authorities)
  }

  /** The role table the annotations encode: delete is for administrators only, everything else for members too. */
  function AllowedRoles(op: Operation): set<Role>
  {
    if op == DeleteTask then {Admin} else {Member, Admin}
  }

  /** True when the authorities grant at least one of the roles in `roles`. */
  predicate GrantsOneOf(authorities: seq<string>, roles: set<Role>)
  {
    (Member in roles && Authority(Member) in authorities) || (Admin in roles && Authority(Admin) in authorities)
  }

  /**
   * The gate: no caller is Unauthenticated; a caller is allowed exactly when its
   * authorities grant one of the roles the operation's table entry lists, and is
   * refused with LacksRole otherwise.
   */
  function Gate(op: Operation, caller: Caller): (d: Decision)
    ensures d == Unauthenticated <==> caller == Anonymous
    ensures d == Allow <==> caller.Authenticated? && GrantsOneOf(caller.authorities, AllowedRoles(op))
    ensures d == LacksRole <==> caller.Authenticated? && !GrantsOneOf(caller.authorities, AllowedRoles(op))
  {
    match caller
    case Anonymous => Unauthenticated
    case Authenticated(authorities) =>
      AnnotationMatchesTable(op, authorities);
      if Holds(PreAuthorize(op), authorities) then Allow else LacksRole
  }

  /** Each handler's annotation, evaluated, agrees with the role table. */
  lemma AnnotationMatchesTable(op: Operation, authorities: seq<string>)
    ensures Holds(PreAuthorize(op), authorities) <==> GrantsOneOf(authorities, AllowedRoles(op))
  {
  }

  /** A caller that is not granted ROLE_ADMIN never gets to delete: it is turned away with 401 or 403. */
  lemma OnlyAdminsDelete(caller: Caller)
    requires caller.Authenticated? ==> Authority(Admin) !in caller.authorities
    ensures Gate(DeleteTask, caller) != Allow
    ensures caller.Authenticated? ==> Gate(DeleteTask, caller) == LacksRole
  {
  }

  /** A member can read, create and update, and an administrator can do everything. */
  lemma MembersReadAndWrite(op: Operation, authorities: seq<string>)
    requires Authority(Admin) in authorities || (op != DeleteTask && Authority(Member) in authorities)
    ensures Gate(op, Authenticated(authorities)) == Allow
  {
  }

}
