/** The authorization gate (app/dependencies.py): the chain of guards that
    turns a bearer token into the current user, and the role checks that
    endpoints add on top of it.  Verifying the token's signature and
    expiry is outside the model: `decoded` is what `decode_token` returned
    (None when the token is malformed, forged or expired). */
module Dependencies {
  import opened Http
  import opened Roles
  import opened Users
  import opened Seqs

  /** The claims a token carries: `sub` (the username), `user_id` and,
      in an access token, `role`. */
  datatype Claims = Claims(sub: Option<string>, userId: Option<nat>, role: Option<string>)

  /** `get_current_user`: decode, then `sub` present, then user found,
      then user active. */
  function GetCurrentUser(decoded: Option<Claims>, users: seq<User>): (r: Result<User>)
    ensures decoded.None? ==> r == Err(InvalidToken)
    ensures decoded.Some? && decoded.value.sub.None? ==> r == Err(MalformedClaims)
    ensures r == Err(UnknownUser) <==>
              decoded.Some? && decoded.value.sub.Some? && decoded.value.sub.value !in Usernames(users)
    ensures r.Ok? ==> decoded.Some? && decoded.value.sub == Some(r.value.username)
                      && r.value in users && r.value.isActive
    ensures r.Err? ==> r.reason in {InvalidToken, MalformedClaims, UnknownUser, InactiveUser}
    ensures r.Err? ==> Status(r.reason) == if r.reason == InactiveUser then 403 else 401
  {
    if decoded.None? then Err(InvalidToken)
    else if decoded.value.sub.None? then Err(MalformedClaims)
    else match FindByUsername(users, decoded.value.sub.value)
      case None => Err(UnknownUser)
      case Some(u) => if !u.isActive then Err(InactiveUser) else Ok(u)
  }

  /** When usernames are unique, a token naming an existing user admits
      exactly that user if it is active and is refused with 403 if not. */
  lemma GateResolvesNamedUser(decoded: Option<Claims>, users: seq<User>, i: nat)
    requires Distinct(Usernames(users))
    requires i < |users| && decoded.Some? && decoded.value.sub == Some(users[i].username)
    ensures GetCurrentUser(decoded, users) ==
              if users[i].isActive then Ok(users[i]) else Err(InactiveUser)
  {
    FoundByUsernameIsUnique(users, users[i].username, i);
  }

  /** `get_current_active_user`: its own activity check never fires,
      because `get_current_user` admits only active users. */
  function GetCurrentActiveUser(decoded: Option<Claims>, users: seq<User>): (r: Result<User>)
    ensures r == GetCurrentUser(decoded, users)
  {
    match GetCurrentUser(decoded, users)
    case Err(e) => Err(e)
    case Ok(u) => if !u.isActive then Err(InactiveUser) else Ok(u)
  }

  /** `require_superadmin`. */
  function RequireSuperadmin(decoded: Option<Claims>, users: seq<User>): (r: Result<User>)
    ensures GetCurrentUser(decoded, users).Err? ==> r == GetCurrentUser(decoded, users)
    ensures r.Ok? <==> GetCurrentUser(decoded, users).Ok? && GetCurrentUser(decoded, users).value.role == Superadmin
    ensures r.Ok? ==> r == GetCurrentUser(decoded, users)
    ensures GetCurrentUser(decoded, users).Ok? && r.Err? ==> r == Err(SuperadminOnly) && Status(r.reason) == 403
  {
    match GetCurrentUser(decoded, users)
    case Err(e) => Err(e)
    case Ok(u) => if u.role != Superadmin then Err(SuperadminOnly) else Ok(u)
  }

  /** `require_admin`. */
  function RequireAdmin(decoded: Option<Claims>, users: seq<User>): (r: Result<User>)
    ensures GetCurrentUser(decoded, users).Err? ==> r == GetCurrentUser(decoded, users)
    ensures r.Ok? <==> GetCurrentUser(decoded, users).Ok? && GetCurrentUser(decoded, users).value.role in {Admin, Superadmin}
    ensures r.Ok? ==> r == GetCurrentUser(decoded, users)
    ensures GetCurrentUser(decoded, users).Ok? && r.Err? ==> r == Err(AdminRequired) && Status(r.reason) == 403
  {
    match GetCurrentUser(decoded, users)
    case Err(e) => Err(e)
    case Ok(u) => if !IsAdmin(u) then Err(AdminRequired) else Ok(u)
  }

  /** `require_teacher`. */
  function RequireTeacher(decoded: Option<Claims>, users: seq<User>): (r: Result<User>)
    ensures GetCurrentUser(decoded, users).Err? ==> r == GetCurrentUser(decoded, users)
    ensures r.Ok? <==> GetCurrentUser(decoded, users).Ok? && GetCurrentUser(decoded, users).value.role != Client
    ensures r.Ok? ==> r == GetCurrentUser(decoded, users)
    ensures GetCurrentUser(decoded, users).Ok? && r.Err? ==> r == Err(TeacherRequired) && Status(r.reason) == 403
  {
    match GetCurrentUser(decoded, users)
    case Err(e) => Err(e)
    case Ok(u) => if !IsTeacher(u) then Err(TeacherRequired) else Ok(u)
  }

  /** The checker built by `require_role(required)`. */
  function RequireRole(required: UserRole, decoded: Option<Claims>, users: seq<User>): (r: Result<User>)
    ensures GetCurrentUser(decoded, users).Err? ==> r == GetCurrentUser(decoded, users)
    ensures r.Ok? <==> GetCurrentUser(decoded, users).Ok? && Rank(GetCurrentUser(decoded, users).value.role) >= Rank(required)
    ensures r.Ok? ==> r == GetCurrentUser(decoded, users)
    ensures GetCurrentUser(decoded, users).Ok? && r.Err? ==> r == Err(RoleRequired(Value(required)))
  {
    match GetCurrentUser(decoded, users)
    case Err(e) => Err(e)
    case Ok(u) => if !HasPermission(u, required) then Err(RoleRequired(Value(required))) else Ok(u)
  }

  /** The fixed guards admit exactly who the generic checker admits at
      the matching level; only the error detail differs. */
  lemma FixedGuardsAreRoleChecks(decoded: Option<Claims>, users: seq<User>)
    ensures RequireSuperadmin(decoded, users).Ok? <==> RequireRole(Superadmin, decoded, users).Ok?
    ensures RequireAdmin(decoded, users).Ok? <==> RequireRole(Admin, decoded, users).Ok?
    ensures RequireTeacher(decoded, users).Ok? <==> RequireRole(Teacher, decoded, users).Ok?
    ensures RequireRole(Client, decoded, users) == GetCurrentUser(decoded, users)
  {
  }
}
