/** The closed set of account roles (`UserRole`, app/models/enums.py) and
    the class-level access helpers defined next to it. */
module Roles {
  import opened Http

  datatype UserRole = Superadmin | Admin | Teacher | Client

  /** The string value each role is stored and sent as. */
  function Value(r: UserRole): (s: string)
    ensures s in {"superadmin", "admin", "teacher", "client"}
  {
    match r
    case Superadmin => "superadmin"
    case Admin => "admin"
    case Teacher => "teacher"
    case Client => "client"
  }

  /** `UserRole(s)`: the role whose value is `s`, if there is one. */
  function Parse(s: string): (r: Option<UserRole>)
    ensures r.Some? ==> Value(r.value) == s
    ensures r.None? <==> s !in {"superadmin", "admin", "teacher", "client"}
  {
    if s == "superadmin" then Some(Superadmin)
    else if s == "admin" then Some(Admin)
    else if s == "teacher" then Some(Teacher)
    else if s == "client" then Some(Client)
    else None
  }

  /** Parsing a role's value gives the role back, so the four values are distinct. */
  lemma ValueRoundTrip(r: UserRole)
    ensures Parse(Value(r)) == Some(r)
  {
  }

  lemma ValueInjective(a: UserRole, b: UserRole)
    requires Value(a) == Value(b)
    ensures a == b
  {
    ValueRoundTrip(a);
    ValueRoundTrip(b);
  }

  function HasAdminAccess(r: UserRole): (b: bool)
    ensures b <==> CanManageUsers(r)
    ensures b ==> HasTeacherAccess(r)
    ensures r == Client ==> !b
  {
    r in [Superadmin, Admin]
  }

  function HasTeacherAccess(r: UserRole): (b: bool)
    ensures b <==> CanCreateContent(r)
    ensures b <==> r != Client
  {
    assert r.Client? || r.Teacher? || r.Admin? || r.Superadmin?;
    r in [Superadmin, Admin, Teacher]
  }

  function CanManageUsers(r: UserRole): (b: bool)
  {
    r in [Superadmin, Admin]
  }

  function CanCreateContent(r: UserRole): (b: bool)
  {
    r in [Superadmin, Admin, Teacher]
  }
}
