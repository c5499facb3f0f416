/** The account record (`User`, app/models/user.py), its role predicates
    and role hierarchy, and the `users` table with its unique columns. */
module Users {
  import opened Http
  import opened Roles
  import opened Seqs

  datatype User = User(
    id: nat,
    username: string,
    email: Option<string>,
    fullName: Option<string>,
    hashedPassword: Option<string>,  // absent for accounts made through OAuth
    role: UserRole,
    isActive: bool)

  /** The position of each role in the hierarchy. */
  function Rank(r: UserRole): (n: nat)
    ensures n <= 3
  {
    match r
    case Client => 0
    case Teacher => 1
    case Admin => 2
    case Superadmin => 3
  }

  /** `actual` is at least as high in the hierarchy as `required`. */
  function Satisfies(actual: UserRole, required: UserRole): bool {
    Rank(actual) >= Rank(required)
  }

  /** `User.has_permission`. */
  function HasPermission(u: User, required: UserRole): (b: bool)
    ensures required == Client ==> b
    ensures u.role == required ==> b
    ensures required == Superadmin ==> (b <==> u.role == Superadmin)
    ensures u.role == Client ==> (b <==> required == Client)
  {
    Satisfies(u.role, required)
  }

  function IsSuperadmin(u: User): (b: bool)
    ensures b <==> HasPermission(u, Superadmin)
  {
    u.role == Superadmin
  }

  function IsAdmin(u: User): (b: bool)
    ensures b <==> HasPermission(u, Admin)
    ensures b <==> HasAdminAccess(u.role)
  {
    u.role in [Superadmin, Admin]
  }

  function IsTeacher(u: User): (b: bool)
    ensures b <==> HasPermission(u, Teacher)
    ensures b <==> HasTeacherAccess(u.role)
    ensures IsAdmin(u) ==> b
  {
    u.role in [Superadmin, Admin, Teacher]
  }

  /** The hierarchy is a total order on the four roles. */
  lemma SatisfiesIsTotalOrder()
    ensures TotalPreorder(Satisfies)
    ensures forall a, b :: Satisfies(a, b) && Satisfies(b, a) ==> a == b
  {
  }

  // ---------- the users table ----------

  function Ids(rows: seq<User>): (ids: seq<nat>)
    ensures |ids| == |rows| && forall i | 0 <= i < |rows| :: ids[i] == rows[i].id
  {
    seq(|rows|, i requires 0 <= i < |rows| => rows[i].id)
  }

  function Usernames(rows: seq<User>): (names: seq<string>)
    ensures |names| == |rows| && forall i | 0 <= i < |rows| :: names[i] == rows[i].username
  {
    seq(|rows|, i requires 0 <= i < |rows| => rows[i].username)
  }

  /** An email the application treats as present (`if email:`). */
  predicate Given(e: Option<string>) {
    e.Some? && e.value != ""
  }

  /** Some row already carries the non-empty email `e`. */
  predicate EmailInUse(rows: seq<User>, e: string) {
    Some(e) in Emails(rows)
  }

  function Emails(rows: seq<User>): (emails: seq<Option<string>>)
    ensures |emails| == |rows| && forall i | 0 <= i < |rows| :: emails[i] == rows[i].email
  {
    seq(|rows|, i requires 0 <= i < |rows| => rows[i].email)
  }

  /** UNIQUE(email) as the application maintains it: no two rows share a
      non-empty email. */
  ghost predicate EmailsUnique(rows: seq<User>) {
    forall i, j | 0 <= i < |rows| && 0 <= j < |rows| && i != j && Given(rows[i].email) ::
      rows[i].email != rows[j].email
  }

  /** `db.query(User).filter(User.username == name).first()`. */
  function FindByUsername(rows: seq<User>, name: string): (r: Option<User>)
    ensures r.Some? ==> r.value in rows && r.value.username == name
    ensures r.None? <==> name !in Usernames(rows)
  {
    match FirstIndex(rows, (u: User) => u.username == name)
    case None => None
    case Some(i) => Some(rows[i])
  }

  /** `db.query(User).filter(User.email == e).first()`. */
  function FindByEmail(rows: seq<User>, e: string): (r: Option<User>)
    ensures r.Some? ==> r.value in rows && r.value.email == Some(e)
    ensures r.None? <==> !EmailInUse(rows, e)
  {
    match FirstIndex(rows, (u: User) => u.email == Some(e))
    case None => None
    case Some(i) => Some(rows[i])
  }

  /** The position of the row with primary key `id`. */
  function IndexOfId(rows: seq<User>, id: nat): (r: Option<nat>)
    ensures r.Some? ==> r.value < |rows| && rows[r.value].id == id
    ensures r.None? <==> id !in Ids(rows)
  {
    FirstIndex(rows, (u: User) => u.id == id)
  }

  /** With unique usernames, the row found by name is the only row with it. */
  lemma FoundByUsernameIsUnique(rows: seq<User>, name: string, i: nat)
    requires Distinct(Usernames(rows))
    requires i < |rows| && rows[i].username == name
    ensures FindByUsername(rows, name) == Some(rows[i])
  {
    var k := FirstIndex(rows, (u: User) => u.username == name).value;
    assert Usernames(rows)[k] == Usernames(rows)[i];
  }

  class UserTable {
    var rows: seq<User>
    var nextId: nat

    /** Primary keys below the autoincrement counter and distinct;
        UNIQUE(username); UNIQUE(email) for non-empty emails. */
    ghost predicate Valid()
      reads this
    {
      && (forall i | 0 <= i < |rows| :: rows[i].id < nextId)
      && Distinct(Ids(rows))
      && Distinct(Usernames(rows))
      && EmailsUnique(rows)
    }

    constructor ()
      ensures Valid() && rows == [] && nextId == 1
    {
      rows, nextId := [], 1;
    }

    /** `db.add(user); db.commit()`: the row gets the next primary key. */
    method Add(username: string, email: Option<string>, fullName: Option<string>,
               hashedPassword: Option<string>, role: UserRole) returns (u: User)
      requires Valid()
      requires username !in Usernames(rows)
      requires Given(email) ==> !EmailInUse(rows, email.value)
      modifies this
      ensures Valid()
      ensures u == User(old(nextId), username, email, fullName, hashedPassword, role, true)
      ensures rows == old(rows) + [u] && nextId == old(nextId) + 1
    {
      u := User(nextId, username, email, fullName, hashedPassword, role, true);
      assert Ids(rows + [u]) == Ids(rows) + [u.id];
      assert Usernames(rows + [u]) == Usernames(rows) + [u.username];
      DistinctAppend(Ids(rows), u.id);
      DistinctAppend(Usernames(rows), u.username);
      ghost var before := rows;
      rows := rows + [u];
      nextId := nextId + 1;
      forall i, j | 0 <= i < |rows| && 0 <= j < |rows| && i != j && Given(rows[i].email)
        ensures rows[i].email != rows[j].email
      {
        if i == |before| {
          assert Emails(before)[j] == rows[j].email;
        } else if j == |before| {
          assert Emails(before)[i] == rows[i].email;
        }
      }
    }

    /** `user.role = new_role; db.commit()` on the row at position `k`. */
    method SetRole(k: nat, role: UserRole)
      requires Valid() && k < |rows|
      modifies this
      ensures Valid()
      ensures rows == old(rows)[k := old(rows)[k].(role := role)]
      ensures nextId == old(nextId)
    {
      ghost var before := rows;
      rows := rows[k := rows[k].(role := role)];
      assert Ids(rows) == Ids(before);
      assert Usernames(rows) == Usernames(before);
    }
  }
}
