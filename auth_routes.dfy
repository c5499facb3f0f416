/** The account endpoints (app/routes/auth.py): registration by role,
    password login, role inspection and change, and sign-in through an
    external provider.  Password hashing and checking are parameters;
    a token is represented by the claims it signs. */
module AuthRoutes {
  import opened Http
  import opened Roles
  import opened Seqs
  import opened Strings
  import opened Users
  import opened Dependencies
  import opened OAuthAccounts
  import opened OAuthUtils

  /** The registration payload (`UserCreate`).  Its `role` is accepted
      and ignored: each endpoint fixes the role it creates. */
  datatype UserCreate = UserCreate(
    username: string,
    email: Option<string>,
    fullName: Option<string>,
    password: string,
    role: UserRole)

  datatype UserLogin = UserLogin(username: string, password: string)

  datatype TokenPair = TokenPair(access: Claims, refresh: Claims)

  const MinPasswordLength: nat := 6

  /** The claims of the access token: name, id and role. */
  function AccessClaims(u: User): Claims {
    Claims(Some(u.username), Some(u.id), Some(Value(u.role)))
  }

  /** The claims of the refresh token: name and id, no role. */
  function RefreshClaims(u: User): Claims {
    Claims(Some(u.username), Some(u.id), None)
  }

  function IssueTokens(u: User): TokenPair {
    TokenPair(AccessClaims(u), RefreshClaims(u))
  }

  /** The role claim of an access token reads back as the holder's role. */
  lemma AccessRoleReadsBack(u: User)
    ensures IssueTokens(u).access.role.Some?
    ensures Parse(IssueTokens(u).access.role.value) == Some(u.role)
    ensures IssueTokens(u).refresh.role.None?
  {
    ValueRoundTrip(u.role);
  }

  /** Tokens issued to an active user of the table are accepted by the
      gate and resolve to that same user.  Since the decoder does not
      distinguish the two kinds here, this holds for the refresh token too. */
  lemma IssuedTokensAdmitHolder(rows: seq<User>, i: nat)
    requires Distinct(Usernames(rows))
    requires i < |rows| && rows[i].isActive
    ensures GetCurrentUser(Some(IssueTokens(rows[i]).access), rows) == Ok(rows[i])
    ensures GetCurrentUser(Some(IssueTokens(rows[i]).refresh), rows) == Ok(rows[i])
  {
    GateResolvesNamedUser(Some(IssueTokens(rows[i]).access), rows, i);
    GateResolvesNamedUser(Some(IssueTokens(rows[i]).refresh), rows, i);
  }

  // ---------- registration ----------

  /** The checks every registration endpoint runs, first failure wins:
      username free, then a given email free, then (client registration
      only) the password long enough. */
  function RegistrationCheck(rows: seq<User>, data: UserCreate, checkPassword: bool): (r: Option<Reason>)
    ensures r == Some(UsernameTaken) <==> data.username in Usernames(rows)
    ensures r == Some(EmailTaken) <==>
              data.username !in Usernames(rows) && Given(data.email) && EmailInUse(rows, data.email.value)
    ensures r == Some(PasswordTooShort) <==>
              data.username !in Usernames(rows) && !(Given(data.email) && EmailInUse(rows, data.email.value))
              && checkPassword && |data.password| < MinPasswordLength
    ensures r.None? <==>
              data.username !in Usernames(rows) && !(Given(data.email) && EmailInUse(rows, data.email.value))
              && !(checkPassword && |data.password| < MinPasswordLength)
  {
    if FindByUsername(rows, data.username).Some? then Some(UsernameTaken)
    else if Given(data.email) && FindByEmail(rows, data.email.value).Some? then Some(EmailTaken)
    else if checkPassword && |data.password| < MinPasswordLength then Some(PasswordTooShort)
    else None
  }

  /** The body shared by the registration endpoints: run the checks, then
      insert one active user with the endpoint's role. */
  method Register(users: UserTable, data: UserCreate, role: UserRole, checkPassword: bool,
                  hash: string -> string) returns (r: Result<User>)
    requires users.Valid()
    modifies users
    ensures users.Valid()
    ensures r.Err? <==> RegistrationCheck(old(users.rows), data, checkPassword).Some?
    ensures r.Err? ==> Some(r.reason) == RegistrationCheck(old(users.rows), data, checkPassword)
                       && users.rows == old(users.rows) && users.nextId == old(users.nextId)
    ensures r.Ok? ==> r.value == User(old(users.nextId), data.username, data.email, data.fullName,
                                      Some(hash(data.password)), role, true)
                      && users.rows == old(users.rows) + [r.value]
  {
    var check := RegistrationCheck(users.rows, data, checkPassword);
    if check.Some? {
      return Err(check.value);
    }
    var u := users.Add(data.username, data.email, data.fullName, Some(hash(data.password)), role);
    return Ok(u);
  }

  /** Public client registration. */
  method RegisterClient(users: UserTable, data: UserCreate, hash: string -> string) returns (r: Result<User>)
    requires users.Valid()
    modifies users
    ensures users.Valid()
    ensures r.Err? <==> RegistrationCheck(old(users.rows), data, true).Some?
    ensures r.Err? ==> Some(r.reason) == RegistrationCheck(old(users.rows), data, true)
                       && users.rows == old(users.rows) && users.nextId == old(users.nextId)
    ensures r.Ok? ==> r.value == User(old(users.nextId), data.username, data.email, data.fullName,
                                      Some(hash(data.password)), Client, true)
                      && users.rows == old(users.rows) + [r.value]
  {
    r := Register(users, data, Client, true, hash);
  }

  /** Teacher registration, for administrators. */
  method RegisterTeacher(decoded: Option<Claims>, users: UserTable, data: UserCreate, hash: string -> string)
    returns (r: Result<User>)
    requires users.Valid()
    modifies users
    ensures users.Valid()
    ensures RequireAdmin(decoded, old(users.rows)).Err? ==>
              r == Err(RequireAdmin(decoded, old(users.rows)).reason)
              && users.rows == old(users.rows) && users.nextId == old(users.nextId)
    ensures RequireAdmin(decoded, old(users.rows)).Ok? ==>
              (r.Err? <==> RegistrationCheck(old(users.rows), data, false).Some?)
    ensures RequireAdmin(decoded, old(users.rows)).Ok? && r.Err? ==>
              Some(r.reason) == RegistrationCheck(old(users.rows), data, false)
              && users.rows == old(users.rows) && users.nextId == old(users.nextId)
    ensures r.Ok? ==> RequireAdmin(decoded, old(users.rows)).Ok?
                      && r.value == User(old(users.nextId), data.username, data.email, data.fullName,
                                         Some(hash(data.password)), Teacher, true)
                      && users.rows == old(users.rows) + [r.value]
  {
    var caller := RequireAdmin(decoded, users.rows);
    if caller.Err? {
      return Err(caller.reason);
    }
    r := Register(users, data, Teacher, false, hash);
  }

  /** Administrator registration, for administrators. */
  method RegisterAdmin(decoded: Option<Claims>, users: UserTable, data: UserCreate, hash: string -> string)
    returns (r: Result<User>)
    requires users.Valid()
    modifies users
    ensures users.Valid()
    ensures RequireAdmin(decoded, old(users.rows)).Err? ==>
              r == Err(RequireAdmin(decoded, old(users.rows)).reason)
              && users.rows == old(users.rows) && users.nextId == old(users.nextId)
    ensures RequireAdmin(decoded, old(users.rows)).Ok? ==>
              (r.Err? <==> RegistrationCheck(old(users.rows), data, false).Some?)
    ensures RequireAdmin(decoded, old(users.rows)).Ok? && r.Err? ==>
              Some(r.reason) == RegistrationCheck(old(users.rows), data, false)
              && users.rows == old(users.rows) && users.nextId == old(users.nextId)
    ensures r.Ok? ==> RequireAdmin(decoded, old(users.rows)).Ok?
                      && r.value == User(old(users.nextId), data.username, data.email, data.fullName,
                                         Some(hash(data.password)), Admin, true)
                      && users.rows == old(users.rows) + [r.value]
  {
    var caller := RequireAdmin(decoded, users.rows);
    if caller.Err? {
      return Err(caller.reason);
    }
    r := Register(users, data, Admin, false, hash);
  }

  /** Super-administrator registration, for super-administrators only. */
  method RegisterSuperadmin(decoded: Option<Claims>, users: UserTable, data: UserCreate, hash: string -> string)
    returns (r: Result<User>)
    requires users.Valid()
    modifies users
    ensures users.Valid()
    ensures RequireSuperadmin(decoded, old(users.rows)).Err? ==>
              r == Err(RequireSuperadmin(decoded, old(users.rows)).reason)
              && users.rows == old(users.rows) && users.nextId == old(users.nextId)
    ensures RequireSuperadmin(decoded, old(users.rows)).Ok? ==>
              (r.Err? <==> RegistrationCheck(old(users.rows), data, false).Some?)
    ensures RequireSuperadmin(decoded, old(users.rows)).Ok? && r.Err? ==>
              Some(r.reason) == RegistrationCheck(old(users.rows), data, false)
              && users.rows == old(users.rows) && users.nextId == old(users.nextId)
    ensures r.Ok? ==> RequireSuperadmin(decoded, old(users.rows)).Ok?
                      && r.value == User(old(users.nextId), data.username, data.email, data.fullName,
                                         Some(hash(data.password)), Superadmin, true)
                      && users.rows == old(users.rows) + [r.value]
  {
    var caller := RequireSuperadmin(decoded, users.rows);
    if caller.Err? {
      return Err(caller.reason);
    }
    r := Register(users, data, Superadmin, false, hash);
  }

  // ---------- login ----------

  /** The login decision: an unknown name and a wrong password are the
      same 401; a correct password of an inactive user is 403; otherwise
      the user's tokens. */
  function Login(rows: seq<User>, creds: UserLogin, verify: (string, Option<string>) -> bool): (r: Result<TokenPair>)
    ensures creds.username !in Usernames(rows) ==> r == Err(BadCredentials)
    ensures r.Err? ==> r.reason == BadCredentials || r.reason == InactiveUser
    ensures r.Err? ==> Status(r.reason) == if r.reason == BadCredentials then 401 else 403
    ensures r.Ok? || r == Err(InactiveUser) ==>
              exists i | 0 <= i < |rows| :: rows[i].username == creds.username
                                            && verify(creds.password, rows[i].hashedPassword)
                                            && (r.Ok? ==> rows[i].isActive && r.value == IssueTokens(rows[i]))
                                            && (r.Err? ==> !rows[i].isActive)
  {
    match FirstIndex(rows, (u: User) => u.username == creds.username)
    case None => Err(BadCredentials)
    case Some(i) =>
      var u := rows[i];
      if !verify(creds.password, u.hashedPassword) then Err(BadCredentials)
      else if !u.isActive then Err(InactiveUser)
      else Ok(IssueTokens(u))
  }

  /** With unique usernames, the decision for a known name depends only on
      that user's password check and activity flag. */
  lemma LoginDecision(rows: seq<User>, creds: UserLogin, verify: (string, Option<string>) -> bool, i: nat)
    requires Distinct(Usernames(rows))
    requires i < |rows| && rows[i].username == creds.username
    ensures Login(rows, creds, verify) ==
              if !verify(creds.password, rows[i].hashedPassword) then Err(BadCredentials)
              else if !rows[i].isActive then Err(InactiveUser)
              else Ok(IssueTokens(rows[i]))
  {
    var k := FirstIndex(rows, (u: User) => u.username == creds.username).value;
    assert Usernames(rows)[k] == Usernames(rows)[i];
  }

  /** A successful login yields an access token the gate accepts for the
      same account. */
  lemma LoginTokensPassGate(rows: seq<User>, creds: UserLogin, verify: (string, Option<string>) -> bool)
    requires Distinct(Usernames(rows))
    requires Login(rows, creds, verify).Ok?
    ensures GetCurrentUser(Some(Login(rows, creds, verify).value.access), rows).Ok?
    ensures GetCurrentUser(Some(Login(rows, creds, verify).value.access), rows).value.username == creds.username
  {
    var i :| 0 <= i < |rows| && rows[i].username == creds.username && rows[i].isActive
             && Login(rows, creds, verify).value == IssueTokens(rows[i]);
    IssuedTokensAdmitHolder(rows, i);
  }

  // ---------- role inspection ----------

  datatype RoleCheck = RoleCheck(username: string, currentRole: string, requiredRole: string, hasPermission: bool)

  /** `check_user_role`: whether the caller's role reaches `required`. */
  function CheckUserRole(required: UserRole, decoded: Option<Claims>, users: seq<User>): (r: Result<RoleCheck>)
    ensures r.Ok? <==> GetCurrentUser(decoded, users).Ok?
    ensures r.Err? ==> r.reason == GetCurrentUser(decoded, users).reason
    ensures r.Ok? ==> r.value.username == GetCurrentUser(decoded, users).value.username
                      && r.value.currentRole == Value(GetCurrentUser(decoded, users).value.role)
                      && r.value.requiredRole == Value(required)
    ensures r.Ok? ==> (r.value.hasPermission <==> RequireRole(required, decoded, users).Ok?)
  {
    match GetCurrentUser(decoded, users)
    case Err(e) => Err(e)
    case Ok(u) => Ok(RoleCheck(u.username, Value(u.role), Value(required), HasPermission(u, required)))
  }

  /** `get_all_users`: the whole table, for administrators. */
  function GetAllUsers(decoded: Option<Claims>, users: seq<User>): (r: Result<seq<User>>)
    ensures r.Ok? <==> RequireAdmin(decoded, users).Ok?
    ensures r.Err? ==> r.reason == RequireAdmin(decoded, users).reason
    ensures r.Ok? ==> r.value == users
  {
    match RequireAdmin(decoded, users)
    case Err(e) => Err(e)
    case Ok(_) => Ok(users)
  }

  // ---------- role change ----------

  /** `change_user_role`: an administrator changes one user's role; only a
      super-administrator may grant the super-administrator role. */
  method ChangeUserRole(decoded: Option<Claims>, users: UserTable, userId: nat, newRole: UserRole)
    returns (r: Result<User>)
    requires users.Valid()
    modifies users
    ensures users.Valid() && users.nextId == old(users.nextId)
    ensures RequireAdmin(decoded, old(users.rows)).Err? ==> r == Err(RequireAdmin(decoded, old(users.rows)).reason)
    ensures r == Err(UserNotFound) <==>
              RequireAdmin(decoded, old(users.rows)).Ok? && userId !in Ids(old(users.rows))
    ensures r == Err(SuperadminGrantRestricted) <==>
              RequireAdmin(decoded, old(users.rows)).Ok? && userId in Ids(old(users.rows))
              && newRole == Superadmin && RequireAdmin(decoded, old(users.rows)).value.role != Superadmin
    ensures (RequireAdmin(decoded, old(users.rows)).Ok? && userId in Ids(old(users.rows))
             && (newRole != Superadmin || RequireAdmin(decoded, old(users.rows)).value.role == Superadmin))
            ==> r.Ok?
    ensures r.Err? ==> users.rows == old(users.rows)
    ensures r.Ok? ==> IndexOfId(old(users.rows), userId).Some?
                      && (var k := IndexOfId(old(users.rows), userId).value;
                          users.rows == old(users.rows)[k := old(users.rows)[k].(role := newRole)]
                          && r.value == users.rows[k])
    ensures r.Ok? && newRole == Superadmin ==> RequireSuperadmin(decoded, old(users.rows)).Ok?
  {
    var caller := RequireAdmin(decoded, users.rows);
    if caller.Err? {
      return Err(caller.reason);
    }
    var k := IndexOfId(users.rows, userId);
    if k.None? {
      return Err(UserNotFound);
    }
    if newRole == Superadmin && caller.value.role != Superadmin {
      return Err(SuperadminGrantRestricted);
    }
    users.SetRole(k.value, newRole);
    return Ok(users.rows[k.value]);
  }

  // ---------- sign-in through a provider ----------

  /** The `k`-th name the uniqueness loop tries: the base itself, then the
      base with 1, 2, ... appended. */
  function Candidate(base: string, k: nat): string {
    if k == 0 then base else base + NatToString(k)
  }

  /** The loop never tries the same name twice. */
  lemma CandidateInjective(base: string, a: nat, b: nat)
    ensures Candidate(base, a) == Candidate(base, b) ==> a == b
  {
    if a == 0 && b != 0 {
      SuffixedDiffers(base, b);
    } else if a != 0 && b == 0 {
      SuffixedDiffers(base, a);
    } else if a != 0 && b != 0 && Candidate(base, a) == Candidate(base, b) {
      SuffixedInjective(base, a, b);
    }
  }

  /** The names the loop has tried after `k` rounds. */
  function CandidatesBelow(base: string, k: nat): (s: set<string>)
    ensures forall j | 0 <= j < k :: Candidate(base, j) in s
  {
    if k == 0 then {} else CandidatesBelow(base, k - 1) + {Candidate(base, k - 1)}
  }

  /** A name not yet tried is not among those tried. */
  lemma {:induction false} CandidateNotBelow(base: string, k: nat, m: nat)
    requires k <= m
    ensures Candidate(base, m) !in CandidatesBelow(base, k)
  {
    if k > 0 {
      CandidateNotBelow(base, k - 1, m);
      CandidateInjective(base, k - 1, m);
    }
  }

  /** After `k` rounds, `k` different names were tried. */
  lemma {:induction false} CandidatesBelowSize(base: string, k: nat)
    ensures |CandidatesBelow(base, k)| == k
  {
    if k > 0 {
      CandidatesBelowSize(base, k - 1);
      CandidateNotBelow(base, k - 1, k - 1);
    }
  }

  /** The names tried are among `names` when each of them was taken. */
  lemma {:induction false} CandidatesBelowWithin(base: string, k: nat, names: seq<string>)
    requires forall j | 0 <= j < k :: Candidate(base, j) in names
    ensures forall x | x in CandidatesBelow(base, k) :: x in names
  {
    if k > 0 {
      CandidatesBelowWithin(base, k - 1, names);
    }
  }

  /** The uniqueness loop: the first of the base, base1, base2, ... that
      no user has.  It tries at most one name per existing row. */
  method UniqueUsername(rows: seq<User>, base: string) returns (name: string, k: nat)
    ensures name == Candidate(base, k) && name !in Usernames(rows)
    ensures forall j | 0 <= j < k :: Candidate(base, j) in Usernames(rows)
    ensures k <= |rows|
  {
    name, k := base, 0;
    while FindByUsername(rows, name).Some?
      invariant name == Candidate(base, k)
      invariant forall j | 0 <= j < k :: Candidate(base, j) in Usernames(rows)
      invariant k <= |rows|
      decreases |rows| - k
    {
      k := k + 1;
      name := base + NatToString(k);
      CandidatesBelowWithin(base, k, Usernames(rows));
      CandidatesBelowSize(base, k);
      SubsetOfSeqSize(CandidatesBelow(base, k), Usernames(rows));
    }
  }

  /** The account a provider sign-in without a link resolves to: the user
      with the reported email if there is one, else a new client account
      with no password and a fresh name derived from the email. */
  method FindOrCreateOAuthUser(users: UserTable, p: Provider, info: OAuthUserInfo, randomHex: string)
    returns (u: User)
    requires users.Valid() && IsHex8(randomHex)
    modifies users
    ensures users.Valid()
    ensures u in users.rows
    ensures Given(info.email) && EmailInUse(old(users.rows), info.email.value) ==>
              users.rows == old(users.rows) && users.nextId == old(users.nextId)
              && u == FindByEmail(old(users.rows), info.email.value).value
    ensures !(Given(info.email) && EmailInUse(old(users.rows), info.email.value)) ==>
              users.rows == old(users.rows) + [u] && users.nextId == old(users.nextId) + 1
              && u == User(old(users.nextId), u.username, info.email, info.fullName, None, Client, true)
              && u.username !in Usernames(old(users.rows))
              && exists k: nat | k <= |old(users.rows)| ::
                   u.username == Candidate(OAuthBaseName(info.email, p, randomHex), k)
                   && forall j | 0 <= j < k :: Candidate(OAuthBaseName(info.email, p, randomHex), j) in Usernames(old(users.rows))
  {
    if Given(info.email) {
      var found := FindByEmail(users.rows, info.email.value);
      if found.Some? {
        return found.value;
      }
    }
    var name, k := UniqueUsername(users.rows, OAuthBaseName(info.email, p, randomHex));
    u := users.Add(name, info.email, info.fullName, None, Client);
  }

  /** The name generated for a new account: from the email, or from the
      empty string when the provider reported none. */
  function OAuthBaseName(email: Option<string>, p: Provider, randomHex: string): (r: string)
    requires IsHex8(randomHex)
    ensures !Given(email) ==> r == ProviderValue(p) + "_" + randomHex
    ensures Given(email) ==> r == LocalName(email.value) + "_" + ProviderValue(p)
  {
    GenerateUsernameFromEmail(if email.Some? then email.value else "", ProviderValue(p), randomHex)
  }

  /** The body of the sign-in response (`TokenResponse`). */
  datatype TokenResponse = TokenResponse(tokens: TokenPair, userId: nat, username: string,
                                         email: Option<string>, role: string)

  function Respond(u: User): TokenResponse {
    TokenResponse(IssueTokens(u), u.id, u.username, u.email, Value(u.role))
  }

  /** `oauth_login`: resolve the provider account to a user (by link, then
      by email, else a new account), record or refresh the link, and issue
      the user's tokens.  `info` is what the provider's token verification
      returned. */
  method OAuthLogin(users: UserTable, links: OAuthTable, providerName: string,
                    info: Option<OAuthUserInfo>, randomHex: string) returns (r: Result<TokenResponse>)
    requires users.Valid() && links.Valid() && LinksReferToUsers(links.rows, users.rows)
    requires IsHex8(randomHex)
    modifies users, links
    ensures users.Valid() && links.Valid() && LinksReferToUsers(links.rows, users.rows)
    ensures r == Err(BadProvider) <==> ProviderOf(providerName).None?
    ensures r == Err(OAuthVerificationFailed) <==> ProviderOf(providerName).Some? && info.None?
    ensures r.Err? ==> r.reason in {BadProvider, OAuthVerificationFailed, Integrity}
    ensures ProviderOf(providerName).None? || info.None? ==>
              users.rows == old(users.rows) && links.rows == old(links.rows)
              && users.nextId == old(users.nextId) && links.nextId == old(links.nextId)
    // a returning account: only its link is refreshed, and its user signs in
    ensures ProviderOf(providerName).Some? && info.Some? ==>
              (var p, pid := ProviderOf(providerName).value, info.value.providerUserId;
               FindLink(old(links.rows), p, pid).Some? ==>
                 (var k := FindLink(old(links.rows), p, pid).value;
                  r.Ok? && users.rows == old(users.rows)
                  && users.nextId == old(users.nextId) && links.nextId == old(links.nextId)
                  && links.rows == old(links.rows)[k := MergeInfo(old(links.rows)[k], info.value)]
                  && IndexOfId(users.rows, old(links.rows)[k].userId).Some?
                  && r.value == Respond(users.rows[IndexOfId(users.rows, old(links.rows)[k].userId).value])))
    // a first sign-in: the link is new, or refused when another provider holds the id
    ensures ProviderOf(providerName).Some? && info.Some? ==>
              (var p, pid := ProviderOf(providerName).value, info.value.providerUserId;
               FindLink(old(links.rows), p, pid).None? ==>
                 (r == Err(Integrity) <==> pid in ProviderUserIds(old(links.rows)))
                 && (r.Err? ==> links.rows == old(links.rows) && links.nextId == old(links.nextId))
                 && (r.Ok? ==> links.nextId == old(links.nextId) + 1 && links.rows == old(links.rows)
                                 + [OAuthAccount(old(links.nextId), r.value.userId, p, pid,
                                                 info.value.email, info.value.fullName, info.value.picture)])
                 && (Given(info.value.email) && EmailInUse(old(users.rows), info.value.email.value) ==>
                       users.rows == old(users.rows) && users.nextId == old(users.nextId)
                       && (r.Ok? ==> r.value == Respond(FindByEmail(old(users.rows), info.value.email.value).value)))
                 && (!(Given(info.value.email) && EmailInUse(old(users.rows), info.value.email.value)) ==>
                       |users.rows| == |old(users.rows)| + 1 && users.rows[..|old(users.rows)|] == old(users.rows)
                       && users.nextId == old(users.nextId) + 1
                       && (var added := users.rows[|old(users.rows)|];
                           var base := OAuthBaseName(info.value.email, p, randomHex);
                           && added == User(old(users.nextId), added.username, info.value.email,
                                            info.value.fullName, None, Client, true)
                           && added.username !in Usernames(old(users.rows))
                           && (exists k: nat | k <= |old(users.rows)| ::
                                 added.username == Candidate(base, k)
                                 && forall j | 0 <= j < k :: Candidate(base, j) in Usernames(old(users.rows)))
                           && (r.Ok? ==> r.value == Respond(added)))))
  {
    var p := ProviderOf(providerName);
    if p.None? {
      return Err(BadProvider);
    }
    if info.None? {
      return Err(OAuthVerificationFailed);
    }
    var data := info.value;
    var k := FindLink(links.rows, p.value, data.providerUserId);
    var u: User;
    if k.Some? {
      var idx := IndexOfId(users.rows, links.rows[k.value].userId);
      u := users.rows[idx.value];
      links.Refresh(k.value, data);
    } else {
      ghost var before := users.rows;
      u := FindOrCreateOAuthUser(users, p.value, data, randomHex);
      LinksSurviveNewUser(links.rows, before, u);
      if data.providerUserId in ProviderUserIds(links.rows) {
        return Err(Integrity);
      }
      var a := links.Add(u.id, p.value, data);
    }
    return Ok(Respond(u));
  }
}
