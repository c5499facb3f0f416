/** External sign-in links (`OAuthAccount`, app/models/oauth.py): which
    provider account belongs to which user, and the profile data the
    provider last reported. */
module OAuthAccounts {
  import opened Http
  import opened Seqs
  import opened Strings
  import opened Users

  datatype Provider = Google | Apple

  /** The string value each provider is stored as. */
  function ProviderValue(p: Provider): (s: string)
    ensures s == "google" || s == "apple"
  {
    match p
    case Google => "google"
    case Apple => "apple"
  }

  /** The provider named by a request: the name is lower-cased and must
      then be one of the two values (`OAuthProvider[provider.upper()]`
      after the membership check). */
  function ProviderOf(name: string): (r: Option<Provider>)
    ensures r.Some? <==> Lower(name) == "google" || Lower(name) == "apple"
    ensures r.Some? ==> ProviderValue(r.value) == Lower(name)
  {
    var p := Lower(name);
    if p == "google" then Some(Google)
    else if p == "apple" then Some(Apple)
    else None
  }

  /** What a verified provider token says about its holder (`OAuthUserInfo`). */
  datatype OAuthUserInfo = OAuthUserInfo(
    providerUserId: string,
    email: Option<string>,
    fullName: Option<string>,
    picture: Option<string>)

  datatype OAuthAccount = OAuthAccount(
    id: nat,
    userId: nat,
    provider: Provider,
    providerUserId: string,
    email: Option<string>,
    fullName: Option<string>,
    picture: Option<string>)

  /** A returning sign-in refreshes the stored profile: each field the
      provider reports non-empty replaces the stored one, the others stay. */
  function MergeInfo(a: OAuthAccount, info: OAuthUserInfo): (r: OAuthAccount)
    ensures r.id == a.id && r.userId == a.userId
    ensures r.provider == a.provider && r.providerUserId == a.providerUserId
    ensures Given(info.email) ==> r.email == info.email
    ensures !Given(info.email) ==> r.email == a.email
    ensures Given(info.fullName) ==> r.fullName == info.fullName
    ensures !Given(info.fullName) ==> r.fullName == a.fullName
    ensures Given(info.picture) ==> r.picture == info.picture
    ensures !Given(info.picture) ==> r.picture == a.picture
  {
    a.(email := if Given(info.email) then info.email else a.email,
       fullName := if Given(info.fullName) then info.fullName else a.fullName,
       picture := if Given(info.picture) then info.picture else a.picture)
  }

  /** Refreshing twice with the same report is the same as refreshing once. */
  lemma MergeInfoIdempotent(a: OAuthAccount, info: OAuthUserInfo)
    ensures MergeInfo(MergeInfo(a, info), info) == MergeInfo(a, info)
  {
  }

  function LinkIds(rows: seq<OAuthAccount>): (ids: seq<nat>)
    ensures |ids| == |rows| && forall i | 0 <= i < |rows| :: ids[i] == rows[i].id
  {
    seq(|rows|, i requires 0 <= i < |rows| => rows[i].id)
  }

  function ProviderUserIds(rows: seq<OAuthAccount>): (pids: seq<string>)
    ensures |pids| == |rows| && forall i | 0 <= i < |rows| :: pids[i] == rows[i].providerUserId
  {
    seq(|rows|, i requires 0 <= i < |rows| => rows[i].providerUserId)
  }

  /** The link lookup of the sign-in route: same provider user id and
      same provider. */
  function FindLink(rows: seq<OAuthAccount>, p: Provider, pid: string): (r: Option<nat>)
    ensures r.Some? ==> r.value < |rows| && rows[r.value].provider == p && rows[r.value].providerUserId == pid
    ensures r.None? <==> forall i | 0 <= i < |rows| :: !(rows[i].provider == p && rows[i].providerUserId == pid)
  {
    FirstIndex(rows, (a: OAuthAccount) => a.provider == p && a.providerUserId == pid)
  }

  /** The foreign key `user_id` refers to an existing user. */
  predicate LinksReferToUsers(links: seq<OAuthAccount>, users: seq<User>) {
    forall i | 0 <= i < |links| :: links[i].userId in Ids(users)
  }

  /** Adding a user keeps every link's user in the table. */
  lemma LinksSurviveNewUser(links: seq<OAuthAccount>, users: seq<User>, u: User)
    requires LinksReferToUsers(links, users)
    ensures LinksReferToUsers(links, users + [u])
  {
    assert Ids(users + [u]) == Ids(users) + [u.id];
  }

  class OAuthTable {
    var rows: seq<OAuthAccount>
    var nextId: nat

    /** Primary keys below the autoincrement counter and distinct;
        UNIQUE(provider_user_id), regardless of the provider. */
    ghost predicate Valid()
      reads this
    {
      && (forall i | 0 <= i < |rows| :: rows[i].id < nextId)
      && Distinct(LinkIds(rows))
      && Distinct(ProviderUserIds(rows))
    }

    constructor ()
      ensures Valid() && rows == [] && nextId == 1
    {
      rows, nextId := [], 1;
    }

    /** `db.add(new_oauth_account); db.commit()`. */
    method Add(userId: nat, p: Provider, info: OAuthUserInfo) returns (a: OAuthAccount)
      requires Valid()
      requires info.providerUserId !in ProviderUserIds(rows)
      modifies this
      ensures Valid()
      ensures a == OAuthAccount(old(nextId), userId, p, info.providerUserId, info.email, info.fullName, info.picture)
      ensures rows == old(rows) + [a] && nextId == old(nextId) + 1
    {
      a := OAuthAccount(nextId, userId, p, info.providerUserId, info.email, info.fullName, info.picture);
      assert LinkIds(rows + [a]) == LinkIds(rows) + [a.id];
      assert ProviderUserIds(rows + [a]) == ProviderUserIds(rows) + [a.providerUserId];
      DistinctAppend(LinkIds(rows), a.id);
      DistinctAppend(ProviderUserIds(rows), a.providerUserId);
      rows := rows + [a];
      nextId := nextId + 1;
    }

    /** The in-place refresh of the link at position `k`. */
    method Refresh(k: nat, info: OAuthUserInfo)
      requires Valid() && k < |rows|
      modifies this
      ensures Valid()
      ensures rows == old(rows)[k := MergeInfo(old(rows)[k], info)]
      ensures nextId == old(nextId)
    {
      ghost var before := rows;
      rows := rows[k := MergeInfo(rows[k], info)];
      assert LinkIds(rows) == LinkIds(before);
      assert ProviderUserIds(rows) == ProviderUserIds(before);
    }
  }
}
