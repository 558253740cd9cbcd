/**
 The account object the identity provider returns and the server keeps as
 the session user, and the three values the pages show: tenant id, display
 name and username. Each is a JavaScript `||` chain, so a field counts only
 when it is present AND non-empty (an empty string is falsy).
 */
module Account {
  import opened JsString

  /** The `idTokenClaims` object; only the tenant claim `tid` is read. */
  datatype IdTokenClaims = IdTokenClaims(tid: Option<string>)

  /** The session user; every field may be missing. */
  datatype AccountInfo = AccountInfo(
    name: Option<string>,
    username: Option<string>,
    homeAccountId: Option<string>,
    idTokenClaims: Option<IdTokenClaims>)

  /** JavaScript truthiness of a string that may be `undefined`. */
  predicate Truthy(v: Option<string>)
  {
    v.Some? && |v.value| > 0
  }

  /** `v || fallback` */
  function Or(v: Option<string>, fallback: string): string
  {
    if Truthy(v) then v.value else fallback
  }

  /** `user?.idTokenClaims && user.idTokenClaims.tid` */
  function TidClaim(user: Option<AccountInfo>): Option<string>
  {
    if user.Some? && user.value.idTokenClaims.Some? then user.value.idTokenClaims.value.tid
    else None
  }

  /** `user?.homeAccountId` */
  function HomeAccountId(user: Option<AccountInfo>): Option<string>
  {
    if user.Some? then user.value.homeAccountId else None
  }

  /**
   The tenant id: the `tid` claim if non-empty, else the second
   dot-separated segment of `homeAccountId` if there is one and it is
   non-empty, else the empty string. `None` is a request without a session
   user.
   */
  function TenantId(user: Option<AccountInfo>): (r: string)
    ensures Truthy(TidClaim(user)) ==> r == TidClaim(user).value
    ensures !Truthy(TidClaim(user)) ==> '.' !in r
    ensures !Truthy(TidClaim(user)) && !Truthy(HomeAccountId(user)) ==> r == ""
    ensures user.None? ==> r == ""
  {
    var fromHome :=
      if Truthy(HomeAccountId(user)) then At(Split(HomeAccountId(user).value, '.'), 1)
      else Some("");
    Or(TidClaim(user), Or(fromHome, ""))
  }

  /**
   Without a usable `tid` claim, a home account id of the form
   `<object id>.<tenant id>`, possibly followed by further dot-separated
   segments, yields the tenant id segment.
   */
  lemma TenantFromHomeAccountId(user: AccountInfo, oid: string, tid: string, tail: string)
    requires !Truthy(TidClaim(Some(user)))
    requires user.homeAccountId == Some(oid + "." + tid + tail)
    requires '.' !in oid && '.' !in tid
    requires |tail| == 0 || tail[0] == '.'
    ensures TenantId(Some(user)) == tid
  {
    var hid := oid + "." + tid + tail;
    assert hid == oid + ['.'] + (tid + tail);
    SplitAfterFirst(oid, tid + tail, '.');
    SplitFirstPiece(tid, tail, '.');
  }

  /** Without a usable `tid` claim, a home account id with no dot yields the empty tenant id. */
  lemma TenantWithoutDot(user: AccountInfo)
    requires !Truthy(TidClaim(Some(user)))
    requires user.homeAccountId.Some? && '.' !in user.homeAccountId.value
    ensures TenantId(Some(user)) == ""
  {
    SplitNoSeparator(user.homeAccountId.value, '.');
  }

  /** `user?.name` */
  function NameField(user: Option<AccountInfo>): Option<string>
  {
    if user.Some? then user.value.name else None
  }

  /** `user?.username` */
  function UsernameField(user: Option<AccountInfo>): Option<string>
  {
    if user.Some? then user.value.username else None
  }

  /**
   The name shown on the pages: `name`, else `username`, else `"User"`.
   It is never empty, and without a session user it is `"User"`.
   */
  function DisplayName(user: Option<AccountInfo>): (r: string)
    ensures |r| > 0
    ensures Truthy(NameField(user)) ==> r == NameField(user).value
    ensures !Truthy(NameField(user)) && Truthy(UsernameField(user)) ==> r == UsernameField(user).value
    ensures !Truthy(NameField(user)) && !Truthy(UsernameField(user)) ==> r == "User"
    ensures user.None? ==> r == "User"
  {
    Or(NameField(user), Or(UsernameField(user), "User"))
  }

  /** The username shown on the profile page: `username`, else `name`, else `""`. */
  function Username(user: AccountInfo): (r: string)
    ensures Truthy(user.username) ==> r == user.username.value
    ensures !Truthy(user.username) && Truthy(user.name) ==> r == user.name.value
    ensures r == "" <==> !Truthy(user.username) && !Truthy(user.name)
  {
    Or(user.username, Or(user.name, ""))
  }

  /**
   The two fallbacks read the same two fields in opposite order: the
   username is empty exactly when the display name falls back to `"User"`
   for want of both fields, and when only one field is set both show it.
   */
  lemma NameFallbacksAgree(user: AccountInfo)
    ensures Username(user) == "" ==> DisplayName(Some(user)) == "User"
    ensures Truthy(user.name) != Truthy(user.username) ==> DisplayName(Some(user)) == Username(user)
  {
  }
}
