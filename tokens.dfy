/** Token claims, lifetimes, and the access-token index write. */
module Tokens {
  import opened Base
  import opened Text
  import opened Foreign
  import opened Store

  const AccessType := "at"
  const RefreshType := "rt"

  /** `expiresIn: "15m"` and `expiresIn: "30d"`, in seconds. */
  const AccessLifetimeSeconds: nat := 15 * 60
  const RefreshLifetimeSeconds: nat := 30 * 24 * 60 * 60

  /** The index row lives as long as the access token: 15 minutes. */
  const AccessIndexMinutes := 15

  /** `minutesFromNow(m)`, with times in milliseconds. */
  function MinutesFromNow(now: int, m: int): (t: int)
    ensures m >= 0 ==> t >= now
    ensures t - now == m * 60000
  {
    now + m * 60 * 1000
  }

  /** The claims of an access token minted for a user row. */
  function AccessClaims(u: User): Claims {
    Claims(IntToString(u.id), u.uuid, Some(u.username), Some(u.email), AccessType)
  }

  /** The claims of a refresh token: subject and uuid only. */
  function RefreshClaims(u: User): Claims {
    Claims(IntToString(u.id), u.uuid, None, None, RefreshType)
  }

  /** The claims of the access token the refresh exchange mints: subject and
      uuid copied from the refresh token. */
  function ExchangedClaims(refresh: Claims): Claims {
    Claims(refresh.sub, refresh.uid, None, None, AccessType)
  }

  /** Access and refresh claims name the same subject but differ in type, and
      only the access claims carry username and email; the exchanged access
      token keeps the refresh token's subject. */
  lemma ClaimsByType(u: User)
    ensures AccessClaims(u).typ == AccessType != RefreshType == RefreshClaims(u).typ
    ensures AccessClaims(u).sub == RefreshClaims(u).sub && AccessClaims(u).uid == RefreshClaims(u).uid
    ensures AccessClaims(u).username == Some(u.username) && AccessClaims(u).email == Some(u.email)
    ensures RefreshClaims(u).username.None? && RefreshClaims(u).email.None?
    ensures ExchangedClaims(RefreshClaims(u)).typ == AccessType
    ensures ExchangedClaims(RefreshClaims(u)).sub == AccessClaims(u).sub
  {
  }

  /** What a login returns about the user: no password hash, no role. */
  datatype PublicIdentity = PublicIdentity(id: int, uuid: string, username: string, email: string)

  function IdentityOf(u: User): PublicIdentity {
    PublicIdentity(u.id, u.uuid, u.username, u.email)
  }

  datatype Session = Session(user: PublicIdentity, accessToken: string, refreshToken: string)

  /** The token verification accepts as a refresh token: a verified token
      whose type is "rt". */
  function VerifiedRefresh(p: Primitives, token: string, now: int): (c: Option<Claims>)
    ensures c.Some? ==> c.value.typ == RefreshType && p.jwtVerify(token, now) == c
    ensures c.None? <==> p.jwtVerify(token, now).None? || p.jwtVerify(token, now).value.typ != RefreshType
  {
    match p.jwtVerify(token, now)
    case None => None
    case Some(c) => if c.typ == RefreshType then Some(c) else None
  }

  /** indexAccessToken: records `sha256(token)` with its owner and expiry,
      overwriting an existing row for the same hash; nothing is indexed when
      the store reports a failure. */
  method IndexAccessToken(db: UserStore, p: Primitives, userId: int, token: string, expiresAt: int, fault: Option<StoreError>)
    returns (r: Result<()>)
    modifies db`accessTokens
    ensures fault.None? ==> r == Ok(()) && db.accessTokens == old(db.accessTokens)[p.sha256Hex(token) := TokenRow(userId, expiresAt)]
    ensures fault.Some? ==> r == Err(fault.value.message) && db.accessTokens == old(db.accessTokens)
  {
    if fault.Some? {
      return Err(fault.value.message);
    }
    db.UpsertAccessToken(p.sha256Hex(token), userId, expiresAt);
    r := Ok(());
  }
}
