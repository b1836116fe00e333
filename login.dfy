/** The login, refresh-exchange and refresh-login flows. Each mints tokens
    and records the new access token in the index. */
module LoginFlow {
  import opened Base
  import opened Text
  import opened Foreign
  import opened Store
  import opened Tokens
  import opened PasswordHash

  const IdentifierRequired := "identifier is required"
  const PasswordRequired := "password is required"
  const UserNotFound := CredentialsPrefix + ": user_not_found"
  const InvalidRefreshToken := "invalid refresh token"

  /** The identifier is trimmed, and lower-cased only when it holds an `@`. */
  function NormalizeIdentifier(identifier: string): (r: string)
    ensures |r| == |Trim(identifier)|
    ensures r == "" <==> AllSpace(identifier)
    ensures '@' !in Trim(identifier) ==> r == Trim(identifier)
  {
    var t := Trim(identifier);
    if '@' in t then Lower(t) else t
  }

  /** `WHERE username = $1 OR lower(email) = lower($1)` */
  predicate MatchesIdentifier(u: User, identifier: string) {
    u.username == identifier || Lower(u.email) == Lower(identifier)
  }

  predicate HasMatch(users: map<int, User>, identifier: string) {
    exists id :: id in users && MatchesIdentifier(users[id], identifier)
  }

  /** Row `id` matches the identifier and its stored hash accepts the password. */
  predicate SuccessfulLogin(p: Primitives, users: map<int, User>, identifier: string, password: string, id: int) {
    id in users && MatchesIdentifier(users[id], identifier)
    && VerifyPassword(p, password, users[id].passwordHash) == Ok(())
  }

  /** Every row the lookup may pick accepts the password. */
  predicate MatchesAccept(p: Primitives, users: map<int, User>, identifier: string, password: string) {
    HasMatch(users, identifier)
    && forall id | id in users && MatchesIdentifier(users[id], identifier) :: VerifyPassword(p, password, users[id].passwordHash) == Ok(())
  }

  /** Some row the lookup may pick refuses the password with `msg`. */
  predicate RefusedBy(p: Primitives, users: map<int, User>, identifier: string, password: string, msg: string) {
    exists id :: id in users && MatchesIdentifier(users[id], identifier) && VerifyPassword(p, password, users[id].passwordHash) == Err(msg)
  }

  /** Both tokens for a user row, as login issues them. */
  function IssueSession(p: Primitives, u: User, now: int): Session {
    Session(IdentityOf(u),
            p.jwtSign(AccessClaims(u), AccessLifetimeSeconds, now),
            p.jwtSign(RefreshClaims(u), RefreshLifetimeSeconds, now))
  }

  /** The lookup and password check of login, for a non-empty identifier and
      password: the row found by username or email, when its hash accepts
      the password. Every failure names "invalid credentials". */
  method Authenticate(users: map<int, User>, p: Primitives, ident: string, password: string)
    returns (r: Result<int>)
    ensures !HasMatch(users, ident) ==> r == Err(UserNotFound)
    ensures r.Ok? ==> SuccessfulLogin(p, users, ident, password, r.value)
    ensures r.Err? ==> Contains(r.msg, CredentialsPrefix)
    ensures r.Err? && HasMatch(users, ident) ==> RefusedBy(p, users, ident, password, r.msg)
    ensures MatchesAccept(p, users, ident, password) ==> r.Ok?
  {
    if !HasMatch(users, ident) {
      ConcatContains(CredentialsPrefix, ": user_not_found");
      return Err(UserNotFound);
    }
    var id :| id in users && MatchesIdentifier(users[id], ident);
    var verified := VerifyPassword(p, password, users[id].passwordHash);
    if verified.Err? {
      VerifyFailuresAreCredentialErrors(p, password, users[id].passwordHash);
      return Err(verified.msg);
    }
    r := Ok(id);
  }

  /** login once both inputs are present: the lookup, the password check,
      then both tokens and the 15-minute index entry for the access token. */
  method LoginChecked(db: UserStore, p: Primitives, ident: string, password: string, now: int, fault: Option<StoreError>)
    returns (r: Result<Session>)
    modifies db`accessTokens
    ensures r.Err? ==> db.accessTokens == old(db.accessTokens)
    ensures !HasMatch(db.users, ident) ==> r == Err(UserNotFound)
    ensures r.Err? && fault.None? ==> Contains(r.msg, CredentialsPrefix)
    ensures r.Err? && fault.None? && HasMatch(db.users, ident) ==> RefusedBy(p, db.users, ident, password, r.msg)
    ensures MatchesAccept(p, db.users, ident, password) && fault.Some? ==> r == Err(fault.value.message)
    ensures MatchesAccept(p, db.users, ident, password) && fault.None? ==> r.Ok?
    ensures r.Ok? ==> fault.None? && exists id :: (SuccessfulLogin(p, db.users, ident, password, id)
      && r.value == IssueSession(p, db.users[id], now)
      && db.accessTokens == old(db.accessTokens)[p.sha256Hex(r.value.accessToken) := TokenRow(db.users[id].id, MinutesFromNow(now, AccessIndexMinutes))])
  {
    var found := Authenticate(db.users, p, ident, password);
    if found.Err? {
      return Err(found.msg);
    }
    var id := found.value;
    var row := db.users[id];
    var session := IssueSession(p, row, now);
    var indexed := IndexAccessToken(db, p, row.id, session.accessToken, MinutesFromNow(now, AccessIndexMinutes), fault);
    if indexed.Err? {
      return Err(indexed.msg);
    }
    r := Ok(session);
    assert HasMatch(db.users, ident) by {
      assert id in db.users && MatchesIdentifier(db.users[id], ident);
    }
    assert fault.None? && SuccessfulLogin(p, db.users, ident, password, id) && r.value == IssueSession(p, db.users[id], now);
  }

  /** login: checks the inputs in order, finds a row by username or email,
      verifies the password, mints both tokens and indexes the access token
      for 15 minutes. A failed login indexes nothing, and once both inputs
      are present every failure but a store error names "invalid credentials". */
  method Login(db: UserStore, p: Primitives, identifier: string, password: string, now: int, fault: Option<StoreError>)
    returns (r: Result<Session>)
    modifies db`accessTokens
    ensures r.Err? ==> db.accessTokens == old(db.accessTokens)
    ensures NormalizeIdentifier(identifier) == "" ==> r == Err(IdentifierRequired)
    ensures NormalizeIdentifier(identifier) != "" && password == "" ==> r == Err(PasswordRequired)
    ensures NormalizeIdentifier(identifier) != "" && password != "" && !HasMatch(db.users, NormalizeIdentifier(identifier))
      ==> r == Err(UserNotFound)
    ensures r.Err? && NormalizeIdentifier(identifier) != "" && password != "" && fault.None?
      ==> Contains(r.msg, CredentialsPrefix)
    ensures r.Err? && NormalizeIdentifier(identifier) != "" && password != "" && fault.None? && HasMatch(db.users, NormalizeIdentifier(identifier))
      ==> RefusedBy(p, db.users, NormalizeIdentifier(identifier), password, r.msg)
    ensures NormalizeIdentifier(identifier) != "" && password != "" && MatchesAccept(p, db.users, NormalizeIdentifier(identifier), password)
      ==> (if fault.None? then r.Ok? else r == Err(fault.value.message))
    ensures r.Ok? ==> fault.None? && exists id :: (SuccessfulLogin(p, db.users, NormalizeIdentifier(identifier), password, id)
      && r.value == IssueSession(p, db.users[id], now)
      && db.accessTokens == old(db.accessTokens)[p.sha256Hex(r.value.accessToken) := TokenRow(db.users[id].id, MinutesFromNow(now, AccessIndexMinutes))])
  {
    var ident := NormalizeIdentifier(identifier);
    if ident == "" {
      return Err(IdentifierRequired);
    }
    if password == "" {
      return Err(PasswordRequired);
    }
    r := LoginChecked(db, p, ident, password, now, fault);
  }


  /** exchangeAccessToken: a verified refresh token buys a new access token
      carrying only its subject, uuid and type "at"; every failure, including
      a failed index write, is reported as "invalid refresh token".
      `None` is a missing token, which verification refuses outright. */
  method ExchangeAccessToken(db: UserStore, p: Primitives, refreshToken: Option<string>, now: int, fault: Option<StoreError>)
    returns (r: Result<string>)
    modifies db`accessTokens
    ensures r.Err? ==> r.msg == InvalidRefreshToken && db.accessTokens == old(db.accessTokens)
    ensures r.Ok? <==> (refreshToken.Some? && VerifiedRefresh(p, refreshToken.value, now).Some?
      && p.toNumber(VerifiedRefresh(p, refreshToken.value, now).value.sub).AsRowId().Some? && fault.None?)
    ensures r.Ok? ==>
      var c := VerifiedRefresh(p, refreshToken.value, now).value;
      r.value == p.jwtSign(ExchangedClaims(c), AccessLifetimeSeconds, now)
      && db.accessTokens == old(db.accessTokens)[p.sha256Hex(r.value) := TokenRow(p.toNumber(c.sub).AsRowId().value, MinutesFromNow(now, AccessIndexMinutes))]
  {
    if refreshToken.None? {
      return Err(InvalidRefreshToken);
    }
    var claims := VerifiedRefresh(p, refreshToken.value, now);
    if claims.None? {
      return Err(InvalidRefreshToken);
    }
    var accessToken := p.jwtSign(ExchangedClaims(claims.value), AccessLifetimeSeconds, now);
    // `Number(payload.sub)` goes to an integer column: anything but an
    // integer makes the insert fail, and that failure is collapsed too.
    var userId := p.toNumber(claims.value.sub).AsRowId();
    if userId.None? {
      return Err(InvalidRefreshToken);
    }
    var indexed := IndexAccessToken(db, p, userId.value, accessToken, MinutesFromNow(now, AccessIndexMinutes), fault);
    if indexed.Err? {
      return Err(InvalidRefreshToken);
    }
    r := Ok(accessToken);
  }

  /** The user a verified refresh token names: its subject must be a finite
      positive number that is the id of an existing row. */
  function RefreshSubject(p: Primitives, users: map<int, User>, refreshToken: string, now: int): (r: Option<User>)
    requires forall id | id in users :: users[id].id == id
    ensures r.Some? ==> VerifiedRefresh(p, refreshToken, now).Some?
    ensures r.Some? ==> var n := p.toNumber(VerifiedRefresh(p, refreshToken, now).value.sub);
      n.IsPositiveFinite() && n.AsRowId() == Some(r.value.id) && r.value.id in users && r.value == users[r.value.id]
    ensures (VerifiedRefresh(p, refreshToken, now).Some?
      && var n := p.toNumber(VerifiedRefresh(p, refreshToken, now).value.sub);
         n.IsPositiveFinite() && n.AsRowId().Some? && n.AsRowId().value in users) ==> r.Some?
  {
    match VerifiedRefresh(p, refreshToken, now)
    case None => None
    case Some(c) =>
      var n := p.toNumber(c.sub);
      if !n.IsPositiveFinite() then None
      else match n.AsRowId()
        case None => None
        case Some(id) => if id in users then Some(users[id]) else None
  }

  /** loginWithRefreshToken: no password is checked; a refresh token whose
      subject names an existing row yields a fresh, indexed access token for
      that row, and the presented refresh token comes back unchanged. */
  method LoginWithRefreshToken(db: UserStore, p: Primitives, refreshToken: string, now: int, fault: Option<StoreError>)
    returns (r: Result<Session>)
    requires db.Valid()
    modifies db`accessTokens
    ensures r.Err? ==> db.accessTokens == old(db.accessTokens)
    ensures RefreshSubject(p, db.users, refreshToken, now).None? ==> r == Err(InvalidRefreshToken)
    ensures RefreshSubject(p, db.users, refreshToken, now).Some? && fault.Some? ==> r == Err(fault.value.message)
    ensures r.Ok? ==> (fault.None? && RefreshSubject(p, db.users, refreshToken, now).Some?
      && var u := RefreshSubject(p, db.users, refreshToken, now).value;
         r.value == Session(IdentityOf(u), p.jwtSign(AccessClaims(u), AccessLifetimeSeconds, now), refreshToken)
         && db.accessTokens == old(db.accessTokens)[p.sha256Hex(r.value.accessToken) := TokenRow(u.id, MinutesFromNow(now, AccessIndexMinutes))])
    ensures RefreshSubject(p, db.users, refreshToken, now).Some? && fault.None? ==> r.Ok?
  {
    var user := RefreshSubject(p, db.users, refreshToken, now);
    if user.None? {
      return Err(InvalidRefreshToken);
    }
    var u := user.value;
    var accessToken := p.jwtSign(AccessClaims(u), AccessLifetimeSeconds, now);
    var indexed := IndexAccessToken(db, p, u.id, accessToken, MinutesFromNow(now, AccessIndexMinutes), fault);
    if indexed.Err? {
      return Err(indexed.msg);
    }
    r := Ok(Session(IdentityOf(u), accessToken, refreshToken));
  }
}
