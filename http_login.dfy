/** The login and token routes: branch selection on the request body, field
    renaming, and the collapse of failure messages into statuses. */
module LoginRoutes {
  import opened Base
  import opened Text
  import opened Foreign
  import opened Store
  import opened Tokens
  import opened Http
  import opened LoginFlow
  import PasswordHash

  /** The JSON body of a login request; `None` is an absent field. */
  datatype LoginBody = LoginBody(identifier: Option<string>, password: Option<string>, refreshToken: Option<string>)

  /** `{ user, access_token, refresh_token }` */
  datatype LoginResponse = LoginResponse(user: PublicIdentity, accessToken: string, refreshToken: string)

  const InvalidCredentials := "invalid credentials"
  const InternalError := "internal error"

  /** The substrings login.ts answers with 400. */
  predicate ClientPatterns(m: string) {
    Contains(m, "required") || Contains(m, InvalidRefreshToken)
  }

  /** Every credential failure is answered alike; input and refresh-token
      failures keep their message; anything else is an internal error. */
  function LoginFailure(msg: string): (reply: Reply<LoginResponse>)
    ensures reply.Text? && reply.status in {400, 401, 500}
    ensures reply.status == 401 <==> Contains(Thrown(msg), InvalidCredentials)
    ensures reply.status == 401 ==> reply.text == InvalidCredentials
    ensures reply.status == 400 <==> !Contains(Thrown(msg), InvalidCredentials) && ClientPatterns(Thrown(msg))
    ensures reply.status == 400 ==> reply.text == Thrown(msg)
    ensures reply.status == 500 ==> reply.text == InternalError
  {
    var m := Thrown(msg);
    if Contains(m, InvalidCredentials) then Text(401, InvalidCredentials)
    else if ClientPatterns(m) then Text(400, m)
    else Text(500, InternalError)
  }

  /** The session under the response's field names. */
  function Rename(s: Session): (r: LoginResponse)
    ensures r.user == s.user && r.accessToken == s.accessToken && r.refreshToken == s.refreshToken
  {
    LoginResponse(s.user, s.accessToken, s.refreshToken)
  }

  function SessionReply(r: Result<Session>): Reply<LoginResponse> {
    match r
    case Ok(s) => Json(200, Rename(s))
    case Err(m) => LoginFailure(m)
  }

  /** A message naming a missing input, with no letter `v` and so no
      "invalid credentials", keeps its text under 400. */
  lemma {:induction false} RequiredIs400(msg: string, i: nat)
    requires msg != "" && 'v' !in msg && OccursAt(msg, "required", i)
    ensures LoginFailure(msg) == Text(400, msg)
  {
    MissingCharNotContained(msg, InvalidCredentials, 'v');
    ContainsIffOccurs(msg, "required");
  }

  /** Any message without the letters `v` and `q`, and so with none of the
      patterns, is an internal error; a store failure such as a lost
      connection is answered so. */
  lemma {:induction false} LoginUnmatchedIsInternalError(msg: string)
    requires 'v' !in msg && 'q' !in msg
    ensures LoginFailure(msg) == Text(500, InternalError)
  {
    var m := Thrown(msg);
    assert 'v' !in m && 'q' !in m;
    MissingCharNotContained(m, InvalidCredentials, 'v');
    MissingCharNotContained(m, "required", 'q');
    MissingCharNotContained(m, InvalidRefreshToken, 'v');
  }

  /** The missing-input messages of the login flow are answered with 400
      and their own text. */
  lemma InputFailureStatuses(msg: string)
    requires msg == IdentifierRequired || msg == PasswordRequired
    ensures LoginFailure(msg) == Text(400, msg)
  {
    if msg == IdentifierRequired {
      assert 'v' !in msg;
      RequiredIs400(msg, 14);
    } else {
      assert msg == PasswordRequired;
      assert 'v' !in msg && msg[12..20] == "required";
      RequiredIs400(msg, 12);
    }
  }

  /** A refused refresh token is answered with 400 and its message; an
      unknown user gets the bare "invalid credentials", like a wrong
      password. */
  lemma TokenAndUserFailureStatuses()
    ensures LoginFailure(InvalidRefreshToken) == Text(400, InvalidRefreshToken)
    ensures LoginFailure(UserNotFound) == Text(401, InvalidCredentials)
  {
    ConcatContains(PasswordHash.CredentialsPrefix, ": user_not_found");
    PrefixContained(InvalidRefreshToken, InvalidRefreshToken);
    MissingCharNotContained(InvalidRefreshToken, InvalidCredentials, 'c');
  }

  /** loginHandler. A refresh token that is non-empty once trimmed takes
      precedence and identifier and password are not looked at; otherwise
      the identifier and password go to login, absent ones as "". Every
      credential failure gets the same 401, and only a 200 writes the
      access-token index. Credentials that every matching row accepts get a
      200 unless the index write fails. */
  method LoginRoute(db: UserStore, p: Primitives, body: LoginBody, now: int, fault: Option<StoreError>)
    returns (reply: Reply<LoginResponse>)
    requires db.Valid()
    modifies db`accessTokens
    ensures reply.Text? ==> db.accessTokens == old(db.accessTokens)
    ensures reply.Json? ==> reply.status == 200
    ensures var refresh := Trim(body.refreshToken.GetOr(""));
      var subject := RefreshSubject(p, db.users, refresh, now);
      refresh != "" ==> (
        && (subject.None? ==> reply == Text(400, InvalidRefreshToken))
        && (subject.Some? && fault.None? ==> reply == Json(200, LoginResponse(IdentityOf(subject.value),
              p.jwtSign(AccessClaims(subject.value), AccessLifetimeSeconds, now), refresh)))
        && (subject.Some? && fault.Some? ==> reply == LoginFailure(fault.value.message)))
    ensures var identifier := body.identifier.GetOr("");
      var password := body.password.GetOr("");
      AllSpace(body.refreshToken.GetOr("")) ==> (
        && (NormalizeIdentifier(identifier) == "" ==> reply == Text(400, IdentifierRequired))
        && (NormalizeIdentifier(identifier) != "" && password == "" ==> reply == Text(400, PasswordRequired))
        && (NormalizeIdentifier(identifier) != "" && password != "" && fault.None? && reply.Text?
            ==> reply == Text(401, InvalidCredentials))
        && (NormalizeIdentifier(identifier) != "" && password != ""
            && MatchesAccept(p, db.users, NormalizeIdentifier(identifier), password)
            ==> (if fault.None? then reply.Json? else reply == LoginFailure(fault.value.message)))
        && (reply.Json? ==> exists id :: (SuccessfulLogin(p, db.users, NormalizeIdentifier(identifier), password, id)
            && reply.body == Rename(IssueSession(p, db.users[id], now)))))
  {
    var refresh := Trim(body.refreshToken.GetOr(""));
    if refresh != "" {
      TokenAndUserFailureStatuses();
      var r := LoginWithRefreshToken(db, p, refresh, now, fault);
      return SessionReply(r);
    }
    reply := PasswordLoginRoute(db, p, body.identifier.GetOr(""), body.password.GetOr(""), now, fault);
  }

  /** The password branch of loginHandler: login's outcome through the
      failure mapping. */
  method PasswordLoginRoute(db: UserStore, p: Primitives, identifier: string, password: string, now: int, fault: Option<StoreError>)
    returns (reply: Reply<LoginResponse>)
    modifies db`accessTokens
    ensures reply.Text? ==> db.accessTokens == old(db.accessTokens)
    ensures reply.Json? ==> reply.status == 200
    ensures NormalizeIdentifier(identifier) == "" ==> reply == Text(400, IdentifierRequired)
    ensures NormalizeIdentifier(identifier) != "" && password == "" ==> reply == Text(400, PasswordRequired)
    ensures NormalizeIdentifier(identifier) != "" && password != "" && fault.None? && reply.Text?
      ==> reply == Text(401, InvalidCredentials)
    ensures NormalizeIdentifier(identifier) != "" && password != ""
      && MatchesAccept(p, db.users, NormalizeIdentifier(identifier), password)
      ==> (if fault.None? then reply.Json? else reply == LoginFailure(fault.value.message))
    ensures reply.Json? ==> exists id :: (SuccessfulLogin(p, db.users, NormalizeIdentifier(identifier), password, id)
      && reply.body == Rename(IssueSession(p, db.users[id], now)))
  {
    var r := Login(db, p, identifier, password, now, fault);
    reply := SessionReply(r);
    if r == Err(IdentifierRequired) {
      InputFailureStatuses(IdentifierRequired);
    } else if r == Err(PasswordRequired) {
      InputFailureStatuses(PasswordRequired);
    }
  }

  /** `{ access_token }` */
  datatype TokenResponse = TokenResponse(accessToken: string)

  const RefreshTokenRequired := "refresh_token is required"

  /** tokenHandler as written: the refresh token is passed as the only
      argument, so it lands in the store slot and the token parameter of
      the exchange is missing. Every non-empty request is refused. */
  method TokenRouteAsWritten(db: UserStore, p: Primitives, refreshToken: Option<string>, now: int, fault: Option<StoreError>)
    returns (reply: Reply<TokenResponse>)
    modifies db`accessTokens
    ensures refreshToken.GetOr("") == "" ==> reply == Text(400, RefreshTokenRequired)
    ensures refreshToken.GetOr("") != "" ==> reply == Text(401, InvalidRefreshToken)
    ensures db.accessTokens == old(db.accessTokens)
  {
    if refreshToken.GetOr("") == "" {
      return Text(400, RefreshTokenRequired);
    }
    var r := ExchangeAccessToken(db, p, None, now, fault);
    match r {
      case Err(_) => reply := Text(401, InvalidRefreshToken);
      case Ok(accessToken) => reply := Json(200, TokenResponse(accessToken));
    }
  }

  /** tokenHandler with the refresh token passed as the exchange's token: a
      verified refresh token whose subject is an integer buys an indexed
      access token; every other non-empty request is refused with 401 and
      indexes nothing. */
  method TokenRoute(db: UserStore, p: Primitives, refreshToken: Option<string>, now: int, fault: Option<StoreError>)
    returns (reply: Reply<TokenResponse>)
    modifies db`accessTokens
    ensures refreshToken.GetOr("") == "" ==> reply == Text(400, RefreshTokenRequired)
    ensures refreshToken.GetOr("") != "" && reply.Text? ==> reply == Text(401, InvalidRefreshToken)
    ensures reply.Text? ==> db.accessTokens == old(db.accessTokens)
    ensures reply.Json? <==> (refreshToken.GetOr("") != ""
      && VerifiedRefresh(p, refreshToken.value, now).Some?
      && p.toNumber(VerifiedRefresh(p, refreshToken.value, now).value.sub).AsRowId().Some? && fault.None?)
    ensures reply.Json? ==> (
      var c := VerifiedRefresh(p, refreshToken.value, now).value;
      && reply.status == 200
      && reply.body.accessToken == p.jwtSign(ExchangedClaims(c), AccessLifetimeSeconds, now)
      && db.accessTokens == old(db.accessTokens)[p.sha256Hex(reply.body.accessToken) :=
           TokenTableRow(p.toNumber(c.sub).AsRowId().value, now)])
  {
    if refreshToken.GetOr("") == "" {
      return Text(400, RefreshTokenRequired);
    }
    var r := ExchangeAccessToken(db, p, refreshToken, now, fault);
    if r.Err? {
      return Text(401, InvalidRefreshToken);
    }
    reply := Json(200, TokenResponse(r.value));
  }

  /** The index row an exchanged access token gets. */
  function TokenTableRow(userId: int, now: int): (row: TokenRow)
    ensures row.userId == userId && row.expiresAt == now + AccessLifetimeSeconds * 1000
  {
    TokenRow(userId, MinutesFromNow(now, AccessIndexMinutes))
  }
}
