/** What the HTTP handlers share: the response shape, the text of a caught
    exception, bearer-token extraction and the admin guard that the user
    management routes run before touching the store. */
module Http {
  import opened Base
  import opened Text
  import opened Foreign
  import opened Store
  import opened Tokens

  /** A response: a status with a plain-text body, or a status with a JSON body. */
  datatype Reply<T> = Text(status: int, text: string) | Json(status: int, body: T)

  /** `String(e?.message || e || "error")` for an `Error` carrying `msg`: an
      empty message falls back to the error itself, which prints as "Error". */
  function Thrown(msg: string): (text: string)
    ensures text != ""
    ensures msg != "" ==> text == msg
  {
    if msg == "" then "Error" else msg
  }

  const MissingBearer := "missing bearer token"
  const InvalidToken := "invalid token"
  const InvalidTokenType := "invalid token type"
  const InvalidOrExpired := "invalid or expired token"
  const Forbidden := "forbidden"

  /** The scheme word, matched without regard to ASCII case. */
  predicate IsBearerWord(w: string) {
    |w| == 6 && Lower(w) == "bearer"
  }

  /** `auth` splits as the scheme word, `w` white-space characters and the
      token `t`: one way `^Bearer\s+(.+)$` (flag `i`) can match, with `t`
      the capture. `.` matches anything but a line terminator. */
  predicate BearerSplit(auth: string, w: nat, t: string) {
    6 + w + |t| == |auth| && IsBearerWord(auth[..6])
    && w >= 1 && AllSpace(auth[6..6 + w])
    && |t| >= 1 && auth[6 + w..] == t && NoLineTerminator(t)
  }

  /** The capture of `^Bearer\s+(.+)$`: the greedy `\s+` takes the whole run
      of white space after the scheme word, giving back one character when
      the run reaches the end so that `.+` matches something. */
  function BearerToken(auth: string): Option<string> {
    if |auth| < 6 || !IsBearerWord(auth[..6]) then None
    else
      var rest := auth[6..];
      var run := |rest| - |TrimStart(rest)|;
      if run == 0 || |rest| < 2 then None
      else
        var k := if run < |rest| then run else |rest| - 1;
        if NoLineTerminator(rest[k..]) then Some(rest[k..]) else None
  }

  /** The extraction agrees with the regular expression: it succeeds exactly
      when some split matches, its token is one such split, and it is the
      shortest one, the greedy choice of the white-space run. */
  lemma BearerTokenMatches(auth: string)
    ensures BearerToken(auth).Some? <==> exists w: nat, t :: BearerSplit(auth, w, t)
    ensures BearerToken(auth).Some? ==> exists w: nat :: BearerSplit(auth, w, BearerToken(auth).value)
    ensures BearerToken(auth).Some? ==>
      forall w: nat, t | BearerSplit(auth, w, t) :: |BearerToken(auth).value| <= |t|
  {
    forall w: nat, t | BearerSplit(auth, w, t)
      ensures BearerToken(auth).Some? && |BearerToken(auth).value| <= |t|
    {
      SplitNotShorter(auth, w, t);
    }
    if BearerToken(auth).Some? {
      var k := ExtractedSplit(auth);
    }
  }

  /** Any split that matches makes the extraction succeed, with a token no
      longer than the split's. */
  lemma SplitNotShorter(auth: string, w: nat, t: string)
    requires BearerSplit(auth, w, t)
    ensures BearerToken(auth).Some? && |BearerToken(auth).value| <= |t|
  {
    var rest := auth[6..];
    var run := |rest| - |TrimStart(rest)|;
    assert rest[..w] == auth[6..6 + w];
    SpaceRunCovers(rest, w);
    var k := if run < |rest| then run else |rest| - 1;
    assert rest[k..] == t[k - w..];
  }

  /** A successful extraction is itself a split: `k` is the length of the
      white-space run it skips. */
  lemma ExtractedSplit(auth: string) returns (k: nat)
    requires BearerToken(auth).Some?
    ensures BearerSplit(auth, k, BearerToken(auth).value)
  {
    var rest := auth[6..];
    var run := |rest| - |TrimStart(rest)|;
    k := if run < |rest| then run else |rest| - 1;
    assert AllSpace(auth[6..6 + k]) by {
      assert rest[..run] == auth[6..6 + run];
      assert auth[6..6 + k] == rest[..run][..k];
    }
  }

  /** The run of white space `TrimStart` removes covers every all-white-space
      prefix. */
  lemma {:induction false} SpaceRunCovers(s: string, w: nat)
    requires w <= |s| && AllSpace(s[..w])
    ensures |s| - |TrimStart(s)| >= w
    decreases w
  {
    if w > 0 {
      assert IsJsSpace(s[0]) by { assert s[..w][0] == s[0]; }
      assert s[1..][..w - 1] == s[..w][1..];
      SpaceRunCovers(s[1..], w - 1);
    }
  }

  /** The guard's verdict: the request may go on, on behalf of an admin row,
      or it is answered at once. */
  datatype Decision = Admitted(adminId: int) | Rejected(status: int, text: string)

  /** The index row that vouches for a token: present under the token's hash,
      not yet expired (strictly), and owned by an existing user. */
  predicate LiveIndexRow(p: Primitives, tokens: map<string, TokenRow>, users: map<int, User>, token: string, now: int) {
    p.sha256Hex(token) in tokens
    && tokens[p.sha256Hex(token)].expiresAt > now
    && tokens[p.sha256Hex(token)].userId in users
  }

  /** The admin guard of the PUT, DELETE and GET user routes, in its order:
      bearer extraction, signature and expiry, token type, index lookup
      joined to the live users row, then the row's role compared without
      regard to case. `header` is the Authorization header, if sent. */
  function Guard(p: Primitives, tokens: map<string, TokenRow>, users: map<int, User>, header: Option<string>, now: int): (d: Decision)
    ensures d.Rejected? ==> d.status == 401 || d == Rejected(403, Forbidden)
    ensures d.Admitted? ==> d.adminId in users && Lower(users[d.adminId].role) == "admin"
  {
    match BearerToken(header.GetOr(""))
    case None => Rejected(401, MissingBearer)
    case Some(token) =>
      match p.jwtVerify(token, now)
      case None => Rejected(401, InvalidToken)
      case Some(c) =>
        if c.typ != AccessType then Rejected(401, InvalidTokenType)
        else if !LiveIndexRow(p, tokens, users, token, now) then Rejected(401, InvalidOrExpired)
        else
          var id := tokens[p.sha256Hex(token)].userId;
          if Lower(users[id].role) != "admin" then Rejected(403, Forbidden)
          else Admitted(id)
  }

  /** A request whose header does not carry a bearer token is refused with
      401 before any verification: the answer does not depend on the
      primitives, the index or the users table. */
  lemma MissingBearerFirst(p: Primitives, q: Primitives, tokens: map<string, TokenRow>, tokens': map<string, TokenRow>,
                           users: map<int, User>, users': map<int, User>, header: Option<string>, now: int)
    requires BearerToken(header.GetOr("")).None?
    ensures Guard(p, tokens, users, header, now) == Guard(q, tokens', users', header, now) == Rejected(401, MissingBearer)
  {
  }

  /** An admitted request carries a verified access token whose hash indexes
      the admin's row with an expiry strictly after now. */
  lemma AdmittedHasLiveAccessToken(p: Primitives, tokens: map<string, TokenRow>, users: map<int, User>, header: Option<string>, now: int)
    requires Guard(p, tokens, users, header, now).Admitted?
    ensures var token := BearerToken(header.GetOr(""));
      var id := Guard(p, tokens, users, header, now).adminId;
      && token.Some?
      && p.jwtVerify(token.value, now).Some? && p.jwtVerify(token.value, now).value.typ == AccessType
      && p.sha256Hex(token.value) in tokens
      && tokens[p.sha256Hex(token.value)].userId == id
      && tokens[p.sha256Hex(token.value)].expiresAt > now
  {
  }

  /** A verified token of type "at" under the bearer scheme. */
  predicate VerifiedAccess(p: Primitives, header: Option<string>, now: int) {
    BearerToken(header.GetOr("")).Some?
    && p.jwtVerify(BearerToken(header.GetOr("")).value, now).Some?
    && p.jwtVerify(BearerToken(header.GetOr("")).value, now).value.typ == AccessType
  }

  /** Each later step of the chain refuses with its own answer: a token that
      does not verify, one of another type, one without a live index row
      (absent, expired, or owned by a deleted user) and a live row whose
      role is not admin. */
  lemma GuardRejections(p: Primitives, tokens: map<string, TokenRow>, users: map<int, User>, header: Option<string>, now: int)
    requires BearerToken(header.GetOr("")).Some?
    ensures var token := BearerToken(header.GetOr("")).value;
      var d := Guard(p, tokens, users, header, now);
      && (p.jwtVerify(token, now).None? ==> d == Rejected(401, InvalidToken))
      && (p.jwtVerify(token, now).Some? && p.jwtVerify(token, now).value.typ != AccessType ==> d == Rejected(401, InvalidTokenType))
      && (VerifiedAccess(p, header, now) && !LiveIndexRow(p, tokens, users, token, now) ==> d == Rejected(401, InvalidOrExpired))
      && (var id := if p.sha256Hex(token) in tokens then tokens[p.sha256Hex(token)].userId else 0;
          VerifiedAccess(p, header, now) && LiveIndexRow(p, tokens, users, token, now) && Lower(users[id].role) != "admin"
          ==> d == Rejected(403, Forbidden))
  {
  }

  /** The guard admits a request on behalf of `id` exactly when it carries a
      verified access token whose live index row belongs to `id`, and that
      row's role lower-cases to "admin". */
  lemma GuardAdmits(p: Primitives, tokens: map<string, TokenRow>, users: map<int, User>, header: Option<string>, now: int, id: int)
    ensures Guard(p, tokens, users, header, now) == Admitted(id) <==>
      && VerifiedAccess(p, header, now)
      && LiveIndexRow(p, tokens, users, BearerToken(header.GetOr("")).value, now)
      && tokens[p.sha256Hex(BearerToken(header.GetOr("")).value)].userId == id
      && Lower(users[id].role) == "admin"
  {
  }

  /** A verified access token whose index row expires exactly now, or
      earlier, is refused as expired. */
  lemma ExpiryIsStrict(p: Primitives, tokens: map<string, TokenRow>, users: map<int, User>, header: Option<string>, now: int)
    requires BearerToken(header.GetOr("")).Some?
    requires var token := BearerToken(header.GetOr("")).value;
      && p.jwtVerify(token, now).Some? && p.jwtVerify(token, now).value.typ == AccessType
      && p.sha256Hex(token) in tokens && tokens[p.sha256Hex(token)].expiresAt <= now
    ensures Guard(p, tokens, users, header, now) == Rejected(401, InvalidOrExpired)
  {
  }

  /** The role is read from the users row when the request arrives, not from
      the token: once the guard has reached the role check, replacing that
      row's role alone decides between admission and 403. */
  lemma RoleFromRow(p: Primitives, tokens: map<string, TokenRow>, users: map<int, User>, header: Option<string>, now: int,
                    id: int, role: string)
    requires var d := Guard(p, tokens, users, header, now);
      d.Admitted? || d == Rejected(403, Forbidden)
    requires BearerToken(header.GetOr("")).Some?
    requires id == tokens[p.sha256Hex(BearerToken(header.GetOr("")).value)].userId
    ensures var users' := users[id := users[id].(role := role)];
      Guard(p, tokens, users', header, now) == if Lower(role) == "admin" then Admitted(id) else Rejected(403, Forbidden)
  {
    var token := BearerToken(header.GetOr("")).value;
    var users' := users[id := users[id].(role := role)];
    assert p.jwtVerify(token, now).Some? && p.jwtVerify(token, now).value.typ == AccessType;
    assert LiveIndexRow(p, tokens, users, token, now);
    assert LiveIndexRow(p, tokens, users', token, now);
  }
}
