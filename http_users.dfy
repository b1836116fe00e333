/** The admin routes on single users: PUT and DELETE by id, GET by uuid.
    Each runs the admin guard first and reaches the store only once it admits
    the request; the outcome of the logic layer is then mapped to a status. */
module UserRoutes {
  import opened Base
  import opened Text
  import opened Foreign
  import opened Store
  import opened Http
  import PasswordHash
  import UserUpdate
  import UserRemoval

  /** The substrings put.ts answers with 400: input errors. */
  predicate ClientPatterns(m: string) {
    Contains(m, "required") || Contains(m, "invalid ") || Contains(m, "no fields")
  }

  /** The substrings answered with 409: a unique violation. */
  predicate ConflictPatterns(m: string) {
    Contains(m, "duplicate") || Contains(m, "exists") || Contains(m, "23505")
  }

  /** The status a failed full update is answered with, by substring of
      the message, in this order. */
  function PutFailure(msg: string): (reply: Reply<int>)
    ensures reply.Text? && reply.status in {400, 404, 409, 500}
    ensures reply.status == 404 <==> Thrown(msg) == "not found"
    ensures reply.status == 400 <==> Thrown(msg) != "not found" && ClientPatterns(Thrown(msg))
    ensures reply.status == 409 <==> Thrown(msg) != "not found" && !ClientPatterns(Thrown(msg)) && ConflictPatterns(Thrown(msg))
    ensures reply.status in {400, 404} ==> reply.text == Thrown(msg)
    ensures reply.status == 409 ==> reply.text == "conflict"
    ensures reply.status == 500 ==> reply.text == "internal error"
  {
    var m := Thrown(msg);
    if m == "not found" then Text(404, m)
    else if ClientPatterns(m) then Text(400, m)
    else if ConflictPatterns(m) then Text(409, "conflict")
    else Text(500, "internal error")
  }

  /** `res.json({ id })` on success, the failure mapping otherwise. */
  function PutReply(r: Result<int>): Reply<int> {
    match r
    case Ok(id) => Json(200, id)
    case Err(m) => PutFailure(m)
  }

  /** The validation messages of the full update are client errors and
      "not found" is 404. */
  lemma PutFailureStatuses()
    ensures PutFailure(UserUpdate.InvalidId) == Text(400, UserUpdate.InvalidId)
    ensures PutFailure(UserUpdate.UsernameRequired) == Text(400, UserUpdate.UsernameRequired)
    ensures PutFailure(UserUpdate.InvalidEmail) == Text(400, UserUpdate.InvalidEmail)
    ensures PutFailure(UserUpdate.InvalidRole) == Text(400, UserUpdate.InvalidRole)
    ensures PutFailure(UserUpdate.NoFields) == Text(400, UserUpdate.NoFields)
    ensures PutFailure(UserUpdate.NotFound) == Text(404, UserUpdate.NotFound)
  {
    PrefixContained(UserUpdate.InvalidId, "invalid ");
    PrefixContained(UserUpdate.InvalidEmail, "invalid ");
    PrefixContained(UserUpdate.InvalidRole, "invalid ");
    PrefixContained(UserUpdate.NoFields, "no fields");
    assert OccursAt(UserUpdate.UsernameRequired, "required", 12);
    ContainsIffOccurs(UserUpdate.UsernameRequired, "required");
  }

  /** A non-empty message other than "not found" with no letter `i` and no
      digit 2 matches none of the patterns: each pattern holds one of them. */
  lemma {:induction false} UnmatchedIsInternalError(msg: string)
    requires msg != "" && msg != "not found" && 'i' !in msg && '2' !in msg
    ensures PutFailure(msg) == Text(500, "internal error")
  {
    MissingCharNotContained(msg, "required", 'i');
    MissingCharNotContained(msg, "invalid ", 'i');
    MissingCharNotContained(msg, "no fields", 'i');
    MissingCharNotContained(msg, "duplicate", 'i');
    MissingCharNotContained(msg, "exists", 'i');
    MissingCharNotContained(msg, "23505", '2');
  }

  /** A message naming a unique violation, with none of the letters `f`,
      `q` and `v` and so none of the 404 and 400 patterns, is answered 409. */
  lemma {:induction false} ConflictIs409(msg: string, phrase: string, i: nat)
    requires phrase in {"duplicate", "exists", "23505"}
    requires 'f' !in msg && 'q' !in msg && 'v' !in msg && OccursAt(msg, phrase, i)
    ensures PutFailure(msg) == Text(409, "conflict")
  {
    assert msg != "not found" by { assert "not found"[4] == 'f'; }
    MissingCharNotContained(msg, "required", 'q');
    MissingCharNotContained(msg, "invalid ", 'v');
    MissingCharNotContained(msg, "no fields", 'f');
    ContainsIffOccurs(msg, phrase);
  }

  /** The short-password message of the full update matches none of the
      patterns, so it is answered as an internal error rather than a 400. */
  lemma ShortPasswordIsInternalError()
    ensures PutFailure(UserUpdate.PasswordTooShort) == Text(500, "internal error")
  {
    var short := UserUpdate.PasswordTooShort;
    assert short != "not found" by {
      assert |short| != |"not found"|;
    }
    assert 'i' !in short;
    assert '2' !in short;
    UnmatchedIsInternalError(short);
  }

  /** putUserHandler, with `idParam` the path id and `body` the parsed JSON
      body. A refused request is answered by the guard and leaves the users
      table as it was; an admitted one is answered from the outcome of the
      full update, and only a 200 changes the table. */
  method PutUser(db: UserStore, p: Primitives, header: Option<string>, idParam: string, body: UserUpdate.FullUpdateInput,
                 salt: seq<byte>, now: int, fault: Option<StoreError>)
    returns (reply: Reply<int>)
    requires db.Valid() && |salt| == PasswordHash.SaltLength
    modifies db`users
    ensures db.Valid()
    ensures var d := Guard(p, db.accessTokens, old(db.users), header, now);
      && (d.Rejected? ==> reply == Text(d.status, d.text))
      && (d.Admitted? ==> reply == PutReply(UserUpdate.UpdateOutcome(old(db.users), p, p.toNumber(idParam), body, salt, fault)))
    ensures reply.Text? ==> db.users == old(db.users)
    ensures reply.Json? ==> (
      var plan := UserUpdate.Plan(UserUpdate.FieldOrder, body, UserUpdate.NewHash(p, body, salt));
      && reply.status == 200 && reply.body in old(db.users) && plan.Ok?
      && db.users == old(db.users)[reply.body := UserUpdate.UpdatedRow(old(db.users)[reply.body], plan.value, now)])
  {
    var d := Guard(p, db.accessTokens, db.users, header, now);
    if d.Rejected? {
      return Text(d.status, d.text);
    }
    var r := UserUpdate.UpdateUserFull(db, p, p.toNumber(idParam), body, salt, now, fault);
    reply := PutReply(r);
  }

  /** The status a failed delete is answered with. */
  function DeleteFailure(msg: string): (reply: Reply<()>)
    ensures reply.Text? && reply.status in {400, 404, 500}
    ensures reply.status == 404 <==> Thrown(msg) == "not found"
    ensures reply.status == 400 <==> Thrown(msg) != "not found" && Contains(Thrown(msg), "invalid id")
    ensures reply.status in {400, 404} ==> reply.text == Thrown(msg)
    ensures reply.status == 500 ==> reply.text == "internal error"
  {
    var m := Thrown(msg);
    if m == "not found" then Text(404, m)
    else if Contains(m, "invalid id") then Text(400, m)
    else Text(500, "internal error")
  }

  /** 204 with an empty body on success, the failure mapping otherwise. */
  function DeleteReply(r: Result<()>): Reply<()> {
    match r
    case Ok(_) => Text(204, "")
    case Err(m) => DeleteFailure(m)
  }

  /** A path id that is not a positive number, NaN included, is answered
      with 400; a missing row with 404; a store failure with 500 unless its
      message happens to name one of the two. */
  lemma DeleteFailureStatuses(users: map<int, User>, id: JsNumber, fault: Option<StoreError>)
    ensures !id.IsPositiveFinite() ==> DeleteReply(UserRemoval.DeleteOutcome(users, id, fault)) == Text(400, "invalid id")
    ensures DeleteReply(UserRemoval.DeleteOutcome(users, id, fault)) == Text(204, "") <==> UserRemoval.DeleteOutcome(users, id, fault).Ok?
    ensures id.IsPositiveFinite() && fault.None? && (id.AsRowId().None? || id.AsRowId().value !in users)
      ==> DeleteReply(UserRemoval.DeleteOutcome(users, id, fault)) == Text(404, "not found")
  {
    PrefixContained(UserRemoval.InvalidId, "invalid id");
  }

  /** deleteUserHandler: a refused request, a non-admin included, never
      reaches the delete; a 204 removes exactly the addressed row and every
      other answer leaves the table as it was. */
  method DeleteUser(db: UserStore, p: Primitives, header: Option<string>, idParam: string, now: int, fault: Option<StoreError>)
    returns (reply: Reply<()>)
    requires db.Valid()
    modifies db`users
    ensures db.Valid()
    ensures var d := Guard(p, db.accessTokens, old(db.users), header, now);
      && (d.Rejected? ==> reply == Text(d.status, d.text))
      && (d.Admitted? ==> reply == DeleteReply(UserRemoval.DeleteOutcome(old(db.users), p.toNumber(idParam), fault)))
    ensures reply != Text(204, "") ==> db.users == old(db.users)
    ensures reply == Text(204, "") ==> (
      var key := p.toNumber(idParam).AsRowId();
      key.Some? && key.value in old(db.users) && db.users == old(db.users) - {key.value})
  {
    var d := Guard(p, db.accessTokens, db.users, header, now);
    if d.Rejected? {
      return Text(d.status, d.text);
    }
    var r := UserRemoval.DeleteUser(db, p.toNumber(idParam), fault);
    reply := DeleteReply(r);
    DeleteFailureStatuses(old(db.users), p.toNumber(idParam), fault);
    assert reply == Text(204, "") <==> r.Ok?;
  }

  const UuidRequired := "uuid is required"
  const NotFound := "not found"

  /** getUserByUUID: a row whose uuid equals the given one, if any. */
  method FindByUuid(db: UserStore, uuid: string) returns (u: Option<User>)
    requires db.Valid()
    ensures u.Some? ==> u.value.uuid == uuid && u.value.id in db.users && db.users[u.value.id] == u.value
    ensures u.None? <==> forall id | id in db.users :: db.users[id].uuid != uuid
  {
    if exists id :: id in db.users && db.users[id].uuid == uuid {
      var id :| id in db.users && db.users[id].uuid == uuid;
      u := Some(db.users[id]);
    } else {
      u := None;
    }
  }

  /** getUserByUUIDHandler: the guard comes before the uuid check, so a
      request without a bearer token gets 401 even with an empty uuid. The
      uuid is trimmed; success returns the whole row, hash and role
      included. */
  method GetUser(db: UserStore, p: Primitives, header: Option<string>, uuidParam: string, now: int)
    returns (reply: Reply<User>)
    requires db.Valid()
    ensures BearerToken(header.GetOr("")).None? ==> reply == Text(401, MissingBearer)
    ensures var d := Guard(p, db.accessTokens, db.users, header, now);
      && (d.Rejected? ==> reply == Text(d.status, d.text))
      && (d.Admitted? && Trim(uuidParam) == "" ==> reply == Text(400, UuidRequired))
      && (d.Admitted? && Trim(uuidParam) != "" && (forall id | id in db.users :: db.users[id].uuid != Trim(uuidParam))
          ==> reply == Text(404, NotFound))
      && (reply.Json? <==> d.Admitted? && Trim(uuidParam) != "" && exists id :: id in db.users && db.users[id].uuid == Trim(uuidParam))
    ensures reply.Json? ==> (reply.status == 200 && reply.body.uuid == Trim(uuidParam)
      && reply.body.id in db.users && db.users[reply.body.id] == reply.body)
  {
    var d := Guard(p, db.accessTokens, db.users, header, now);
    if d.Rejected? {
      return Text(d.status, d.text);
    }
    var uuid := Trim(uuidParam);
    if uuid == "" {
      return Text(400, UuidRequired);
    }
    var u := FindByUuid(db, uuid);
    if u.None? {
      return Text(404, NotFound);
    }
    reply := Json(200, u.value);
  }
}
