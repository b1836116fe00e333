/** deleteUser: removes one row of the users table by id. */
module UserRemoval {
  import opened Base
  import opened Store

  const InvalidId := "invalid id"
  const NotFound := "not found"

  /** The outcome of deleteUser on table `users`: the id check, then the
      store's own failure, then whether a row was deleted. */
  function DeleteOutcome(users: map<int, User>, id: JsNumber, fault: Option<StoreError>): Result<()> {
    if !id.IsPositiveFinite() then Err(InvalidId)
    else if fault.Some? then Err(fault.value.message)
    else if id.AsRowId().Some? && id.AsRowId().value in users then Ok(())
    else Err(NotFound)
  }

  /** deleteUser, with `fault` the failure the store reports for the
      statement, if any. An invalid id never reaches the store; a failure
      leaves the table unchanged; a success removes exactly the row with
      that id and keeps every other row as it was. */
  method DeleteUser(db: UserStore, id: JsNumber, fault: Option<StoreError>) returns (r: Result<()>)
    requires db.Valid()
    modifies db`users
    ensures db.Valid()
    ensures r == DeleteOutcome(old(db.users), id, fault)
    ensures !id.IsPositiveFinite() ==> r == Err(InvalidId)
    ensures id.IsPositiveFinite() && fault.None? && (id.AsRowId().None? || id.AsRowId().value !in old(db.users))
      ==> r == Err(NotFound)
    ensures r.Err? ==> db.users == old(db.users)
    ensures r.Ok? ==> (id.AsRowId().Some? && id.AsRowId().value in old(db.users)
      && id.AsRowId().value !in db.users
      && forall k | k in old(db.users) && k != id.AsRowId().value :: k in db.users && db.users[k] == old(db.users)[k])
    ensures r.Ok? ==> db.users.Keys == old(db.users).Keys - {id.AsRowId().value}
    ensures r.Ok? ==> db.users == old(db.users) - {id.AsRowId().value}
  {
    if !id.IsPositiveFinite() {
      return Err(InvalidId);
    }
    if fault.Some? {
      return Err(fault.value.message);
    }
    // `WHERE id=$1`: a fractional id matches no integer key.
    var key := id.AsRowId();
    if key.None? {
      return Err(NotFound);
    }
    var rowCount := db.DeleteUser(key.value);
    if rowCount == 0 {
      return Err(NotFound);
    }
    r := Ok(());
  }
}
