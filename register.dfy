/** registerUser: validates and normalises the input, hashes the password and
    inserts the row. */
module Registration {
  import opened Base
  import opened Text
  import opened Foreign
  import opened Store
  import opened PasswordHash

  const UsernameRequired := "username is required"
  const EmailRequired := "email is required"
  const PasswordTooShort := "password must be at least 6 characters"
  const DuplicateUser := "username or email already exists"
  /** The store's unique-violation code. */
  const UniqueViolation := "23505"
  const MinPasswordLength := 6

  /** The request fields; `None` is a field that is absent. */
  datatype RegisterInput = RegisterInput(username: Option<string>, email: Option<string>, password: Option<string>)

  /** What gets stored: trimmed username, trimmed lower-cased email and the
      password exactly as given. */
  datatype Registration = Registration(username: string, email: string, password: string)

  /** The row registration returns: no password hash, no role. */
  datatype PublicUser = PublicUser(id: int, uuid: string, username: string, email: string, createdAt: int)

  /** The input checks, in the order username, email, password. A password is
      rejected when it is absent, empty or shorter than six UTF-16 units. */
  function CheckRegistration(input: RegisterInput): (r: Result<Registration>)
    ensures r.Ok? <==> (!AllSpace(input.username.GetOr("")) && !AllSpace(input.email.GetOr(""))
      && JsLength(input.password.GetOr("")) >= MinPasswordLength)
    ensures AllSpace(input.username.GetOr("")) ==> r == Err(UsernameRequired)
    ensures !AllSpace(input.username.GetOr("")) && AllSpace(input.email.GetOr("")) ==> r == Err(EmailRequired)
    ensures (!AllSpace(input.username.GetOr("")) && !AllSpace(input.email.GetOr(""))
      && JsLength(input.password.GetOr("")) < MinPasswordLength) ==> r == Err(PasswordTooShort)
    ensures r.Err? ==> r.msg in {UsernameRequired, EmailRequired, PasswordTooShort}
    ensures r.Ok? ==> (r.value.username == Trim(input.username.value)
      && r.value.email == Lower(Trim(input.email.value))
      && r.value.password == input.password.value)
  {
    var username := Trim(input.username.GetOr(""));
    var email := Lower(Trim(input.email.GetOr("")));
    var password := input.password.GetOr("");
    if username == "" then Err(UsernameRequired)
    else if email == "" then Err(EmailRequired)
    else if password == "" || JsLength(password) < MinPasswordLength then Err(PasswordTooShort)
    else Ok(Registration(username, email, password))
  }

  /** An accepted registration has a non-empty username and email with no
      surrounding white space, an email without ASCII capitals, and a
      password of at least six characters. */
  lemma AcceptedRegistrationIsNormal(input: RegisterInput)
    requires CheckRegistration(input).Ok?
    ensures var reg := CheckRegistration(input).value;
      reg.username != "" && !IsJsSpace(reg.username[0]) && !IsJsSpace(reg.username[|reg.username| - 1])
      && reg.email != "" && Lower(reg.email) == reg.email
      && JsLength(reg.password) >= MinPasswordLength
  {
    var reg := CheckRegistration(input).value;
    LowerIdempotent(Trim(input.email.value));
  }

  /** The store error registration reports for a failed insert. */
  function InsertFailure(e: StoreError): (msg: string)
    ensures e.code == UniqueViolation ==> msg == DuplicateUser
    ensures e.code != UniqueViolation ==> msg == e.message
  {
    if e.code == UniqueViolation then DuplicateUser else e.message
  }

  /** The INSERT of an accepted registration. A store error `fault` stores
      no row, and a unique violation still uses up the id the column
      default drew; otherwise the row gets the next id. */
  method InsertRegistration(db: UserStore, p: Primitives, reg: Registration, salt: seq<byte>, uuid: string, now: int, fault: Option<StoreError>)
    returns (r: Result<PublicUser>)
    requires db.Valid() && |salt| == SaltLength
    modifies db`users, db`nextId
    ensures db.Valid()
    ensures fault.Some? ==> r == Err(InsertFailure(fault.value)) && db.users == old(db.users)
    ensures fault.Some? ==> db.nextId == old(db.nextId) + (if fault.value.code == UniqueViolation then 1 else 0)
    ensures fault.None? ==> r == Ok(PublicUser(old(db.nextId), uuid, reg.username, reg.email, now))
    ensures fault.None? ==> old(db.nextId) !in old(db.users)
    ensures var row := User(old(db.nextId), uuid, reg.username, reg.email, EncodeAsWritten(p, reg.password, salt),
                            DefaultRole, false, None, None, None, now, now);
      fault.None? ==> db.users == old(db.users)[old(db.nextId) := row]
  {
    if fault.Some? {
      if fault.value.code == UniqueViolation {
        db.SkipId();
      }
      return Err(InsertFailure(fault.value));
    }
    var u := db.InsertUser(reg.username, reg.email, EncodeAsWritten(p, reg.password, salt), uuid, now);
    r := Ok(PublicUser(u.id, u.uuid, u.username, u.email, u.createdAt));
  }

  /** registerUser, with the salt drawn by the caller. The row is stored with
      the hash `EncodeAsWritten` builds: scrypt over the raw password with
      the salt's base64 text, which login's verification does not reproduce
      (see `RegisteredPasswordOutcome`). A validation error or a failed
      insert leaves the table unchanged; an insert refused by a unique
      constraint still uses up one value of the id sequence. */
  method RegisterUser(db: UserStore, p: Primitives, input: RegisterInput, salt: seq<byte>, uuid: string, now: int, fault: Option<StoreError>)
    returns (r: Result<PublicUser>)
    requires db.Valid() && |salt| == SaltLength
    modifies db`users, db`nextId
    ensures db.Valid()
    ensures r.Err? ==> db.users == old(db.users)
    ensures CheckRegistration(input).Err? ==> db.nextId == old(db.nextId)
    ensures CheckRegistration(input).Ok? && fault.Some? ==>
      db.nextId == old(db.nextId) + (if fault.value.code == UniqueViolation then 1 else 0)
    ensures CheckRegistration(input).Err? ==> r == Err(CheckRegistration(input).msg)
    ensures CheckRegistration(input).Ok? && fault.Some? ==> r == Err(InsertFailure(fault.value))
    ensures r.Ok? <==> CheckRegistration(input).Ok? && fault.None?
    ensures r.Ok? ==>
      var reg := CheckRegistration(input).value;
      r.value == PublicUser(old(db.nextId), uuid, reg.username, reg.email, now)
      && r.value.id !in old(db.users)
      && db.users == old(db.users)[r.value.id := User(r.value.id, uuid, reg.username, reg.email,
           EncodeAsWritten(p, reg.password, salt), DefaultRole, false, None, None, None, now, now)]
  {
    var checked := CheckRegistration(input);
    if checked.Err? {
      return Err(checked.msg);
    }
    r := InsertRegistration(db, p, checked.value, salt, uuid, now, fault);
  }

  /** Login accepts the password a registration stored only when scrypt
      happens to derive the same key from the normalised password with the
      salt bytes as from the raw password with the salt text. */
  lemma RegisteredPasswordOutcome(p: Primitives, input: RegisterInput, salt: seq<byte>)
    requires CheckRegistration(input).Ok? && |salt| == SaltLength && Base64Laws(p)
    ensures var password := input.password.value;
      var key := p.scrypt(p.utf8(password), p.utf8(p.base64Encode(salt)), KeyLength);
      var stored := EncodeAsWritten(p, CheckRegistration(input).value.password, salt);
      VerifyPassword(p, password, stored).Ok? <==> p.scrypt(p.utf8(NormalizeCandidate(p, password)), salt, |key|) == key
  {
    AsWrittenVerifiesOnlyOnCollision(p, input.password.value, salt);
  }
}
