/** The registration route: trims and checks the body, hands it to the
    operation that registers the user and issues tokens, and maps its
    failures to statuses. */
module RegisterRoute {
  import opened Base
  import opened Text
  import opened Http
  import Registration

  /** The JSON body; `None` is an absent field. */
  datatype RegisterBody = RegisterBody(username: Option<string>, email: Option<string>, password: Option<string>)

  /** What registering and issuing tokens returns. */
  datatype Issued = Issued(id: int, uuid: string, username: string, email: string, createdAt: int,
                           accessToken: string, refreshToken: string)

  /** `user` in the response: no password hash, no role. */
  datatype RegisteredUser = RegisteredUser(id: int, uuid: string, username: string, email: string, createdAt: int)

  /** `{ user, access_token, refresh_token }` */
  datatype RegisterResponse = RegisterResponse(user: RegisteredUser, accessToken: string, refreshToken: string)

  const UsernameRequired := "username is required"
  const EmailRequired := "email is required"
  const PasswordRequired := "password is required"

  /** The substrings register.ts answers with 400. */
  predicate ClientPatterns(m: string) {
    Contains(m, "required") || Contains(m, "at least") || Contains(m, "invalid email")
  }

  /** Conflicts keep their message under 409, input errors theirs under 400,
      anything else is an internal error. */
  function RegisterFailure(msg: string): (reply: Reply<RegisterResponse>)
    ensures reply.Text? && reply.status in {400, 409, 500}
    ensures reply.status == 409 <==> Contains(Thrown(msg), "already exists")
    ensures reply.status == 400 <==> !Contains(Thrown(msg), "already exists") && ClientPatterns(Thrown(msg))
    ensures reply.status in {400, 409} ==> reply.text == Thrown(msg)
    ensures reply.status == 500 ==> reply.text == "internal error"
  {
    var m := Thrown(msg);
    if Contains(m, "already exists") then Text(409, m)
    else if ClientPatterns(m) then Text(400, m)
    else Text(500, "internal error")
  }

  /** registerUserHandler, with `issue` the operation that registers the
      user and issues both tokens, given the trimmed username and email and
      the password as sent. */
  function Register(body: RegisterBody, issue: (string, string, string) -> Result<Issued>): (reply: Reply<RegisterResponse>)
    ensures AllSpace(body.username.GetOr("")) ==> reply == Text(400, UsernameRequired)
    ensures !AllSpace(body.username.GetOr("")) && AllSpace(body.email.GetOr("")) ==> reply == Text(400, EmailRequired)
    ensures !AllSpace(body.username.GetOr("")) && !AllSpace(body.email.GetOr("")) && body.password.GetOr("") == ""
      ==> reply == Text(400, PasswordRequired)
    ensures var result := issue(Trim(body.username.GetOr("")), Trim(body.email.GetOr("")), body.password.GetOr(""));
      && (reply.Json? <==> (!AllSpace(body.username.GetOr("")) && !AllSpace(body.email.GetOr(""))
          && body.password.GetOr("") != "" && result.Ok?))
      && (reply.Json? ==> reply == Json(201, RegisterResponse(
            RegisteredUser(result.value.id, result.value.uuid, result.value.username, result.value.email, result.value.createdAt),
            result.value.accessToken, result.value.refreshToken)))
      && (!AllSpace(body.username.GetOr("")) && !AllSpace(body.email.GetOr("")) && body.password.GetOr("") != "" && result.Err?
          ==> reply == RegisterFailure(result.msg))
  {
    var username := Trim(body.username.GetOr(""));
    var email := Trim(body.email.GetOr(""));
    var password := body.password.GetOr("");
    if username == "" then Text(400, UsernameRequired)
    else if email == "" then Text(400, EmailRequired)
    else if password == "" then Text(400, PasswordRequired)
    else match issue(username, email, password)
      case Ok(r) => Json(201, RegisterResponse(RegisteredUser(r.id, r.uuid, r.username, r.email, r.createdAt),
                                               r.accessToken, r.refreshToken))
      case Err(m) => RegisterFailure(m)
  }

  /** A duplicate username or email is a 409 with the registration's own
      message. */
  lemma DuplicateIsConflict()
    ensures RegisterFailure(Registration.DuplicateUser) == Text(409, Registration.DuplicateUser)
  {
    assert OccursAt(Registration.DuplicateUser, "already exists", 18);
    ContainsIffOccurs(Registration.DuplicateUser, "already exists");
  }

  /** A message without the letters `x`, `q`, `l` and `v`: each of the
      mapped phrases has one of them. */
  predicate LacksPatternLetters(msg: string)
  {
    'x' !in msg && 'q' !in msg && 'l' !in msg && 'v' !in msg
  }

  /** Any message without the letters `x`, `q`, `l` and `v`, and so with
      none of the patterns, is an internal error. */
  lemma {:induction false} RegisterUnmatchedIsInternalError(msg: string)
    requires LacksPatternLetters(msg)
    ensures RegisterFailure(msg) == Text(500, "internal error")
  {
    var m := Thrown(msg);
    assert 'x' !in m && 'q' !in m && 'l' !in m && 'v' !in m;
    MissingCharNotContained(m, "already exists", 'x');
    MissingCharNotContained(m, "required", 'q');
    MissingCharNotContained(m, "at least", 'l');
    MissingCharNotContained(m, "invalid email", 'v');
  }

  /** A message without the letter `x` is never a conflict; if it holds one
      of the client-error phrases it is a 400 with its own text. */
  lemma {:induction false} ClientErrorIs400(msg: string, phrase: string, i: nat)
    requires phrase in {"required", "at least", "invalid email"}
    requires msg != "" && 'x' !in msg && OccursAt(msg, phrase, i)
    ensures RegisterFailure(msg) == Text(400, msg)
  {
    MissingCharNotContained(msg, "already exists", 'x');
    ContainsIffOccurs(msg, phrase);
  }

  /** The validation messages of the registration logic are 400s with their
      own text: the username and email ones name "required", the
      short-password one "at least". */
  lemma ValidationIs400(msg: string)
    requires msg == Registration.UsernameRequired || msg == Registration.EmailRequired || msg == Registration.PasswordTooShort
    ensures RegisterFailure(msg) == Text(400, msg)
  {
    if msg == Registration.UsernameRequired {
      UsernameRequiredIs400();
    } else if msg == Registration.EmailRequired {
      EmailRequiredIs400();
    } else {
      PasswordTooShortIs400();
    }
  }

  lemma UsernameRequiredIs400()
    ensures RegisterFailure(Registration.UsernameRequired) == Text(400, Registration.UsernameRequired)
  {
    var msg := Registration.UsernameRequired;
    assert 'x' !in msg && msg[12..20] == "required";
    ClientErrorIs400(msg, "required", 12);
  }

  lemma EmailRequiredIs400()
    ensures RegisterFailure(Registration.EmailRequired) == Text(400, Registration.EmailRequired)
  {
    var msg := Registration.EmailRequired;
    assert 'x' !in msg && msg[9..17] == "required";
    ClientErrorIs400(msg, "required", 9);
  }

  lemma PasswordTooShortIs400()
    ensures RegisterFailure(Registration.PasswordTooShort) == Text(400, Registration.PasswordTooShort)
  {
    var msg := Registration.PasswordTooShort;
    assert 'x' !in msg && msg[17..25] == "at least";
    ClientErrorIs400(msg, "at least", 17);
  }

  /** The TypeError a CommonJS build that skips type checking throws when
      the handler calls `registerAndIssueTokens`, which the registration
      logic module does not export. */
  const MissingExport := "(0 , register_1." + "register" + "AndIssueTokens" + ") is not " + "a function"

  /** That TypeError has none of the letters `x`, `q`, `l` and `v`, so
      `RegisterAsWritten` applies to it. */
  lemma MissingExportLetters(m: string)
    requires m == MissingExport
    ensures LacksPatternLetters(m)
  {
    assert LacksPatternLetters("(0 , register_1.");
    assert LacksPatternLetters("register");
    assert LacksPatternLetters("AndIssueTokens");
    assert LacksPatternLetters(") is not ");
    assert LacksPatternLetters("a function");
  }

  /** The handler as written: the call to the missing export throws a
      TypeError, whose message names none of the mapped phrases, so every
      body that passes the three input checks is answered with 500 and no
      user is ever registered through this route. */
  lemma RegisterAsWritten(body: RegisterBody, typeError: string)
    requires LacksPatternLetters(typeError)
    requires !AllSpace(body.username.GetOr("")) && !AllSpace(body.email.GetOr("")) && body.password.GetOr("") != ""
    ensures Register(body, (u: string, e: string, p: string) => Err(typeError)) == Text(500, "internal error")
  {
    RegisterUnmatchedIsInternalError(typeError);
  }
}
