/** The sign-in and sign-up forms of the web client: their field
    validators, what the sign-in form sends, and the text it shows for a
    failure. A validator answers `None` for an accepted value and otherwise
    the message to show; an absent field reads as "". */
module AuthForms {
  import opened Base
  import opened Text
  import opened Foreign
  import LoginFlow

  const EnterIdentifier := "请输入邮箱或用户名"
  const IdentifierInvalid := "请输入合法的邮箱或至少 2 位用户名"
  const EnterPassword := "请输入密码"
  const PasswordTooShort := "密码至少 6 位"
  const EnterEmail := "请输入邮箱"
  const EmailInvalid := "邮箱格式不正确"
  const EnterUsername := "请输入用户名"
  const UsernameTooShort := "用户名至少 2 个字符"
  const WrongCredentials := "邮箱或密码错误"
  const TryLater := "请稍后重试"
  const LoginFailed := "登录失败"
  const SignupFailed := "注册失败"

  /** `/.+@.+\..+/` matches at `@` position `at` and `.` position `dot`: at
      least one character before the `@`, one between it and the dot, one
      after the dot, none of them a line terminator. */
  predicate EmailMatchAt(s: string, at: int, dot: int) {
    1 <= at && at + 1 < dot && dot + 1 < |s|
    && s[at] == '@' && s[dot] == '.'
    && !IsLineTerminator(s[at - 1]) && NoLineTerminator(s[at + 1..dot]) && !IsLineTerminator(s[dot + 1])
  }

  /** `/.+@.+\..+/.test(s)`: the pattern is unanchored, so it is found
      anywhere in `s`. */
  predicate EmailPattern(s: string) {
    exists at, dot | 0 <= at < |s| && 0 <= dot < |s| :: EmailMatchAt(s, at, dot)
  }

  /** Anything the pattern accepts is at least five characters long. */
  lemma EmailPatternLength(s: string)
    requires EmailPattern(s)
    ensures JsLength(s) >= 5
  {
    var at, dot :| 0 <= at < |s| && 0 <= dot < |s| && EmailMatchAt(s, at, dot);
  }

  /** validateIdentifier (sign-in form) */
  function ValidateIdentifier(value: Option<string>): (r: Option<string>)
    ensures AllSpace(value.GetOr("")) ==> r == Some(EnterIdentifier)
    ensures r.Some? ==> r.value in {EnterIdentifier, IdentifierInvalid}
  {
    var v := Trim(value.GetOr(""));
    if v == "" then Some(EnterIdentifier)
    else if EmailPattern(v) || JsLength(v) >= 2 then None
    else Some(IdentifierInvalid)
  }

  /** The e-mail alternative adds nothing: an identifier is accepted exactly
      when it is at least two characters long once trimmed. */
  lemma IdentifierAcceptance(value: Option<string>)
    ensures ValidateIdentifier(value).None? <==> JsLength(Trim(value.GetOr(""))) >= 2
    ensures !AllSpace(value.GetOr("")) && JsLength(Trim(value.GetOr(""))) < 2 ==> ValidateIdentifier(value) == Some(IdentifierInvalid)
  {
    var v := Trim(value.GetOr(""));
    if EmailPattern(v) {
      EmailPatternLength(v);
    }
  }

  /** validatePassword, the same in both forms: not trimmed, at least six
      UTF-16 units. */
  function ValidatePassword(value: Option<string>): (r: Option<string>)
    ensures value.GetOr("") == "" ==> r == Some(EnterPassword)
    ensures value.GetOr("") != "" ==> (r.None? <==> JsLength(value.GetOr("")) >= 6)
    ensures r.Some? ==> r.value in {EnterPassword, PasswordTooShort}
  {
    var pwd := value.GetOr("");
    if pwd == "" then Some(EnterPassword)
    else if JsLength(pwd) >= 6 then None
    else Some(PasswordTooShort)
  }

  /** validateEmail (sign-up form): not trimmed; the pattern is found
      anywhere in the value. */
  function ValidateEmail(value: Option<string>): (r: Option<string>)
    ensures value.GetOr("") == "" ==> r == Some(EnterEmail)
    ensures value.GetOr("") != "" ==> (r.None? <==> EmailPattern(value.GetOr("")))
    ensures r.Some? ==> r.value in {EnterEmail, EmailInvalid}
  {
    var email := value.GetOr("");
    if email == "" then Some(EnterEmail)
    else if EmailPattern(email) then None
    else Some(EmailInvalid)
  }

  /** An accepted e-mail has an `@` with a dot somewhere after it, and so
      is at least five characters long. */
  lemma AcceptedEmailShape(value: Option<string>)
    requires ValidateEmail(value).None?
    ensures var email := value.GetOr("");
      JsLength(email) >= 5
      && exists at, dot | 0 <= at < dot < |email| :: email[at] == '@' && email[dot] == '.'
  {
    var email := value.GetOr("");
    EmailPatternLength(email);
    var at, dot :| 0 <= at < |email| && 0 <= dot < |email| && EmailMatchAt(email, at, dot);
    assert email[at] == '@' && email[dot] == '.';
  }

  /** validateUsername (sign-up form): not trimmed, at least two units. */
  function ValidateUsername(value: Option<string>): (r: Option<string>)
    ensures value.GetOr("") == "" ==> r == Some(EnterUsername)
    ensures value.GetOr("") != "" ==> (r.None? <==> JsLength(value.GetOr("")) >= 2)
    ensures r.Some? ==> r.value in {EnterUsername, UsernameTooShort}
  {
    var name := value.GetOr("");
    if name == "" then Some(EnterUsername)
    else if JsLength(name) >= 2 then None
    else Some(UsernameTooShort)
  }

  /** What the sign-in form sends: the identifier trimmed, the password
      NFKC-normalised and then trimmed. */
  datatype Credentials = Credentials(identifier: string, password: string)

  function LoginSubmission(nfkc: string -> string, identifier: Option<string>, password: Option<string>): (c: Credentials)
    ensures c.identifier == "" || (!IsJsSpace(c.identifier[0]) && !IsJsSpace(c.identifier[|c.identifier| - 1]))
    ensures c.password == "" || (!IsJsSpace(c.password[0]) && !IsJsSpace(c.password[|c.password| - 1]))
    ensures var typed := identifier.GetOr("");
      exists i, j | 0 <= i <= j <= |typed| :: c.identifier == typed[i..j] && AllSpace(typed[..i]) && AllSpace(typed[j..])
    ensures var normal := nfkc(password.GetOr(""));
      exists i, j | 0 <= i <= j <= |normal| :: c.password == normal[i..j] && AllSpace(normal[..i]) && AllSpace(normal[j..])
  {
    Credentials(Trim(identifier.GetOr("")), Trim(nfkc(password.GetOr(""))))
  }

  /** An identifier the form accepts is never refused by the server as
      missing: it is still non-blank after the server trims it again. */
  lemma AcceptedIdentifierIsPresent(nfkc: string -> string, identifier: Option<string>, password: Option<string>)
    requires ValidateIdentifier(identifier).None?
    ensures LoginFlow.NormalizeIdentifier(LoginSubmission(nfkc, identifier, password).identifier) != ""
  {
    var sent := LoginSubmission(nfkc, identifier, password).identifier;
    assert sent != "" && IsJsSpace(sent[0]) == false;
    assert !AllSpace(sent);
  }

  /** The password check looks at the field before trimming: six spaces pass
      it, yet the form sends an empty password, which the server refuses as
      missing. */
  lemma BlankPasswordPassesCheck(nfkc: string -> string)
    requires nfkc("      ") == "      "
    ensures ValidatePassword(Some("      ")).None?
    ensures LoginSubmission(nfkc, Some("someone"), Some("      ")).password == ""
  {
    assert AllSpace("      ");
  }

  /** The message of the error a failed request throws: the response text,
      or the form's fallback when the text is empty. */
  function RequestFailure(responseText: string, fallback: string): (msg: string)
    ensures fallback != "" ==> msg != ""
    ensures responseText != "" ==> msg == responseText
  {
    if responseText == "" then fallback else responseText
  }

  /** The sign-in form's failure text: credential failures and 401s get one
      fixed text; otherwise the message itself, or a fallback when empty. */
  function LoginErrorText(msg: string): (text: string)
    ensures Contains(msg, "invalid credentials") || Contains(msg, "401") ==> text == WrongCredentials
    ensures !Contains(msg, "invalid credentials") && !Contains(msg, "401") && msg != "" ==> text == msg
    ensures msg == "" ==> text == TryLater
  {
    if Contains(msg, "invalid credentials") || Contains(msg, "401") then WrongCredentials
    else if msg != "" then msg
    else TryLater
  }

  /** The server's credential refusal is shown as the fixed text; a failed
      request never reaches the "try later" fallback, since its message is
      never empty: an empty response shows the form's own failure text. */
  lemma LoginFailureDisplay(responseText: string)
    ensures LoginErrorText(RequestFailure("invalid credentials", LoginFailed)) == WrongCredentials
    ensures var msg := RequestFailure(responseText, LoginFailed);
      LoginErrorText(msg) == WrongCredentials || LoginErrorText(msg) == msg
    ensures LoginErrorText(RequestFailure("", LoginFailed)) == LoginFailed
  {
    PrefixContained("invalid credentials", "invalid credentials");
    MissingCharNotContained(LoginFailed, "invalid credentials", 'i');
    MissingCharNotContained(LoginFailed, "401", '4');
  }

  /** The sign-up form's failure text: the server's text, or its own
      fallback when the response has none. */
  function SignupErrorText(responseText: string): (text: string)
    ensures text != ""
    ensures responseText != "" ==> text == responseText
    ensures responseText == "" ==> text == SignupFailed
  {
    RequestFailure(responseText, SignupFailed)
  }

  /** What the sign-up form sends: the three fields exactly as typed. */
  datatype Signup = Signup(username: string, email: string, password: string)

  function SignupSubmission(username: Option<string>, email: Option<string>, password: Option<string>): (s: Signup)
    ensures s.username == username.GetOr("") && s.email == email.GetOr("") && s.password == password.GetOr("")
  {
    Signup(username.GetOr(""), email.GetOr(""), password.GetOr(""))
  }
}
