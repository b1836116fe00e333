/** updateUserFull: validates the supplied fields one by one in a fixed
    order, builds the SET list with consecutive `$n` placeholders, and
    updates the row in one statement. */
module UserUpdate {
  import opened Base
  import opened Text
  import opened Foreign
  import opened Store
  import opened PasswordHash

  const InvalidId := "invalid id"
  const UsernameRequired := "username is required"
  const InvalidEmail := "invalid email"
  const InvalidRole := "invalid role"
  const PasswordTooShort := "password must be at least 8 characters"
  const NoFields := "no fields to update"
  const NotFound := "not found"
  const MinPasswordLength := 8

  /** The request body; `None` is a field that is absent, and for the
      nullable columns `Some(None)` is an explicit null. */
  datatype FullUpdateInput = FullUpdateInput(
    username: Option<string>,
    email: Option<string>,
    password: Option<string>,
    role: Option<string>,
    twoFactorEnabled: Option<bool>,
    emailVerifiedAt: Option<Option<string>>,
    lastLoginAt: Option<Option<string>>,
    lastLoginIp: Option<Option<string>>)

  /** The updatable columns. */
  datatype Field = Username | Email | Role | TwoFactorEnabled | EmailVerifiedAt | LastLoginAt | LastLoginIp | Password

  /** The order in which the fields are examined. */
  const FieldOrder: seq<Field> := [Username, Email, Role, TwoFactorEnabled, EmailVerifiedAt, LastLoginAt, LastLoginIp, Password]

  function Rank(f: Field): (n: nat)
    ensures n < |FieldOrder| && FieldOrder[n] == f
  {
    match f
    case Username => 0
    case Email => 1
    case Role => 2
    case TwoFactorEnabled => 3
    case EmailVerifiedAt => 4
    case LastLoginAt => 5
    case LastLoginIp => 6
    case Password => 7
  }

  function Column(f: Field): string {
    match f
    case Username => "username"
    case Email => "email"
    case Role => "role"
    case TwoFactorEnabled => "two_factor_enabled"
    case EmailVerifiedAt => "email_verified_at"
    case LastLoginAt => "last_login_at"
    case LastLoginIp => "last_login_ip"
    case Password => "password_hash"
  }

  /** A query argument. */
  datatype SqlValue = SqlText(text: string) | SqlBool(flag: bool) | SqlNullableText(opt: Option<string>) | SqlNumber(number: JsNumber)

  datatype Assignment = Assignment(field: Field, value: SqlValue)

  /** The argument has the type its column stores. */
  predicate WellTyped(a: Assignment) {
    match a.field
    case TwoFactorEnabled => a.value.SqlBool?
    case EmailVerifiedAt => a.value.SqlNullableText?
    case LastLoginAt => a.value.SqlNullableText?
    case LastLoginIp => a.value.SqlNullableText?
    case _ => a.value.SqlText?
  }

  /** No part of `s` is white space or `@`: the class `[^\s@]`. */
  predicate NoSpaceOrAt(s: string) {
    forall i :: 0 <= i < |s| ==> !IsJsSpace(s[i]) && s[i] != '@'
  }

  /** `v` is `local@domain.tld` with the `@` at `at` and the last dot split
      at `dot`, each part non-empty and drawn from `[^\s@]`. */
  predicate EmailSplit(v: string, at: int, dot: int) {
    0 < at && at + 1 < dot && dot + 1 < |v| && v[at] == '@' && v[dot] == '.'
    && NoSpaceOrAt(v[..at]) && NoSpaceOrAt(v[at + 1..dot]) && NoSpaceOrAt(v[dot + 1..])
  }

  /** `/^[^\s@]+@[^\s@]+\.[^\s@]+$/.test(v)` */
  predicate EmailPattern(v: string) {
    exists at, dot | 0 <= at < |v| && 0 <= dot < |v| :: EmailSplit(v, at, dot)
  }

  /** A matching address holds exactly one `@`, which is not its first
      character, holds no white space, and is at least five characters long. */
  lemma EmailPatternShape(v: string)
    requires EmailPattern(v)
    ensures |v| >= 5
    ensures forall i :: 0 <= i < |v| ==> !IsJsSpace(v[i])
    ensures exists at :: 0 < at < |v| && v[at] == '@' && forall i :: 0 <= i < |v| && v[i] == '@' ==> i == at
  {
    var at, dot :| 0 <= at < |v| && 0 <= dot < |v| && EmailSplit(v, at, dot);
    forall i | 0 <= i < |v|
      ensures !IsJsSpace(v[i]) && (v[i] == '@' ==> i == at)
    {
      if i < at {
        assert v[i] == v[..at][i];
      } else if at < i < dot {
        assert v[i] == v[at + 1..dot][i - at - 1];
      } else if dot < i {
        assert v[i] == v[dot + 1..][i - dot - 1];
      }
    }
  }

  /** An address with white space, or with no `@`, is refused. */
  lemma EmailPatternRejects(v: string)
    requires (exists i :: 0 <= i < |v| && IsJsSpace(v[i])) || '@' !in v
    ensures !EmailPattern(v)
  {
    if EmailPattern(v) {
      EmailPatternShape(v);
    }
  }

  /** The field is present in the request body. */
  predicate Supplied(f: Field, input: FullUpdateInput) {
    match f
    case Username => input.username.Some?
    case Email => input.email.Some?
    case Role => input.role.Some?
    case TwoFactorEnabled => input.twoFactorEnabled.Some?
    case EmailVerifiedAt => input.emailVerifiedAt.Some?
    case LastLoginAt => input.lastLoginAt.Some?
    case LastLoginIp => input.lastLoginIp.Some?
    case Password => input.password.Some?
  }

  /** The examination of one field: `None` when it is absent, otherwise the
      normalised argument or the message that rejects it. `hash` is the
      encoding the supplied password would be stored under. */
  function FieldStep(f: Field, input: FullUpdateInput, hash: string): (r: Option<Result<SqlValue>>)
    ensures r.Some? && r.value.Ok? ==> WellTyped(Assignment(f, r.value.value))
  {
    match f
    case Username =>
      if input.username.None? then None
      else
        var v := Trim(input.username.value);
        Some(if v == "" then Err(UsernameRequired) else Ok(SqlText(v)))
    case Email =>
      if input.email.None? then None
      else
        var v := Lower(Trim(input.email.value));
        Some(if !EmailPattern(v) then Err(InvalidEmail) else Ok(SqlText(v)))
    case Role =>
      if input.role.None? then None
      else
        var v := Lower(input.role.value);
        Some(if v != "user" && v != "admin" then Err(InvalidRole) else Ok(SqlText(v)))
    case TwoFactorEnabled =>
      if input.twoFactorEnabled.None? then None else Some(Ok(SqlBool(input.twoFactorEnabled.value)))
    case EmailVerifiedAt =>
      if input.emailVerifiedAt.None? then None else Some(Ok(SqlNullableText(input.emailVerifiedAt.value)))
    case LastLoginAt =>
      if input.lastLoginAt.None? then None else Some(Ok(SqlNullableText(input.lastLoginAt.value)))
    case LastLoginIp =>
      if input.lastLoginIp.None? then None else Some(Ok(SqlNullableText(input.lastLoginIp.value)))
    case Password =>
      if input.password.None? then None
      else Some(if JsLength(input.password.value) < MinPasswordLength then Err(PasswordTooShort) else Ok(SqlText(hash)))
  }

  /** What examining each field decides: an absent field is skipped; a
      username is refused when blank and stored trimmed; an email is stored
      trimmed and lower-cased and only when it matches the address pattern;
      a role is stored lower-cased and must be "user" or "admin"; the flag
      and the nullable columns are never refused; a password is refused
      below eight UTF-16 units and is otherwise replaced by its hash. */
  lemma FieldStepMeaning(f: Field, input: FullUpdateInput, hash: string)
    ensures var r := FieldStep(f, input, hash);
      && (r.None? <==> !Supplied(f, input))
      && (f == Username && r.Some? ==> (r.value.Ok? <==> !AllSpace(input.username.value)))
      && (f == Username && r.Some? && r.value.Ok? ==> r.value.value == SqlText(Trim(input.username.value)))
      && (f == Email && r.Some? ==> (r.value.Ok? <==> EmailPattern(Lower(Trim(input.email.value)))))
      && (f == Email && r.Some? && r.value.Ok? ==> r.value.value == SqlText(Lower(Trim(input.email.value))))
      && (f == Role && r.Some? ==> (r.value.Ok? <==> Lower(input.role.value) in {"user", "admin"}))
      && (f == Role && r.Some? && r.value.Ok? ==> r.value.value.text in {"user", "admin"})
      && (f !in {Username, Email, Role, Password} ==> !Fails(f, input, hash))
      && (f == Password && r.Some? ==> (r.value.Ok? <==> JsLength(input.password.value) >= MinPasswordLength))
      && (f == Password && r.Some? && r.value.Ok? ==> r.value.value == SqlText(hash))
      && (r.Some? && r.value.Err? ==> r.value.msg in {UsernameRequired, InvalidEmail, InvalidRole, PasswordTooShort})
  {
  }

  /** The encoding a supplied password is re-hashed to, with the given salt:
      the same encoder registration uses. */
  function NewHash(p: Primitives, input: FullUpdateInput, salt: seq<byte>): string
    requires |salt| == SaltLength
  {
    EncodeAsWritten(p, input.password.GetOr(""), salt)
  }

  predicate Fails(f: Field, input: FullUpdateInput, hash: string) {
    FieldStep(f, input, hash).Some? && FieldStep(f, input, hash).value.Err?
  }

  /** The assignments the supplied fields in `fs` produce, in order, or the
      first field's rejection. */
  function Plan(fs: seq<Field>, input: FullUpdateInput, hash: string): (r: Result<seq<Assignment>>)
    ensures r.Ok? ==> forall i :: 0 <= i < |r.value| ==> WellTyped(r.value[i]) && r.value[i].field in fs
    ensures r.Ok? ==> |r.value| <= |fs|
  {
    if fs == [] then Ok([])
    else
      match FieldStep(fs[0], input, hash)
      case None => Plan(fs[1..], input, hash)
      case Some(Err(m)) => Err(m)
      case Some(Ok(v)) =>
        match Plan(fs[1..], input, hash)
        case Err(m) => Err(m)
        case Ok(rest) => Ok([Assignment(fs[0], v)] + rest)
  }

  predicate Ascending(fs: seq<Field>) {
    forall i, j :: 0 <= i < j < |fs| ==> Rank(fs[i]) < Rank(fs[j])
  }

  /** The assignments follow the field order, so each column is set at most once. */
  lemma {:induction false} PlanInFieldOrder(fs: seq<Field>, input: FullUpdateInput, hash: string)
    requires Ascending(fs)
    ensures var r := Plan(fs, input, hash);
      r.Ok? ==> forall i, j :: 0 <= i < j < |r.value| ==> Rank(r.value[i].field) < Rank(r.value[j].field)
  {
    if fs != [] {
      assert Ascending(fs[1..]) by {
        forall i, j | 0 <= i < j < |fs[1..]| ensures Rank(fs[1..][i]) < Rank(fs[1..][j]) {
          assert fs[1..][i] == fs[i + 1] && fs[1..][j] == fs[j + 1];
        }
      }
      PlanInFieldOrder(fs[1..], input, hash);
      var r := Plan(fs, input, hash);
      if r.Ok? && FieldStep(fs[0], input, hash).Some? {
        var rest := Plan(fs[1..], input, hash).value;
        assert r.value == [Assignment(fs[0], FieldStep(fs[0], input, hash).value.value)] + rest;
        forall j | 0 < j < |r.value| ensures Rank(fs[0]) < Rank(r.value[j].field) {
          assert r.value[j] == rest[j - 1];
          var k :| 0 <= k < |fs[1..]| && fs[1..][k] == rest[j - 1].field;
          assert fs[1..][k] == fs[k + 1];
        }
      }
    }
  }

  /** What a field adds to the SET list: its assignment when it is supplied
      and accepted, nothing otherwise. */
  function Contribution(f: Field, input: FullUpdateInput, hash: string): (c: seq<Assignment>)
    ensures |c| <= 1
  {
    match FieldStep(f, input, hash)
    case Some(Ok(v)) => [Assignment(f, v)]
    case _ => []
  }

  function Contributions(fs: seq<Field>, input: FullUpdateInput, hash: string): seq<Assignment> {
    if fs == [] then [] else Contribution(fs[0], input, hash) + Contributions(fs[1..], input, hash)
  }

  /** With no field rejected, the plan is the concatenation of what each
      field adds. */
  lemma {:induction false} PlanWithoutRejection(fs: seq<Field>, input: FullUpdateInput, hash: string)
    requires forall i :: 0 <= i < |fs| ==> !Fails(fs[i], input, hash)
    ensures Plan(fs, input, hash) == Ok(Contributions(fs, input, hash))
  {
    if fs != [] {
      assert !Fails(fs[0], input, hash);
      assert forall i :: 0 <= i < |fs[1..]| ==> !Fails(fs[1..][i], input, hash) by {
        forall i | 0 <= i < |fs[1..]| ensures !Fails(fs[1..][i], input, hash) {
          assert fs[1..][i] == fs[i + 1];
        }
      }
      PlanWithoutRejection(fs[1..], input, hash);
      match FieldStep(fs[0], input, hash)
      case None =>
        assert Contribution(fs[0], input, hash) == [];
        assert Contributions(fs, input, hash) == [] + Contributions(fs[1..], input, hash) == Contributions(fs[1..], input, hash);
        assert Plan(fs, input, hash) == Plan(fs[1..], input, hash);
      case Some(Ok(v)) =>
        assert Contribution(fs[0], input, hash) == [Assignment(fs[0], v)];
        assert Plan(fs, input, hash) == Ok([Assignment(fs[0], v)] + Contributions(fs[1..], input, hash));
    }
  }

  /** The plan is the first rejection, whatever follows it. */
  lemma {:induction false} PlanFirstRejection(fs: seq<Field>, k: nat, input: FullUpdateInput, hash: string)
    requires k < |fs| && Fails(fs[k], input, hash)
    requires forall j :: 0 <= j < k ==> !Fails(fs[j], input, hash)
    ensures Plan(fs, input, hash) == Err(FieldStep(fs[k], input, hash).value.msg)
  {
    PlanFromRejection(fs, 0, k, input, hash);
    assert fs[0..] == fs;
  }

  /** The plan of the suffix from `i` stops at the rejection at `k`. */
  lemma {:induction false} PlanFromRejection(fs: seq<Field>, i: nat, k: nat, input: FullUpdateInput, hash: string)
    requires i <= k < |fs| && Fails(fs[k], input, hash)
    requires forall j :: i <= j < k ==> !Fails(fs[j], input, hash)
    ensures Plan(fs[i..], input, hash) == Err(FieldStep(fs[k], input, hash).value.msg)
    decreases k - i
  {
    PlanHead(fs[i..], input, hash);
    assert fs[i..][0] == fs[i];
    if i < k {
      assert fs[i..][1..] == fs[i + 1..];
      assert !Fails(fs[i], input, hash);
      PlanFromRejection(fs, i + 1, k, input, hash);
    }
  }

  /** `<column> = $<n>` */
  function SetItem(f: Field, n: nat): string {
    Column(f) + " = $" + NatToString(n)
  }

  /** The SET list for a plan, placeholders numbered from 1. */
  function SetItems(plan: seq<Assignment>): (items: seq<string>)
    ensures |items| == |plan|
    ensures forall i :: 0 <= i < |plan| ==> items[i] == SetItem(plan[i].field, i + 1)
  {
    seq(|plan|, i requires 0 <= i < |plan| => SetItem(plan[i].field, i + 1))
  }

  function Values(plan: seq<Assignment>): (args: seq<SqlValue>)
    ensures |args| == |plan|
    ensures forall i :: 0 <= i < |plan| ==> args[i] == plan[i].value
  {
    seq(|plan|, i requires 0 <= i < |plan| => plan[i].value)
  }

  const UpdatedAtNow := "updated_at = now()"

  datatype Statement = Statement(sql: string, args: seq<SqlValue>)

  /** A statement together with the assignments it encodes; the store applies
      the assignments (see `ApplyPlan`). */
  datatype Update = Update(statement: Statement, assignments: seq<Assignment>)

  /** The statement a non-empty plan sends: placeholder `$i` holds the i-th
      argument, `updated_at` is always set without a placeholder, and the id
      is the last argument, `$(k+1)`. */
  function UpdateStatement(plan: seq<Assignment>, id: JsNumber): (st: Statement)
    ensures |st.args| == |plan| + 1 && st.args[|plan|] == SqlNumber(id)
  {
    Statement(
      "UPDATE users SET " + Join(SetItems(plan) + [UpdatedAtNow], ", ") + " WHERE id = $" + NatToString(|plan| + 1) + " RETURNING id",
      Values(plan) + [SqlNumber(id)])
  }

  /** The SET items and arguments built so far are those of `planned`, and
      `idx` is the next placeholder number. */
  ghost predicate Built(planned: seq<Assignment>, fields: seq<string>, args: seq<SqlValue>, idx: nat) {
    fields == SetItems(planned) && args == Values(planned) && idx == |planned| + 1
  }

  /** The outcome of the fields still to examine, after the assignments
      `planned` of those already examined. */
  function AfterPlanned(planned: seq<Assignment>, rest: Result<seq<Assignment>>): Result<seq<Assignment>> {
    match rest
    case Ok(more) => Ok(planned + more)
    case Err(m) => Err(m)
  }

  /** The statement-building part of updateUserFull: the fields are examined
      in order, each supplied one appends `<column> = $idx` and its argument
      and advances `idx`; the first rejected field ends it. */
  method BuildUpdate(p: Primitives, id: JsNumber, input: FullUpdateInput, salt: seq<byte>) returns (r: Result<Update>)
    requires |salt| == SaltLength
    ensures var plan := Plan(FieldOrder, input, NewHash(p, input, salt));
      && (plan.Err? ==> r == Err(plan.msg))
      && (plan == Ok([]) ==> r == Err(NoFields))
      && (plan.Ok? && plan.value != [] ==> r == Ok(Update(UpdateStatement(plan.value, id), plan.value)))
  {
    var fields: seq<string> := [];
    var args: seq<SqlValue> := [];
    var idx: nat := 1;
    // `planned` is the plan of the fields examined so far.
    var planned: seq<Assignment> := [];
    ghost var hash := NewHash(p, input, salt);
    AfterNothing(Plan(FieldOrder, input, hash));
    for k := 0 to |FieldOrder|
      invariant Built(planned, fields, args, idx)
      invariant Plan(FieldOrder, input, hash) == AfterPlanned(planned, Plan(FieldOrder[k..], input, hash))
    {
      var err: Option<string>;
      ghost var before := planned;
      err, fields, args, planned, idx := ExamineField(FieldOrder[k], input, p, salt, fields, args, planned, idx);
      Advance(FieldOrder[k..], before, planned, err, input, hash);
      SuffixTail(FieldOrder, k);
      if err.Some? {
        return Err(err.value);
      }
    }
    assert planned + [] == planned;
    r := FinishUpdate(id, fields, args, planned, idx);
  }

  /** The end of the statement build: no SET item means "no fields to
      update"; otherwise `updated_at` is appended and the id takes the last
      placeholder. */
  method FinishUpdate(id: JsNumber, fields: seq<string>, args: seq<SqlValue>, planned: seq<Assignment>, idx: nat)
    returns (r: Result<Update>)
    requires Built(planned, fields, args, idx)
    ensures planned == [] ==> r == Err(NoFields)
    ensures planned != [] ==> r == Ok(Update(UpdateStatement(planned, id), planned))
  {
    if |fields| == 0 {
      return Err(NoFields);
    }
    var items := fields + [UpdatedAtNow];
    var sql := "UPDATE users SET " + Join(items, ", ") + " WHERE id = $" + NatToString(idx) + " RETURNING id";
    r := Ok(Update(Statement(sql, args + [SqlNumber(id)]), planned));
  }

  /** One `if (input.<field> !== undefined) { ... }` block of updateUserFull:
      an absent field is skipped, a rejected one ends the build with its
      message, an accepted one is pushed with the next placeholder. */
  method ExamineField(f: Field, input: FullUpdateInput, p: Primitives, salt: seq<byte>,
                      fields: seq<string>, args: seq<SqlValue>, planned: seq<Assignment>, idx: nat)
    returns (err: Option<string>, fields': seq<string>, args': seq<SqlValue>, planned': seq<Assignment>, idx': nat)
    requires |salt| == SaltLength && Built(planned, fields, args, idx)
    ensures Examined(f, input, NewHash(p, input, salt), err, planned, planned')
    ensures err.None? ==> Built(planned', fields', args', idx')
  {
    fields', args', planned', idx' := fields, args, planned, idx;
    err := None;
    match f
    case Username =>
      err, fields', args', planned', idx' := ExamineUsername(input, NewHash(p, input, salt), fields, args, planned, idx);
    case Email =>
      err, fields', args', planned', idx' := ExamineEmail(input, NewHash(p, input, salt), fields, args, planned, idx);
    case Role =>
      err, fields', args', planned', idx' := ExamineRole(input, NewHash(p, input, salt), fields, args, planned, idx);
    case TwoFactorEnabled =>
      fields', args', planned', idx' := ExamineUnchecked(f, input, NewHash(p, input, salt), fields, args, planned, idx);
    case EmailVerifiedAt =>
      fields', args', planned', idx' := ExamineUnchecked(f, input, NewHash(p, input, salt), fields, args, planned, idx);
    case LastLoginAt =>
      fields', args', planned', idx' := ExamineUnchecked(f, input, NewHash(p, input, salt), fields, args, planned, idx);
    case LastLoginIp =>
      fields', args', planned', idx' := ExamineUnchecked(f, input, NewHash(p, input, salt), fields, args, planned, idx);
    case Password =>
      err, fields', args', planned', idx' := ExaminePassword(input, p, salt, fields, args, planned, idx);
  }

  /** The blocks of the flag and the nullable columns: never refused, pushed
      as given when supplied. */
  method ExamineUnchecked(f: Field, input: FullUpdateInput, ghost hash: string,
                          fields: seq<string>, args: seq<SqlValue>, planned: seq<Assignment>, idx: nat)
    returns (fields': seq<string>, args': seq<SqlValue>, planned': seq<Assignment>, idx': nat)
    requires f in {TwoFactorEnabled, EmailVerifiedAt, LastLoginAt, LastLoginIp}
    requires Built(planned, fields, args, idx)
    ensures Examined(f, input, hash, None, planned, planned')
    ensures Built(planned', fields', args', idx')
  {
    fields', args', planned', idx' := fields, args, planned, idx;
    var v: Option<SqlValue> := match f
      case TwoFactorEnabled => if input.twoFactorEnabled.Some? then Some(SqlBool(input.twoFactorEnabled.value)) else None
      case EmailVerifiedAt => if input.emailVerifiedAt.Some? then Some(SqlNullableText(input.emailVerifiedAt.value)) else None
      case LastLoginAt => if input.lastLoginAt.Some? then Some(SqlNullableText(input.lastLoginAt.value)) else None
      case LastLoginIp => if input.lastLoginIp.Some? then Some(SqlNullableText(input.lastLoginIp.value)) else None
      case _ => None;
    if v.Some? {
      fields', args', planned' := Push(fields, args, planned, idx, f, v.value);
      idx' := idx + 1;
    }
  }

  /** The username block: refused when blank, stored trimmed. */
  method ExamineUsername(input: FullUpdateInput, ghost hash: string,
                         fields: seq<string>, args: seq<SqlValue>, planned: seq<Assignment>, idx: nat)
    returns (err: Option<string>, fields': seq<string>, args': seq<SqlValue>, planned': seq<Assignment>, idx': nat)
    requires Built(planned, fields, args, idx)
    ensures Examined(Username, input, hash, err, planned, planned')
    ensures err.None? ==> Built(planned', fields', args', idx')
  {
    fields', args', planned', idx' := fields, args, planned, idx;
    err := None;
    if input.username.Some? {
      var v := Trim(input.username.value);
      if v == "" {
        err := Some(UsernameRequired);
      } else {
        fields', args', planned' := Push(fields, args, planned, idx, Username, SqlText(v));
        idx' := idx + 1;
      }
    }
  }

  /** The email block: trimmed and lower-cased, refused unless it matches
      the address pattern. */
  method ExamineEmail(input: FullUpdateInput, ghost hash: string,
                      fields: seq<string>, args: seq<SqlValue>, planned: seq<Assignment>, idx: nat)
    returns (err: Option<string>, fields': seq<string>, args': seq<SqlValue>, planned': seq<Assignment>, idx': nat)
    requires Built(planned, fields, args, idx)
    ensures Examined(Email, input, hash, err, planned, planned')
    ensures err.None? ==> Built(planned', fields', args', idx')
  {
    fields', args', planned', idx' := fields, args, planned, idx;
    err := None;
    if input.email.Some? {
      var v := Lower(Trim(input.email.value));
      if !EmailPattern(v) {
        err := Some(InvalidEmail);
      } else {
        fields', args', planned' := Push(fields, args, planned, idx, Email, SqlText(v));
        idx' := idx + 1;
      }
    }
  }

  /** The role block: lower-cased, refused unless "user" or "admin". */
  method ExamineRole(input: FullUpdateInput, ghost hash: string,
                     fields: seq<string>, args: seq<SqlValue>, planned: seq<Assignment>, idx: nat)
    returns (err: Option<string>, fields': seq<string>, args': seq<SqlValue>, planned': seq<Assignment>, idx': nat)
    requires Built(planned, fields, args, idx)
    ensures Examined(Role, input, hash, err, planned, planned')
    ensures err.None? ==> Built(planned', fields', args', idx')
  {
    fields', args', planned', idx' := fields, args, planned, idx;
    err := None;
    if input.role.Some? {
      var v := Lower(input.role.value);
      if v != "user" && v != "admin" {
        err := Some(InvalidRole);
      } else {
        fields', args', planned' := Push(fields, args, planned, idx, Role, SqlText(v));
        idx' := idx + 1;
      }
    }
  }

  /** The password block: refused below eight UTF-16 units, otherwise
      re-hashed with `salt`. */
  method ExaminePassword(input: FullUpdateInput, p: Primitives, salt: seq<byte>,
                         fields: seq<string>, args: seq<SqlValue>, planned: seq<Assignment>, idx: nat)
    returns (err: Option<string>, fields': seq<string>, args': seq<SqlValue>, planned': seq<Assignment>, idx': nat)
    requires |salt| == SaltLength && Built(planned, fields, args, idx)
    ensures Examined(Password, input, NewHash(p, input, salt), err, planned, planned')
    ensures err.None? ==> Built(planned', fields', args', idx')
  {
    fields', args', planned', idx' := fields, args, planned, idx;
    err := None;
    if input.password.Some? {
      var pwd := input.password.value;
      if JsLength(pwd) < MinPasswordLength {
        err := Some(PasswordTooShort);
      } else {
        fields', args', planned' := Push(fields, args, planned, idx, Password, SqlText(EncodeAsWritten(p, pwd, salt)));
        idx' := idx + 1;
      }
    }
  }

  /** The outcome of examining field `f`: its rejection message, or its
      contribution appended to the plan. */
  ghost predicate Examined(f: Field, input: FullUpdateInput, hash: string, err: Option<string>,
                           planned: seq<Assignment>, planned': seq<Assignment>) {
    (err.Some? <==> Fails(f, input, hash))
    && (err.Some? ==> err.value == FieldStep(f, input, hash).value.msg)
    && (err.None? ==> planned' == planned + Contribution(f, input, hash))
  }

  /** Examining the first of the fields `fs` moves one field on: a rejection
      is the outcome of all of them, an acceptance leaves the outcome of the
      rest unchanged once the new assignment is planned. */
  lemma Advance(fs: seq<Field>, planned: seq<Assignment>, planned': seq<Assignment>, err: Option<string>, input: FullUpdateInput, hash: string)
    requires fs != [] && Examined(fs[0], input, hash, err, planned, planned')
    ensures err.Some? ==> Plan(fs, input, hash) == Err(err.value)
    ensures err.None? ==> AfterPlanned(planned, Plan(fs, input, hash)) == AfterPlanned(planned', Plan(fs[1..], input, hash))
  {
    PlanHead(fs, input, hash);
    var step := FieldStep(fs[0], input, hash);
    if step.Some? && step.value.Ok? {
      var v := step.value.value;
      assert planned' == planned + [Assignment(fs[0], v)];
      if Plan(fs[1..], input, hash).Ok? {
        var more := Plan(fs[1..], input, hash).value;
        ConcatAssociative(planned, [Assignment(fs[0], v)], more);
      }
    } else if step.None? {
      assert planned' == planned + [] == planned;
    }
  }

  /** One step of `Plan`: the first field's step decides, then the rest. */
  lemma PlanHead(fs: seq<Field>, input: FullUpdateInput, hash: string)
    requires fs != []
    ensures var step := FieldStep(fs[0], input, hash);
      && (step.None? ==> Plan(fs, input, hash) == Plan(fs[1..], input, hash))
      && (step.Some? && step.value.Err? ==> Plan(fs, input, hash) == Err(step.value.msg))
      && (step.Some? && step.value.Ok? && Plan(fs[1..], input, hash).Err? ==> Plan(fs, input, hash) == Plan(fs[1..], input, hash))
      && (step.Some? && step.value.Ok? && Plan(fs[1..], input, hash).Ok? ==>
            Plan(fs, input, hash) == Ok([Assignment(fs[0], step.value.value)] + Plan(fs[1..], input, hash).value))
  {
  }

  lemma AfterNothing(r: Result<seq<Assignment>>)
    ensures AfterPlanned([], r) == r
  {
    if r.Ok? {
      assert [] + r.value == r.value;
    }
  }

  /** `fields.push(\`<column> = $${idx++}\`); args.push(v)` */
  method Push(fields: seq<string>, args: seq<SqlValue>, planned: seq<Assignment>, idx: nat, f: Field, v: SqlValue)
    returns (fields': seq<string>, args': seq<SqlValue>, planned': seq<Assignment>)
    requires Built(planned, fields, args, idx)
    ensures planned' == planned + [Assignment(f, v)]
    ensures Built(planned', fields', args', idx + 1)
    ensures fields' == fields + [SetItem(f, idx)] && args' == args + [v]
  {
    fields', args' := fields + [SetItem(f, idx)], args + [v];
    planned' := planned + [Assignment(f, v)];
  }

  /** The value a column of the row holds, as a query argument. */
  function ReadColumn(u: User, f: Field): (v: SqlValue)
    ensures WellTyped(Assignment(f, v))
  {
    match f
    case Username => SqlText(u.username)
    case Email => SqlText(u.email)
    case Role => SqlText(u.role)
    case TwoFactorEnabled => SqlBool(u.twoFactorEnabled)
    case EmailVerifiedAt => SqlNullableText(u.emailVerifiedAt)
    case LastLoginAt => SqlNullableText(u.lastLoginAt)
    case LastLoginIp => SqlNullableText(u.lastLoginIp)
    case Password => SqlText(u.passwordHash)
  }

  /** One `<column> = $n` of the SET list applied to the row. */
  function SetColumn(u: User, a: Assignment): (u': User)
    requires WellTyped(a)
    ensures ReadColumn(u', a.field) == a.value
    ensures forall g :: g != a.field ==> ReadColumn(u', g) == ReadColumn(u, g)
    ensures u'.id == u.id && u'.uuid == u.uuid && u'.createdAt == u.createdAt && u'.updatedAt == u.updatedAt
  {
    match a.field
    case Username => u.(username := a.value.text)
    case Email => u.(email := a.value.text)
    case Role => u.(role := a.value.text)
    case TwoFactorEnabled => u.(twoFactorEnabled := a.value.flag)
    case EmailVerifiedAt => u.(emailVerifiedAt := a.value.opt)
    case LastLoginAt => u.(lastLoginAt := a.value.opt)
    case LastLoginIp => u.(lastLoginIp := a.value.opt)
    case Password => u.(passwordHash := a.value.text)
  }

  predicate AllWellTyped(plan: seq<Assignment>) {
    forall i :: 0 <= i < |plan| ==> WellTyped(plan[i])
  }

  /** The SET list applied to the row, left to right. */
  function ApplyPlan(u: User, plan: seq<Assignment>): User
    requires AllWellTyped(plan)
    decreases |plan|
  {
    if plan == [] then u else ApplyPlan(SetColumn(u, plan[0]), plan[1..])
  }

  /** No column is assigned twice. */
  predicate DistinctFields(plan: seq<Assignment>) {
    forall i, j :: 0 <= i < j < |plan| ==> plan[i].field != plan[j].field
  }

  /** After the update an assigned column holds its argument, every other
      column keeps its value, and the id, uuid and timestamps are untouched. */
  lemma {:induction false} ApplyPlanColumns(u: User, plan: seq<Assignment>, g: Field)
    requires AllWellTyped(plan) && DistinctFields(plan)
    ensures forall i :: 0 <= i < |plan| && plan[i].field == g ==> ReadColumn(ApplyPlan(u, plan), g) == plan[i].value
    ensures (forall i :: 0 <= i < |plan| ==> plan[i].field != g) ==> ReadColumn(ApplyPlan(u, plan), g) == ReadColumn(u, g)
    ensures var u' := ApplyPlan(u, plan);
      u'.id == u.id && u'.uuid == u.uuid && u'.createdAt == u.createdAt && u'.updatedAt == u.updatedAt
    decreases |plan|
  {
    if plan != [] {
      var rest := plan[1..];
      assert AllWellTyped(rest) by {
        forall i | 0 <= i < |rest| ensures WellTyped(rest[i]) {
          assert rest[i] == plan[i + 1];
        }
      }
      assert DistinctFields(rest) by {
        forall i, j | 0 <= i < j < |rest| ensures rest[i].field != rest[j].field {
          assert rest[i] == plan[i + 1] && rest[j] == plan[j + 1];
        }
      }
      ApplyPlanColumns(SetColumn(u, plan[0]), rest, g);
      forall i | 0 <= i < |plan| && plan[i].field == g
        ensures ReadColumn(ApplyPlan(u, plan), g) == plan[i].value
      {
        if i == 0 {
          forall j | 0 <= j < |rest| ensures rest[j].field != g {
            assert rest[j] == plan[j + 1];
          }
        } else {
          assert rest[i - 1] == plan[i];
        }
      }
      if forall i :: 0 <= i < |plan| ==> plan[i].field != g {
        forall j | 0 <= j < |rest| ensures rest[j].field != g {
          assert rest[j] == plan[j + 1];
        }
      }
    }
  }

  /** A successful plan assigns each column at most once, with arguments of
      the column's type. */
  lemma PlanIsApplicable(input: FullUpdateInput, hash: string)
    requires Plan(FieldOrder, input, hash).Ok?
    ensures AllWellTyped(Plan(FieldOrder, input, hash).value)
    ensures DistinctFields(Plan(FieldOrder, input, hash).value)
  {
    FieldOrderAscending();
    PlanInFieldOrder(FieldOrder, input, hash);
  }

  /** Each field's rank is its position in the field order. */
  lemma FieldOrderAscending()
    ensures Ascending(FieldOrder)
  {
    assert forall i | 0 <= i < |FieldOrder| :: Rank(FieldOrder[i]) == i;
  }

  /** The row after a successful update: the SET list applied, then
      `updated_at = now()`. */
  function UpdatedRow(u: User, plan: seq<Assignment>, now: int): User
    requires AllWellTyped(plan)
  {
    ApplyPlan(u, plan).(updatedAt := now)
  }

  /** The outcome of updateUserFull on table `users`: the id check, then the
      fields, then the store's own failure, then the row lookup. */
  function UpdateOutcome(users: map<int, User>, p: Primitives, id: JsNumber, input: FullUpdateInput, salt: seq<byte>,
                         fault: Option<StoreError>): Result<int>
    requires |salt| == SaltLength
  {
    if !id.IsPositiveFinite() then Err(InvalidId)
    else
      match Plan(FieldOrder, input, NewHash(p, input, salt))
      case Err(m) => Err(m)
      case Ok(plan) =>
        if plan == [] then Err(NoFields)
        else if fault.Some? then Err(fault.value.message)
        else if id.AsRowId().Some? && id.AsRowId().value in users then Ok(id.AsRowId().value)
        else Err(NotFound)
  }

  /** Validation is decided before the statement runs: an invalid id or a
      rejected field gives the same outcome whatever the table holds and
      whatever the store would report. */
  lemma ValidationBeforeStore(users: map<int, User>, users': map<int, User>, p: Primitives, id: JsNumber,
                              input: FullUpdateInput, salt: seq<byte>, fault: Option<StoreError>, fault': Option<StoreError>)
    requires |salt| == SaltLength
    requires !id.IsPositiveFinite() || !Plan(FieldOrder, input, NewHash(p, input, salt)).Ok?
    ensures UpdateOutcome(users, p, id, input, salt, fault) == UpdateOutcome(users', p, id, input, salt, fault')
    ensures UpdateOutcome(users, p, id, input, salt, fault).Err?
  {
  }

  /** updateUserFull, with the salt drawn and the clock read by the caller and
      `fault` the failure the store reports for the statement, if any (a
      username or email already taken, a lost connection). The id is checked
      first, then the fields in order; a statement that matches no row is
      "not found". Every failure leaves the table unchanged. */
  method UpdateUserFull(db: UserStore, p: Primitives, id: JsNumber, input: FullUpdateInput, salt: seq<byte>, now: int, fault: Option<StoreError>)
    returns (r: Result<int>)
    requires db.Valid() && |salt| == SaltLength
    modifies db`users
    ensures db.Valid()
    ensures r == UpdateOutcome(old(db.users), p, id, input, salt, fault)
    ensures r.Err? ==> db.users == old(db.users)
    ensures !id.IsPositiveFinite() ==> r == Err(InvalidId)
    ensures var plan := Plan(FieldOrder, input, NewHash(p, input, salt));
      && (id.IsPositiveFinite() && plan.Err? ==> r == Err(plan.msg))
      && (id.IsPositiveFinite() && plan == Ok([]) ==> r == Err(NoFields))
      && (id.IsPositiveFinite() && plan.Ok? && plan.value != [] && fault.Some? ==> r == Err(fault.value.message))
      && ((id.IsPositiveFinite() && plan.Ok? && plan.value != [] && fault.None?
           && (id.AsRowId().None? || id.AsRowId().value !in old(db.users))) ==> r == Err(NotFound))
      && (r.Ok? <==> (id.IsPositiveFinite() && plan.Ok? && plan.value != [] && fault.None? && id.AsRowId().Some?
          && id.AsRowId().value in old(db.users)))
    ensures r.Ok? ==> (
      var plan := Plan(FieldOrder, input, NewHash(p, input, salt)).value;
      && AllWellTyped(plan)
      && id.AsRowId() == Some(r.value)
      && db.users == old(db.users)[r.value := UpdatedRow(old(db.users)[r.value], plan, now)])
  {
    if !id.IsPositiveFinite() {
      return Err(InvalidId);
    }
    var built := BuildUpdate(p, id, input, salt);
    ghost var plan := Plan(FieldOrder, input, NewHash(p, input, salt));
    if built.Err? {
      return Err(built.msg);
    }
    assert plan == Ok(built.value.assignments) && plan.value != [];
    PlanIsApplicable(input, NewHash(p, input, salt));
    if fault.Some? {
      return Err(fault.value.message);
    }
    // `WHERE id = $n`: a fractional id matches no integer key.
    var key := id.AsRowId();
    if key.None? || key.value !in db.users {
      return Err(NotFound);
    }
    var row := db.users[key.value];
    ApplyPlanColumns(row, built.value.assignments, Username);
    db.ReplaceUser(UpdatedRow(row, built.value.assignments, now));
    r := Ok(key.value);
  }
}
