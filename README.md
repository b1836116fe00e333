# Postely Core: accounts, tokens and migrations in Dafny

This project models the account core of the Postely service:

- the user logic: login, refresh-token exchange, refresh-token login, registration, full update, delete and paged listing;
- the admin-guarded HTTP handlers for PUT, DELETE and GET on a single user, and the login, token and registration handlers;
- the migration runner of the database wrapper;
- the field validators and submit-time behaviour of the web client's sign-in and sign-up forms.

The model follows the form of each source file:

- Pure logic becomes functions and lemmas. This covers message-to-status mapping, bearer extraction, the admin guard, validators, the hash format and the listing.
- State changes are methods on classes:
  - `Store.UserStore` holds the `users` and `access_tokens` tables as maps.
  - `Migrations.MigrationStore` holds `schema_migrations`, the committed scripts and the pool's checked-out clients.
- The field-by-field SET-list builder of `updateUserFull` and the loop of `runMigrations` are methods with loops. Each is proved against a specification function (`UserUpdate.Plan`, `Migrations.Run`), and the properties are proved about that function.

Foreign code is a value of `Foreign.Primitives` that every operation takes as a parameter: scrypt, base64, UTF-8, NFKC, SHA-256, JWT sign/verify and `Number()`. Nothing is assumed of it, except where a lemma states the codec's laws (`Foreign.Base64Laws`, `Foreign.ScryptLaws`) as a hypothesis.

Other inputs are parameters too:

- the clock (`now`, in milliseconds);
- random salts and uuids;
- a store failure (`fault: Option<StoreError>`);
- the migration directory listing, file contents and script failures.

## Model

| member | source | states |
|---|---|---|
| Text.TrimStart | src/logic/users/login.ts:26 | the result is a suffix of the input, the removed prefix is all JS white space, and the result does not start with white space |
| Text.TrimEnd | src/logic/users/login.ts:26 | the result is a prefix of the input, the removed suffix is all white space, and the result does not end with white space |
| Text.Trim | src/logic/users/login.ts:26 | `trim`: the result is a slice of the input with only white space before and after it, and neither end of the result is white space; it is empty iff the input is all white space |
| Text.TrimSlice | src/logic/users/login.ts:26 | trimming the start and then the end leaves the slice of the input between its leading and trailing white-space runs, and nothing exactly when the input is all white space |
| Text.Lower | src/logic/users/login.ts:27 | `toLowerCase` keeps the length and maps each ASCII capital to its small letter, leaving every other character alone |
| Text.LowerIdempotent | src/logic/users/register.ts:23 | lower-casing twice equals lower-casing once |
| Text.ContainsIffOccurs | src/http/users/put.ts:36 | `includes` holds exactly when the pattern occurs at some position |
| Text.MissingCharNotContained | src/http/users/put.ts:36-37 | a string lacking one character of the pattern does not include the pattern |
| Text.JsLength | src/logic/users/register.ts:27 | `length` counts UTF-16 units: at least the number of code points, at most twice it |
| Text.NatToStringRoundTrip | src/logic/users/login.ts:59 | reading back `String(n)` gives `n` |
| Text.Split | src/logic/users/login.ts:132 | `split("$")` gives at least one part, and no part contains the separator |
| Text.JoinSplit | src/logic/users/login.ts:132 | joining the parts of a split with the separator gives back the original string |
| Tokens.MinutesFromNow | src/logic/users/login.ts:180-182 | the time m minutes from now lies exactly m · 60000 milliseconds after now, so a non-negative m is not before now |
| Tokens.ClaimsByType | src/logic/users/login.ts:58-67 | access and refresh claims share subject and uuid but differ in type, and only access claims carry username and email; the exchanged access claims keep the refresh subject |
| Tokens.VerifiedRefresh | src/logic/users/login.ts:82-83 | a token is accepted as a refresh token iff it verifies and its type is "rt" |
| Tokens.IndexAccessToken | src/logic/users/login.ts:166-178 | the SHA-256 hex of the token maps to (user, expiry) and every other index row is unchanged; a store failure changes nothing and reports its message |
| Store.UserStore.UpsertAccessToken | src/logic/users/login.ts:172-177 | ON CONFLICT DO UPDATE: the row under the hash is replaced or created and the rest of the index is untouched |
| Store.UserStore.InsertUser | src/logic/users/register.ts:33-39 | the new row gets the next id, which was unused, the default role and no flags; every other row is kept |
| Store.UserStore.SkipId | src/logic/users/register.ts:33-43 | an INSERT refused by a unique constraint still uses up the sequence value its id default drew; the table is untouched |
| Store.UserStore.ReplaceUser | src/logic/users/update_full.ts:72-75 | only the addressed row changes |
| Store.UserStore.DeleteUser | src/logic/users/remove.ts:5-6 | the row count is 1 iff the id was present, and exactly that key is removed |
| PasswordHash.Parse | src/logic/users/login.ts:132-138 | the stored value is refused iff its `$`-split is not three parts headed `scrypt`; otherwise it is exactly `scrypt$salt$key` with `$`-free fields |
| PasswordHash.EncodeParse | src/logic/users/register.ts:31 | parsing `scrypt$salt$key` with `$`-free fields gives back the two fields |
| PasswordHash.Base64HasNoSeparator | src/logic/users/register.ts:29-31 | base64 text never contains `$` |
| PasswordHash.VerifyPassword | src/logic/users/login.ts:130-154 | a malformed value fails with bad_hash_format before any derivation; a well-formed value whose derived key does not match fails with password_mismatch |
| PasswordHash.VerifyPasswordAccepts | src/logic/users/login.ts:130-154 | verification succeeds iff the value parses and scrypt over trim(NFKC(password)), the decoded salt and the decoded key's length equals the decoded key |
| PasswordHash.VerifyFailuresAreCredentialErrors | src/logic/users/login.ts:137-152 | every verification failure contains "invalid credentials" |
| PasswordHash.MalformedIgnoresPrimitives | src/logic/users/login.ts:132-138 | a malformed stored value is refused whatever the primitives and the password are, so no key derivation takes part |
| PasswordHash.EncodeAsWrittenParses | src/logic/users/register.ts:29-31 | the value the registration encoder stores parses, and its salt field decodes to the salt bytes |
| PasswordHash.AsWrittenVerifiesOnlyOnCollision | src/logic/users/register.ts:29-30 | a password stored by the registration encoder verifies only if scrypt(normalised password, salt bytes) equals scrypt(raw password, salt text) |
| PasswordHash.RegisteredPasswordRejected | src/logic/users/register.ts:29-30 | with a lawful base64 codec and a length-respecting key function, "secret1" stored by the registration encoder is refused by login |
| PasswordHash.HashPasswordFormat | src/logic/users/register.ts:29-31 | the corrected encoder's value parses into a 16-byte salt and a 64-byte key |
| PasswordHash.VerifyAfterHash | src/logic/users/login.ts:139-153 | a password verifies against the corrected encoder's hash of it |
| PasswordHash.VerifyUpToNormalization | src/logic/users/login.ts:141 | any candidate with the same trimmed NFKC form verifies against that hash |
| LoginFlow.NormalizeIdentifier | src/logic/users/login.ts:26-27 | the trimmed identifier, lower-cased only when it holds `@`; it is empty iff the input is blank |
| LoginFlow.Authenticate | src/logic/users/login.ts:32-55 | no row matching username or lower-cased email gives user_not_found; a password every matching row accepts succeeds; success names a matching row whose hash accepts the password; any other failure is the verdict of a matching row's verification, and every failure contains "invalid credentials" |
| LoginFlow.LoginChecked | src/logic/users/login.ts:32-77 | with both inputs present: a password every matching row accepts succeeds, or fails with the store's message; without a store error a failure is a matching row's verdict or user_not_found, and contains "invalid credentials"; success is a matching row whose hash accepts the password, its two tokens, and the access token indexed for 15 minutes; a failure indexes nothing |
| LoginFlow.Login | src/logic/users/login.ts:25-77 | identifier checked before password; an unknown user gives user_not_found; correct credentials (every matching row accepts the password) succeed unless the index write fails; otherwise a failure is a matching row's verdict and contains "invalid credentials"; success is a matching row whose hash accepts the password, its two tokens, and the access token indexed for 15 minutes; a failure indexes nothing |
| LoginFlow.ExchangeAccessToken | src/logic/users/login.ts:79-94 | succeeds iff the token verifies with type "rt", its subject is an integer and the index write succeeds; every failure is "invalid refresh token" and indexes nothing; the new token carries only sub, uid and "at" |
| LoginFlow.RefreshSubject | src/logic/users/login.ts:100-114 | a result is the row `users[Number(sub)]` of a verified refresh token whose subject is finite and positive; conversely every verified refresh token whose positive integral subject is an existing id gives that row |
| LoginFlow.LoginWithRefreshToken | src/logic/users/login.ts:97-128 | no password check: no subject user gives "invalid refresh token"; otherwise a fresh access token for that user is indexed and the presented refresh token is returned unchanged |
| Registration.CheckRegistration | src/logic/users/register.ts:22-27 | checks username, then email, then a password of at least 6 UTF-16 units; the first failure decides the message (a blank username gives UsernameRequired, else a blank email EmailRequired, else a password under 6 units PasswordTooShort); accepted values are the trimmed username, the trimmed lower-cased email and the raw password |
| Registration.AcceptedRegistrationIsNormal | src/logic/users/register.ts:22-27 | an accepted username has no surrounding white space, the email has no ASCII capitals, neither is empty, and the password has at least 6 UTF-16 units |
| Registration.InsertFailure | src/logic/users/register.ts:40-46 | code 23505 becomes "username or email already exists"; any other store error keeps its message |
| Registration.InsertRegistration | src/logic/users/register.ts:33-46 | a store error stores no row and gives its message, with 23505 turned into the duplicate message; a unique violation still advances the id sequence by one; otherwise the row gets the next id, the default role, no flags and the as-written hash |
| Registration.RegisterUser | src/logic/users/register.ts:21-47 | a validation error or a failed insert leaves the table unchanged; a validation error leaves the id sequence alone, while an insert refused with 23505 uses up one id; success inserts exactly one new row with the normalised fields and `scrypt$<salt text>$<key>`, the key derived from the raw password and the salt's base64 text, and returns its public part |
| Registration.RegisteredPasswordOutcome | src/logic/users/register.ts:29-31 | login accepts the password of the row registration stored iff scrypt(normalised password, salt bytes) equals scrypt(raw password, salt text) |
| UserRemoval.DeleteUser | src/logic/users/remove.ts:3-7 | a non-finite or non-positive id gives "invalid id" before the store; a missing row gives "not found"; a failure changes nothing; success removes exactly that id and keeps every other row |
| UserListing.EffectiveLimit | src/logic/users/list.ts:22 | the limit lies in [1, 200], defaults to 50 and is clamped at both ends |
| UserListing.EffectiveOffset | src/logic/users/list.ts:23 | the offset defaults to 0 and is never negative |
| UserListing.AscendingKeys | src/logic/users/list.ts:36 | `ORDER BY id` lists every key exactly once, in strictly increasing order |
| UserListing.PageBounds | src/logic/users/list.ts:37 | LIMIT/OFFSET start at the offset, or at the end when the offset is past it, and take the limit or what is left |
| UserListing.PageIds | src/logic/users/list.ts:36-37 | every id on the page is a key of the table |
| UserListing.ListUsers | src/logic/users/list.ts:21-40 | one public row per selected id |
| UserListing.AscendingRank | src/logic/users/list.ts:36 | the key at position i of the ordering has exactly i smaller keys |
| UserListing.ListUsersSize | src/logic/users/list.ts:36-37 | the page holds min(limit, rows after the offset) rows |
| UserListing.ListUsersRows | src/logic/users/list.ts:24-37 | each row is the table row's projection without password hash and role, in strictly ascending id order |
| UserListing.ListUsersRanks | src/logic/users/list.ts:36-37 | the k-th row of the page has exactly offset + k smaller ids in the table |
| UserUpdate.EmailPatternShape | src/logic/users/update_full.ts:32 | an address matching `^[^\s@]+@[^\s@]+\.[^\s@]+$` has exactly one `@`, not first, no white space, and at least five characters |
| UserUpdate.EmailPatternRejects | src/logic/users/update_full.ts:32 | an address with white space or without `@` is refused |
| UserUpdate.FieldStep | src/logic/users/update_full.ts:24-66 | an accepted field's argument has its column's type |
| UserUpdate.FieldStepMeaning | src/logic/users/update_full.ts:24-66 | an absent field is skipped; a username must be non-blank and is stored trimmed; an email is stored trimmed and lower-cased and must match the pattern; a role is lower-cased and must be user or admin; the flag and nullable columns are never refused; a password under 8 units is refused, otherwise the supplied encoding `hash` is stored (`NewHash`: the registration encoder over the raw password and the salt text) |
| UserUpdate.Plan | src/logic/users/update_full.ts:24-66 | a successful plan has well-typed assignments, only to the examined fields, at most one each |
| UserUpdate.PlanInFieldOrder | src/logic/users/update_full.ts:20-66 | the assignments follow the fixed field order username, email, role, two_factor_enabled, email_verified_at, last_login_at, last_login_ip, password |
| UserUpdate.PlanWithoutRejection | src/logic/users/update_full.ts:24-66 | with no rejection, the plan is the concatenation of every supplied field's assignment in order |
| UserUpdate.PlanFirstRejection | src/logic/users/update_full.ts:24-66 | the first rejected field decides the error, whatever follows it |
| UserUpdate.PlanFromRejection | src/logic/users/update_full.ts:24-66 | from any field up to the first rejected one, the remaining blocks end with that rejection |
| UserUpdate.SetItems | src/logic/users/update_full.ts:27-64 | the i-th SET item is `<column> = $(i+1)`: consecutive placeholders from 1 |
| UserUpdate.Values | src/logic/users/update_full.ts:28-65 | the i-th argument is the i-th assignment's value |
| UserUpdate.UpdateStatement | src/logic/users/update_full.ts:70-73 | the statement has k + 1 arguments with the id last |
| UserUpdate.BuildUpdate | src/logic/users/update_full.ts:20-72 | the push loop yields the first rejection, "no fields to update" for an empty plan, or the statement of the plan |
| UserUpdate.FinishUpdate | src/logic/users/update_full.ts:68-73 | no SET item gives "no fields to update"; otherwise the statement of the plan, with `updated_at` last and the id in the final placeholder |
| UserUpdate.ExamineField | src/logic/users/update_full.ts:24-66 | one `if (input.f !== undefined)` block either rejects or appends the field's assignment, item and argument and advances the placeholder counter |
| UserUpdate.ExamineUsername | src/logic/users/update_full.ts:24-29 | a supplied username is refused when blank and otherwise pushed trimmed |
| UserUpdate.ExamineEmail | src/logic/users/update_full.ts:30-35 | a supplied email is trimmed and lower-cased, refused unless it matches the address pattern, otherwise pushed |
| UserUpdate.ExamineRole | src/logic/users/update_full.ts:36-41 | a supplied role is lower-cased, refused unless "user" or "admin", otherwise pushed |
| UserUpdate.ExamineUnchecked | src/logic/users/update_full.ts:42-57 | the flag and the three nullable columns are never refused and are pushed as given when supplied |
| UserUpdate.ExaminePassword | src/logic/users/update_full.ts:58-66 | a supplied password is refused below eight UTF-16 units and otherwise pushed as `scrypt$<salt text>$<key>`, the key derived from the raw password and the salt's base64 text |
| UserUpdate.Push | src/logic/users/update_full.ts:27-28 | `fields.push`/`args.push` append `<column> = $idx` and the argument and advance `idx` |
| UserUpdate.SetColumn | src/logic/users/update_full.ts:72 | the assigned column holds the argument; every other column, the id and the timestamps are unchanged |
| UserUpdate.ApplyPlanColumns | src/logic/users/update_full.ts:70-72 | after the update each assigned column holds its argument and every other column is as before |
| UserUpdate.PlanIsApplicable | src/logic/users/update_full.ts:24-66 | a successful plan assigns each column at most once, with arguments of the column's type |
| UserUpdate.ValidationBeforeStore | src/logic/users/update_full.ts:19-68 | an invalid id or a rejected field gives the same error whatever the table holds and whatever the store would report |
| UserUpdate.UpdateUserFull | src/logic/users/update_full.ts:18-77 | the id check comes first, then the fields, then "no fields to update", then the store's failure, then "not found"; every failure leaves the table unchanged; success rewrites only the addressed row and sets `updated_at` |
| Http.Thrown | src/http/users/put.ts:34 | `String(e?.message \|\| e \|\| "error")` is never empty and is the message when that is non-empty |
| Http.BearerTokenMatches | src/http/users/put.ts:13-15 | extraction succeeds iff `^Bearer\s+(.+)$` (case-insensitive) matches; the token is a capture of that match, and the shortest, as the greedy `\s+` gives |
| Http.SplitNotShorter | src/http/users/put.ts:13-15 | any way the pattern matches makes extraction succeed with a token no longer than that match's capture |
| Http.ExtractedSplit | src/http/users/put.ts:13-15 | an extracted token is the capture of a match of the pattern |
| Http.Guard | src/http/users/put.ts:12-26 | a refusal is 401 or 403 "forbidden"; an admitted request is on behalf of an existing row whose role lower-cases to "admin" |
| Http.GuardRejections | src/http/users/put.ts:16-26 | a token that does not verify gives 401 "invalid token"; another type gives 401 "invalid token type"; no unexpired index row joined to an existing user gives 401 "invalid or expired token"; a live row whose role is not admin gives 403 |
| Http.GuardAdmits | src/http/users/put.ts:12-26 | the request is admitted on behalf of `id` iff it carries a verified "at" token whose unexpired index row belongs to the existing row `id`, whose role lower-cases to "admin" |
| Http.MissingBearerFirst | src/http/users/put.ts:12-14 | without a bearer token the answer is 401 "missing bearer token", whatever the primitives, index and table are |
| Http.AdmittedHasLiveAccessToken | src/http/users/put.ts:16-25 | an admitted token verifies, has type "at", and its hash indexes the admin's id with an expiry strictly after now |
| Http.ExpiryIsStrict | src/http/users/put.ts:23-25 | an index row expiring at or before now gives 401 "invalid or expired token" |
| Http.RoleFromRow | src/http/users/put.ts:23-26 | the role comes from the users row at request time: changing that row's role alone switches between admission and 403 |
| UserRoutes.PutFailure | src/http/users/put.ts:33-39 | 404 iff the message is exactly "not found"; otherwise 400 iff it contains "required", "invalid " or "no fields"; otherwise 409 "conflict" iff it contains "duplicate", "exists" or "23505"; everything else is 500 "internal error"; 400 and 404 echo the message |
| UserRoutes.ConflictIs409 | src/http/users/put.ts:35-37 | a message holding "duplicate", "exists" or "23505" and none of the letters f, q and v gives 409 "conflict" |
| UserRoutes.PutFailureStatuses | src/http/users/put.ts:35-36 | the update's invalid-id, required, invalid-email, invalid-role and no-fields messages give 400; "not found" gives 404 |
| UserRoutes.UnmatchedIsInternalError | src/http/users/put.ts:35-38 | a message without `i` and `2`, other than "not found", matches no pattern and gives 500 |
| UserRoutes.ShortPasswordIsInternalError | src/http/users/put.ts:36-38 | the update's short-password message gives 500 "internal error", not 400 |
| UserRoutes.PutUser | src/http/users/put.ts:6-40 | a guard refusal is answered as such and leaves the table unchanged; an admitted request is answered from the update's outcome, and only a 200 changes the table, in the addressed row only |
| UserRoutes.DeleteFailure | src/http/users/delete.ts:32-37 | 404 iff the message is exactly "not found"; otherwise 400 iff it contains "invalid id"; everything else is 500 "internal error"; 400 and 404 echo the message |
| UserRoutes.DeleteFailureStatuses | src/http/users/delete.ts:28-36 | a non-positive or NaN id gives 400 "invalid id"; the answer is 204 iff the delete succeeded; a missing row gives 404 |
| UserRoutes.DeleteUser | src/http/users/delete.ts:6-38 | a refused request, a non-admin included, never reaches the delete; a 204 removes exactly the addressed row, and any other answer leaves the table unchanged |
| UserRoutes.FindByUuid | src/logic/users/get.ts:18-38 | the result is a stored row with that uuid; it is absent iff no row has that uuid |
| UserRoutes.GetUser | src/http/users/get.ts:6-36 | the guard runs before the uuid check (no bearer gives 401 even with an empty uuid); a blank uuid gives 400; an unknown uuid gives 404; otherwise 200 with the whole row |
| LoginRoutes.LoginFailure | src/http/users/login.ts:23-28 | 401 "invalid credentials" iff the message contains "invalid credentials"; otherwise 400 with the message iff it contains "required" or "invalid refresh token"; everything else is 500 "internal error" |
| LoginRoutes.LoginUnmatchedIsInternalError | src/http/users/login.ts:25-27 | a message without the letters v and q, such as a lost connection's, gives 500 "internal error" |
| LoginRoutes.Rename | src/http/users/login.ts:15-22 | the response carries the session's user and tokens under the renamed fields |
| LoginRoutes.RequiredIs400 | src/http/users/login.ts:26 | a message naming "required" without the letter `v` gives 400 with its own text |
| LoginRoutes.InputFailureStatuses | src/http/users/login.ts:26 | the identifier-required and password-required messages give 400 with their text |
| LoginRoutes.TokenAndUserFailureStatuses | src/http/users/login.ts:25-26 | "invalid refresh token" gives 400; an unknown user gives the bare 401 "invalid credentials" |
| LoginRoutes.LoginRoute | src/http/users/login.ts:10-28 | a non-blank refresh token takes precedence and identifier and password are ignored; otherwise the ordered input checks, a uniform 401 for credential failures, a 200 only for a successful login, and a 200 for credentials every matching row accepts unless the index write fails; only a 200 writes the index |
| LoginRoutes.PasswordLoginRoute | src/http/users/login.ts:17-28 | the password branch: the two missing-input 400s in order, a uniform 401 for credential failures without a store error, a 200 for credentials every matching row accepts unless the index write fails, and a 200 only for a matching row whose hash accepts the password; only a 200 writes the index |
| LoginRoutes.TokenRouteAsWritten | src/http/users/login.ts:31-41 | as written: an empty refresh token gives 400; every other request gives 401 and indexes nothing |
| LoginRoutes.TokenRoute | src/http/users/login.ts:31-41 | corrected: 200 iff the token verifies as a refresh token with an integer subject and the index write succeeds; the new token is indexed under its hash; any other non-empty request gives 401 and indexes nothing |
| LoginRoutes.TokenTableRow | src/logic/users/login.ts:89 | the exchanged token's index row belongs to the subject and expires 15 minutes after now |
| RegisterRoute.RegisterFailure | src/http/users/register.ts:33-38 | 409 iff the message contains "already exists"; otherwise 400 iff it contains "required", "at least" or "invalid email"; everything else is 500 "internal error"; 400 and 409 echo the message |
| RegisterRoute.RegisterUnmatchedIsInternalError | src/http/users/register.ts:35-37 | a message without the letters x, q, l and v gives 500 "internal error" |
| RegisterRoute.MissingExportLetters | src/http/users/register.ts:21 | the TypeError a CommonJS build throws, "(0 , register_1.registerAndIssueTokens) is not a function", has none of the letters x, q, l and v |
| RegisterRoute.RegisterAsWritten | src/http/users/register.ts:20-37 | as written: when the call throws any message without the letters x, q, l and v, such as that TypeError, every body that passes the three input checks is answered with 500 "internal error" |
| RegisterRoute.Register | src/http/users/register.ts:12-38 | username, email and password are checked in order, each with its own 400; success is 201 with the public user and both tokens; failures go through the mapping |
| RegisterRoute.DuplicateIsConflict | src/http/users/register.ts:35 | the duplicate-user message gives 409 with that message |
| RegisterRoute.ClientErrorIs400 | src/http/users/register.ts:36 | a message without the letter `x` that holds "required", "at least" or "invalid email" gives 400 with its own text |
| RegisterRoute.ValidationIs400 | src/http/users/register.ts:36 | the registration's username, email and short-password messages give 400 with their text |
| RegisterRoute.UsernameRequiredIs400 | src/http/users/register.ts:36 | "username is required" gives 400 with that text |
| RegisterRoute.EmailRequiredIs400 | src/http/users/register.ts:36 | "email is required" gives 400 with that text |
| RegisterRoute.PasswordTooShortIs400 | src/http/users/register.ts:36 | the short-password message, which holds "at least", gives 400 with that text |
| Migrations.SqlFiles | src/database/db.ts:33-34 | the kept entries are exactly the listed names whose lower-cased form ends in `.sql` |
| Migrations.NameLeTotal | src/database/db.ts:35 | any two names are ordered by `.sort()`'s comparison |
| Migrations.NameLeTransitive | src/database/db.ts:35 | that comparison is transitive |
| Migrations.SortNames | src/database/db.ts:35 | sorting is a permutation of the names |
| Migrations.SortNamesSorted | src/database/db.ts:35 | the sorted names are in ascending order |
| Migrations.FailureText | src/database/db.ts:75 | the error starts with "apply migration <file>: " |
| Migrations.Pending | src/database/db.ts:42-43 | the pending files are exactly the entries the snapshot does not record |
| Migrations.RunSucceeds | src/database/db.ts:42-47 | a successful run records the pending files after those already recorded, in entry order, and commits their scripts in that order |
| Migrations.RunStopsAtFailure | src/database/db.ts:42-47 | a failed run stops at one unrecorded entry named by the error; only the pending files before it are recorded |
| Migrations.PendingSorted | src/database/db.ts:35-43 | the pending files of sorted entries are in ascending order |
| Migrations.SuccessfulRunShape | src/database/db.ts:33-47 | a successful run keeps the recorded names and appends, in ascending order, exactly the listing's SQL files that the snapshot does not record |
| Migrations.MigrationStore.EnsureMigrationsTable | src/database/db.ts:50-57 | the table exists afterwards |
| Migrations.MigrationStore.ApplyMigration | src/database/db.ts:66-79 | the script and the record commit together or not at all; a failing script or an already-recorded name gives "apply migration <file>: ..."; the client is released on every path |
| Migrations.MigrationStore.RunMigrations | src/database/db.ts:25-48 | a blank directory fails first with nothing changed; a missing directory applies nothing; another read error propagates; otherwise the outcome is the run over the sorted SQL entries against the names recorded at the start |
| AuthForms.EmailPatternLength | frontend/src/auth/register.tsx:11 | anything matching `.+@.+\..+` is at least five units long |
| AuthForms.ValidateIdentifier | frontend/src/auth/index.tsx:8-14 | a blank value gives the "enter" message; any refusal is one of the two messages |
| AuthForms.IdentifierAcceptance | frontend/src/auth/index.tsx:12-13 | the identifier is accepted iff its trimmed length is at least 2, so the email alternative adds nothing |
| AuthForms.ValidatePassword | frontend/src/auth/index.tsx:16-20 | untrimmed: empty gives the "enter" message; a non-empty value is accepted iff its length is at least 6 |
| AuthForms.ValidateEmail | frontend/src/auth/register.tsx:8-13 | untrimmed: empty gives the "enter" message; a non-empty value is accepted iff the unanchored pattern is found in it |
| AuthForms.AcceptedEmailShape | frontend/src/auth/register.tsx:11-12 | an accepted email has at least five units and an `@` followed later by a dot |
| AuthForms.ValidateUsername | frontend/src/auth/register.tsx:21-25 | untrimmed: empty gives the "enter" message; a non-empty value is accepted iff its length is at least 2 |
| AuthForms.LoginSubmission | frontend/src/auth/index.tsx:45-46 | the identifier sent is the typed one with its surrounding white space removed, and the password sent is the NFKC form of the typed one with its surrounding white space removed; neither has white space at either end |
| AuthForms.AcceptedIdentifierIsPresent | frontend/src/auth/index.tsx:45 | an identifier the form accepts is never refused by the server as missing |
| AuthForms.BlankPasswordPassesCheck | frontend/src/auth/index.tsx:45-46 | six spaces pass the password check, yet an empty password is sent |
| AuthForms.RequestFailure | frontend/src/auth/index.tsx:30-33 | the thrown message is the response text, or the fallback when the text is empty |
| AuthForms.LoginErrorText | frontend/src/auth/index.tsx:58-59 | a message matching `invalid credentials\|401` shows the fixed text; any other shows itself, or the "try later" text when empty |
| AuthForms.LoginFailureDisplay | frontend/src/auth/index.tsx:58-59 | the server's credential refusal shows the fixed text; a failed request always shows the fixed text or its own message; an empty response shows the form's failure text |
| AuthForms.SignupErrorText | frontend/src/auth/register.tsx:35-37 | the server's text, or the sign-up failure text when it is empty; never empty |
| AuthForms.SignupSubmission | frontend/src/auth/register.tsx:49-51 | username, email and password are sent exactly as typed |

## Left out

- The 405 method checks and the "database not initialized" check of the handlers: routing plumbing with fixed answers.
- The environment read and global dev-secret cache of `getJwtSecret`: the secret is folded into `jwtSign`/`jwtVerify`.
- The `DEBUG_AUTH` console logging: output only, with no effect on results.
- The timing behaviour of `timingSafeEqual`: modelled as a length check plus byte equality.
- Async interleaving and concurrent requests: every operation runs alone.
- Text.Lower: lower-cases ASCII letters only. JavaScript's and PostgreSQL's full Unicode case mapping is not modelled.
- Base.JsNumber.AsRowId: a finite, positive, non-integer id is treated as matching no row. PostgreSQL would raise "invalid input syntax for type integer" instead. The DELETE handler and the refresh login would answer that with 500, and the PUT handler with 400, because the message contains "invalid ". Likewise an integral id outside PostgreSQL's `integer` range (-2147483648..2147483647) is treated as an ordinary key that matches no row, where PostgreSQL raises "value ... is out of range for type integer": DELETE /users/3000000000 and PUT /users/3000000000 would answer 500 where the model answers 404; an id such as 1e21, whose text is "1e+21", would make PUT answer 400 ("invalid input syntax") where the model answers 404; a refresh token whose subject is 3000000000 would make the login handler answer 500 where the model answers 400 "invalid refresh token".
- The username/email uniqueness constraints live in migrations outside this model: a conflict is the `fault` parameter.
- `registerAndIssueTokens` does not exist: src/logic/users/register.ts exports only `RegisterInput`, `PublicUser` and `registerUser`. `RegisterRoute.Register` takes the intended register-and-issue operation as the function `issue`; `RegisterRoute.RegisterAsWritten` states what the handler does as written (see Findings).
- src/http/users/list.ts is not part of this model. Its `Number("")` turns an absent limit into 0, which `UserListing.EffectiveLimit` clamps to 1.
- src/server.ts is not part of this model. It imports `getAllUsersHandler`, which src/http/users/list.ts does not export (it exports `listUsersHandler`), so `api.get` is given `undefined` and Express throws before `listen`; the handlers are modelled as they would answer once served.
- Registration.InsertRegistration: a store error other than 23505 is taken to arise before the id default is evaluated, so it leaves the id sequence alone.
- `connectAndPing` and `close` of the database wrapper: connection plumbing.
- Migrations.MigrationStore.RunMigrations:
  - The SQL text is not parsed. A script is committed as a whole, or fails with the cause the `failures` parameter gives.
  - `path.join` and a failing `readFileSync` are not modelled.
- Migrations.NameLe: compares code points, not UTF-16 units. The two orders agree except between supplementary-plane characters and U+E000..U+FFFF.
- The React rendering, toasts, `localStorage` and `fetch` of the forms.
- `validatePassword` in frontend/src/auth/register.tsx:15-19 is character for character the one in frontend/src/auth/index.tsx:16-20. It is modelled once, as `AuthForms.ValidatePassword`.
- A JSON `null` for username, email or password in login and registration is treated like an absent field, which is what `||` does with it. The full update tests `!== undefined` instead, so a `null` there is a supplied field: it is modelled as `Some("")`, which gives "username is required", "invalid email" or the 8-character error. `None` in `UserUpdate.FullUpdateInput` means absent only.
- Store reads never fail in the model: the login lookup, the guard's index query, get by uuid, the listing and the refresh lookup always answer. Only writes take a `fault` parameter.
- UserListing.EffectiveLimit: takes an integer, so a fractional or NaN `limit` or `offset` passed to `listUsers` cannot be expressed.
- UserRoutes.FindByUuid: compares the uuid as text. PostgreSQL compares a uuid column by value: a text that is not uuid syntax, such as "abc", raises "invalid input syntax for type uuid", which get.ts leaves uncaught; an upper-case or brace-wrapped spelling of a stored uuid matches. The model answers 404 in both cases.
- PasswordHash.HashPassword: the corrected encoder is proved to verify, but no operation stores it. Registration and the full update store what the source stores, `EncodeAsWritten`.
- UserListing.ListUsers: a ghost function, because the id order is defined by choosing least keys. Its lemmas carry the properties.
- Three behaviours one might expect are absent from the code, and the model follows the code:
  - no role claim is put in the tokens;
  - login does not update `last_login_at`;
  - registration needs 6 characters where the full update needs 8, and it has no email format check.

## Findings

| source | as written | input that shows it | evidently intended | confidence | as-written member | corrected member |
|---|---|---|---|---|---|---|
| src/logic/users/register.ts:29-30 | registration (and the full update's password branch) gives scrypt the base64 TEXT of the salt and the raw password, while login verifies with the decoded salt BYTES and the trimmed NFKC password | password "secret1" with a 16-zero-byte salt, under a lawful base64 codec and a key function that depends on the salt: login answers password_mismatch | hash trim(NFKC(password)) with the salt bytes, so a registered password verifies | not executed | PasswordHash.RegisteredPasswordRejected | PasswordHash.VerifyAfterHash |
| src/http/users/login.ts:36 | `exchangeAccessToken(refresh_token)` passes the token as the pool and leaves the token parameter undefined, so verification always throws. This shows only in a build that skips type checking: tsc refuses the one-argument call | any non-empty `refresh_token`, valid or not: 401 "invalid refresh token" | `exchangeAccessToken(pool, refresh_token)` | not executed | LoginRoutes.TokenRouteAsWritten | LoginRoutes.TokenRoute |
| src/http/users/register.ts:3-21 | the handler imports and calls `registerAndIssueTokens`, which src/logic/users/register.ts does not export; in a CommonJS build that skips type checking the call throws the TypeError "(0 , register_1.registerAndIssueTokens) is not a function", which names none of the mapped phrases; tsc refuses the import | any body with a non-blank username and email and a non-empty password: 500 "internal error", and no user is registered | register the user with `registerUser`, issue both tokens and answer 201 | not executed | RegisterRoute.RegisterAsWritten | RegisterRoute.Register |
