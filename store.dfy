/** The two tables the user logic reads and writes: `users` keyed by id and
    `access_tokens` keyed by the token hash. Each method is one SQL statement. */
module Store {
  import opened Base

  datatype User = User(
    id: int,
    uuid: string,
    username: string,
    email: string,
    passwordHash: string,
    role: string,
    twoFactorEnabled: bool,
    emailVerifiedAt: Option<string>,
    lastLoginAt: Option<string>,
    lastLoginIp: Option<string>,
    createdAt: int,
    updatedAt: int)

  /** A row of access_tokens: owner and expiry time in milliseconds. */
  datatype TokenRow = TokenRow(userId: int, expiresAt: int)

  /** The role a freshly inserted row gets from the column default. */
  const DefaultRole := "user"

  class UserStore {
    var users: map<int, User>
    var accessTokens: map<string, TokenRow>
    /** the next value of the id sequence */
    var nextId: int

    /** Every row is stored under its own id, and ids are positive and
        below the sequence's next value. */
    ghost predicate Valid()
      reads this
    {
      0 < nextId && forall id | id in users :: users[id].id == id && 0 < id < nextId
    }

    constructor ()
      ensures Valid() && users == map[] && accessTokens == map[] && nextId == 1
    {
      users, accessTokens, nextId := map[], map[], 1;
    }

    /** `INSERT INTO access_tokens ... ON CONFLICT (token_hash) DO UPDATE SET
        user_id = EXCLUDED.user_id, expires_at = EXCLUDED.expires_at` */
    method UpsertAccessToken(tokenHash: string, userId: int, expiresAt: int)
      modifies this`accessTokens
      ensures accessTokens == old(accessTokens)[tokenHash := TokenRow(userId, expiresAt)]
    {
      accessTokens := accessTokens[tokenHash := TokenRow(userId, expiresAt)];
    }

    /** `INSERT INTO users (username, email, password_hash) ... RETURNING ...`;
        every other column takes its default. */
    method InsertUser(username: string, email: string, passwordHash: string, uuid: string, now: int)
      returns (u: User)
      requires Valid()
      modifies this`users, this`nextId
      ensures Valid()
      ensures u.id == old(nextId) && u.id !in old(users)
      ensures u == User(u.id, uuid, username, email, passwordHash, DefaultRole, false, None, None, None, now, now)
      ensures users == old(users)[u.id := u]
    {
      u := User(nextId, uuid, username, email, passwordHash, DefaultRole, false, None, None, None, now, now);
      users := users[nextId := u];
      nextId := nextId + 1;
    }

    /** An INSERT that fails on a unique constraint: the id default has
        already drawn `nextval`, so the sequence value is used up although
        no row is stored. */
    method SkipId()
      requires Valid()
      modifies this`nextId
      ensures Valid()
      ensures nextId == old(nextId) + 1
    {
      nextId := nextId + 1;
    }

    /** `UPDATE users SET ... WHERE id = $n`: the row is replaced by its new version. */
    method ReplaceUser(u: User)
      requires Valid() && u.id in users
      modifies this`users
      ensures Valid()
      ensures users == old(users)[u.id := u]
    {
      users := users[u.id := u];
    }

    /** `DELETE FROM users WHERE id = $1`, returning the row count. */
    method DeleteUser(id: int) returns (rowCount: nat)
      requires Valid()
      modifies this`users
      ensures Valid()
      ensures rowCount == (if id in old(users) then 1 else 0)
      ensures users == old(users) - {id}
    {
      rowCount := if id in users then 1 else 0;
      users := users - {id};
    }
  }
}
