/** listUsers: one page of the users table in id order, without the
    password hash and the role. */
module UserListing {
  import opened Base
  import opened Store

  const DefaultLimit := 50
  const MinLimit := 1
  const MaxLimit := 200

  /** `Math.min(Math.max(limit ?? 50, 1), 200)` */
  function EffectiveLimit(limit: Option<int>): (n: int)
    ensures MinLimit <= n <= MaxLimit
    ensures limit.None? ==> n == DefaultLimit
    ensures limit.Some? && MinLimit <= limit.value <= MaxLimit ==> n == limit.value
    ensures limit.Some? && limit.value < MinLimit ==> n == MinLimit
    ensures limit.Some? && limit.value > MaxLimit ==> n == MaxLimit
  {
    var l := limit.GetOr(DefaultLimit);
    var atLeast := if l < MinLimit then MinLimit else l;
    if atLeast > MaxLimit then MaxLimit else atLeast
  }

  /** `Math.max(offset ?? 0, 0)` */
  function EffectiveOffset(offset: Option<int>): (n: nat)
    ensures offset.None? ==> n == 0
    ensures offset.Some? && offset.value >= 0 ==> n == offset.value
    ensures offset.Some? && offset.value < 0 ==> n == 0
  {
    var o := offset.GetOr(0);
    if o < 0 then 0 else o
  }

  /** The columns listUsers selects: everything but `password_hash` and `role`. */
  datatype PublicUserRow = PublicUserRow(
    id: int,
    uuid: string,
    username: string,
    email: string,
    twoFactorEnabled: bool,
    emailVerifiedAt: Option<string>,
    lastLoginAt: Option<string>,
    lastLoginIp: Option<string>,
    createdAt: int,
    updatedAt: int)

  function PublicRow(u: User): PublicUserRow {
    PublicUserRow(u.id, u.uuid, u.username, u.email, u.twoFactorEnabled,
                  u.emailVerifiedAt, u.lastLoginAt, u.lastLoginIp, u.createdAt, u.updatedAt)
  }

  /** The smallest key of a non-empty set. */
  ghost function Least(s: set<int>): (m: int)
    requires s != {}
    ensures m in s && forall x | x in s :: m <= x
  {
    assert exists y :: y in s by {
      if forall y :: y !in s {
        assert false;
      }
    }
    var x :| x in s;
    if s == {x} then x
    else
      var m := Least(s - {x});
      assert forall y | y in s :: y == x || y in s - {x};
      if x < m then x else m
  }

  predicate StrictlyIncreasing(ids: seq<int>) {
    forall i, j :: 0 <= i < j < |ids| ==> ids[i] < ids[j]
  }

  /** The keys of the table in ascending order: `ORDER BY id`. */
  ghost function Ascending(s: set<int>): (ids: seq<int>)
    decreases |s|
  {
    if s == {} then [] else [Least(s)] + Ascending(s - {Least(s)})
  }

  /** The ordered keys are strictly increasing and are exactly the keys of
      the table. */
  lemma {:induction false} AscendingKeys(s: set<int>)
    ensures var ids := Ascending(s);
      && StrictlyIncreasing(ids) && |ids| == |s|
      && (forall k :: 0 <= k < |ids| ==> ids[k] in s)
      && (forall x | x in s :: x in ids)
    decreases |s|
  {
    if s != {} {
      var m := Least(s);
      var rest := Ascending(s - {m});
      AscendingKeys(s - {m});
      var ids := [m] + rest;
      assert Ascending(s) == ids;
      forall k | 0 < k < |ids| ensures m < ids[k] && ids[k] in s {
        assert ids[k] == rest[k - 1];
      }
      forall x | x in s ensures x in ids {
        if x != m {
          assert x in rest;
        }
      }
    }
  }

  /** The first and one-past-last positions of the page in the ordered ids. */
  function PageBounds(count: nat, limit: Option<int>, offset: Option<int>): (b: (nat, nat))
    ensures b.0 <= b.1 <= count
    ensures b.0 == if EffectiveOffset(offset) < count then EffectiveOffset(offset) else count
    ensures b.1 - b.0 == if EffectiveLimit(limit) < count - b.0 then EffectiveLimit(limit) else count - b.0
  {
    var from := if EffectiveOffset(offset) < count then EffectiveOffset(offset) else count;
    var to := if from + EffectiveLimit(limit) < count then from + EffectiveLimit(limit) else count;
    (from, to)
  }

  /** The ids on the page: `ORDER BY id LIMIT $1 OFFSET $2`. */
  ghost function PageIds(users: map<int, User>, limit: Option<int>, offset: Option<int>): (ids: seq<int>)
    ensures forall k :: 0 <= k < |ids| ==> ids[k] in users
  {
    var all := Ascending(users.Keys);
    var b := PageBounds(|all|, limit, offset);
    AscendingKeys(users.Keys);
    all[b.0..b.1]
  }

  /** listUsers: the page's rows, projected to the public columns. */
  ghost function ListUsers(users: map<int, User>, limit: Option<int>, offset: Option<int>): (page: seq<PublicUserRow>)
    ensures |page| == |PageIds(users, limit, offset)|
  {
    var ids := PageIds(users, limit, offset);
    seq(|ids|, k requires 0 <= k < |ids| => PublicRow(users[ids[k]]))
  }

  /** The ids of the table smaller than `x`. */
  ghost function Below(s: set<int>, x: int): set<int> {
    set y | y in s && y < x
  }

  /** Removing a key below `x` removes exactly one key below `x`. */
  lemma BelowWithout(s: set<int>, m: int, x: int)
    requires m in s && m < x
    ensures Below(s, x) == Below(s - {m}, x) + {m}
    ensures m !in Below(s - {m}, x)
  {
  }

  /** In the ascending key list, the key at position `i` has exactly `i`
      smaller keys in the table. */
  lemma {:induction false} AscendingRank(s: set<int>, i: nat)
    requires i < |Ascending(s)|
    ensures |Below(s, Ascending(s)[i])| == i
    decreases |s|
  {
    var ids := Ascending(s);
    var m := Least(s);
    var rest := Ascending(s - {m});
    assert ids == [m] + rest;
    AscendingKeys(s - {m});
    if i == 0 {
      assert forall y | y in Below(s, m) :: false;
      assert Below(s, m) == {};
    } else {
      var x := ids[i];
      assert x == rest[i - 1] && x in s - {m};
      AscendingRank(s - {m}, i - 1);
      BelowWithout(s, m, x);
    }
  }

  /** The page holds `limit` rows, or fewer when the table has fewer rows
      beyond the offset. */
  lemma ListUsersSize(users: map<int, User>, limit: Option<int>, offset: Option<int>)
    ensures var rest := if EffectiveOffset(offset) < |users| then |users| - EffectiveOffset(offset) else 0;
      |ListUsers(users, limit, offset)| == if EffectiveLimit(limit) < rest then EffectiveLimit(limit) else rest
  {
    assert |users.Keys| == |users|;
    AscendingKeys(users.Keys);
  }

  /** The k-th row of the page is the public row of the key at position
      `from + k` of the ordered keys, and that position is inside the page. */
  lemma PageRow(users: map<int, User>, limit: Option<int>, offset: Option<int>, k: int)
    requires 0 <= k < |ListUsers(users, limit, offset)|
    ensures var all := Ascending(users.Keys);
      var b := PageBounds(|all|, limit, offset);
      && b.0 + k < b.1 <= |all| && all[b.0 + k] in users
      && ListUsers(users, limit, offset)[k] == PublicRow(users[all[b.0 + k]])
  {
    var all := Ascending(users.Keys);
    var b := PageBounds(|all|, limit, offset);
    var ids := PageIds(users, limit, offset);
    assert ids == all[b.0..b.1];
    assert ListUsers(users, limit, offset)[k] == PublicRow(users[ids[k]]);
  }

  /** Each row of the page is the public projection of a row of the table,
      and the rows come in strictly ascending id order. */
  lemma ListUsersRows(users: map<int, User>, limit: Option<int>, offset: Option<int>)
    requires forall id | id in users :: users[id].id == id
    ensures var page := ListUsers(users, limit, offset);
      && (forall k :: 0 <= k < |page| ==> page[k].id in users && page[k] == PublicRow(users[page[k].id]))
      && (forall i, j :: 0 <= i < j < |page| ==> page[i].id < page[j].id)
  {
    var page := ListUsers(users, limit, offset);
    var all := Ascending(users.Keys);
    var b := PageBounds(|all|, limit, offset);
    forall k | 0 <= k < |page| ensures page[k].id == all[b.0 + k] && page[k].id in users {
      PageRow(users, limit, offset, k);
      var id := all[b.0 + k];
      assert page[k] == PublicRow(users[id]);
      assert users[id].id == id;
    }
    forall i, j | 0 <= i < j < |page| ensures page[i].id < page[j].id {
      AscendingKeys(users.Keys);
      assert StrictlyIncreasing(all);
      assert b.0 + j < |all|;
      assert all[b.0 + i] < all[b.0 + j];
    }
  }

  /** The k-th row of the page is the row with exactly `offset + k` smaller
      ids: the page starts after the first `offset` rows in id order. */
  lemma ListUsersRanks(users: map<int, User>, limit: Option<int>, offset: Option<int>)
    requires forall id | id in users :: users[id].id == id
    ensures var page := ListUsers(users, limit, offset);
      forall k :: 0 <= k < |page| ==> |Below(users.Keys, page[k].id)| == EffectiveOffset(offset) + k
  {
    var page := ListUsers(users, limit, offset);
    var all := Ascending(users.Keys);
    var b := PageBounds(|all|, limit, offset);
    forall k | 0 <= k < |page|
      ensures |Below(users.Keys, page[k].id)| == EffectiveOffset(offset) + k
    {
      PageRow(users, limit, offset, k);
      assert page[k].id == all[b.0 + k];
      assert b.0 == EffectiveOffset(offset);
      AscendingRank(users.Keys, b.0 + k);
    }
  }
}
