/** The migration runner of the database wrapper: picks the `.sql` files of
    a directory, sorts them by name, skips the ones `schema_migrations`
    already records, and applies the rest one transaction each, stopping at
    the first failure. */
module Migrations {
  import opened Base
  import opened Text

  const EmptyDir := "migrationsDir is empty"

  /** What the message of a unique violation on `schema_migrations.filename`
      prints as. */
  const DuplicateKey := "error: duplicate key value violates unique constraint \"schema_migrations_pkey\""

  /** The outcome of reading the directory: its entry names, a missing
      directory, or another error with its message. */
  datatype Listing = Entries(names: seq<string>) | NoSuchDirectory | ReadError(message: string)

  /** `f.toLowerCase().endsWith(".sql")` */
  predicate IsSqlFile(name: string) {
    EndsWith(Lower(name), ".sql")
  }

  /** The entries that are SQL files, in listing order. */
  function SqlFiles(names: seq<string>): (files: seq<string>)
    ensures forall f :: f in files <==> f in names && IsSqlFile(f)
    ensures |files| <= |names|
  {
    if names == [] then []
    else if IsSqlFile(names[0]) then [names[0]] + SqlFiles(names[1..])
    else SqlFiles(names[1..])
  }

  /** The default order of `Array.prototype.sort` on strings: lexicographic,
      a proper prefix first. */
  predicate NameLe(a: string, b: string) {
    a == [] || (b != [] && (a[0] < b[0] || (a[0] == b[0] && NameLe(a[1..], b[1..]))))
  }

  lemma {:induction false} NameLeTotal(a: string, b: string)
    ensures NameLe(a, b) || NameLe(b, a)
  {
    if a != [] && b != [] && a[0] == b[0] {
      NameLeTotal(a[1..], b[1..]);
    }
  }

  lemma {:induction false} NameLeTransitive(a: string, b: string, c: string)
    requires NameLe(a, b) && NameLe(b, c)
    ensures NameLe(a, c)
  {
    if a != [] && a[0] == b[0] && b[0] == c[0] {
      NameLeTransitive(a[1..], b[1..], c[1..]);
    }
  }

  predicate SortedNames(s: seq<string>) {
    forall i, j :: 0 <= i < j < |s| ==> NameLe(s[i], s[j])
  }

  /** Puts `x` before the first element it does not follow. */
  function Insert(x: string, s: seq<string>): (r: seq<string>)
    ensures multiset(r) == multiset(s) + multiset{x}
    ensures forall y :: y in r <==> y == x || y in s
  {
    if s == [] then [x]
    else if NameLe(x, s[0]) then [x] + s
    else
      assert s == [s[0]] + s[1..];
      [s[0]] + Insert(x, s[1..])
  }

  lemma {:induction false} InsertSorted(x: string, s: seq<string>)
    requires SortedNames(s)
    ensures SortedNames(Insert(x, s))
  {
    if s != [] && !NameLe(x, s[0]) {
      assert SortedNames(s[1..]) by {
        forall i, j | 0 <= i < j < |s| - 1 ensures NameLe(s[1..][i], s[1..][j]) {
          assert s[1..][i] == s[i + 1] && s[1..][j] == s[j + 1];
        }
      }
      InsertSorted(x, s[1..]);
      NameLeTotal(x, s[0]);
      HeadBelowInsert(x, s);
      ConsSorted(s[0], Insert(x, s[1..]));
    } else if s != [] {
      forall y | y in s ensures NameLe(x, y) {
        var j :| 0 <= j < |s| && s[j] == y;
        if j > 0 {
          NameLeTransitive(x, s[0], s[j]);
        }
      }
      ConsSorted(x, s);
    }
  }

  /** A name that precedes every element of a sorted sequence can go in front. */
  lemma ConsSorted(h: string, t: seq<string>)
    requires SortedNames(t) && forall y | y in t :: NameLe(h, y)
    ensures SortedNames([h] + t)
  {
    var r := [h] + t;
    forall i, j | 0 <= i < j < |r| ensures NameLe(r[i], r[j]) {
      assert r[j] == t[j - 1];
      if i > 0 {
        assert r[i] == t[i - 1];
      }
    }
  }

  /** The head of a sorted sequence precedes everything inserted after it. */
  lemma HeadBelowInsert(x: string, s: seq<string>)
    requires SortedNames(s) && s != [] && NameLe(s[0], x)
    ensures forall y | y in Insert(x, s[1..]) :: NameLe(s[0], y)
  {
    forall y | y in Insert(x, s[1..]) ensures NameLe(s[0], y) {
      if y != x {
        var j :| 0 <= j < |s[1..]| && s[1..][j] == y;
        assert s[j + 1] == y;
      }
    }
  }

  /** `.sort()`: insertion of each name into the sorted rest. */
  function SortNames(s: seq<string>): (r: seq<string>)
    ensures multiset(r) == multiset(s)
  {
    if s == [] then []
    else
      assert s == [s[0]] + s[1..];
      Insert(s[0], SortNames(s[1..]))
  }

  /** The sorted names are in ascending order. */
  lemma {:induction false} SortNamesSorted(s: seq<string>)
    ensures SortedNames(SortNames(s))
  {
    if s != [] {
      SortNamesSorted(s[1..]);
      InsertSorted(s[0], SortNames(s[1..]));
    }
  }

  /** The error applying `file` reports. */
  function FailureText(file: string, cause: string): (msg: string)
    ensures ("apply migration " + file + ": ") <= msg
  {
    "apply migration " + file + ": " + cause
  }

  /** The files of `files` that the snapshot does not record, in order. */
  function Pending(files: seq<string>, snapshot: set<string>): (pending: seq<string>)
    ensures forall f :: f in pending <==> f in files && f !in snapshot
  {
    if files == [] then []
    else if files[0] in snapshot then Pending(files[1..], snapshot)
    else [files[0]] + Pending(files[1..], snapshot)
  }

  /** The recorded file names, the committed scripts, and the outcome. */
  datatype RunState = RunState(applied: seq<string>, schema: seq<string>, result: Result<()>)

  /** The loop over the sorted entries: a file the snapshot records is
      skipped; any other is applied in its own transaction, which fails when
      its script fails (`failures` says with what cause) or when its name is
      already recorded; the first failure ends the run. */
  function Run(files: seq<string>, snapshot: set<string>, applied: seq<string>, schema: seq<string>,
               readFile: string -> string, failures: string -> Option<string>): RunState
    decreases |files|
  {
    if files == [] then RunState(applied, schema, Ok(()))
    else
      var f := files[0];
      if f in snapshot then Run(files[1..], snapshot, applied, schema, readFile, failures)
      else if failures(f).Some? then RunState(applied, schema, Err(FailureText(f, failures(f).value)))
      else if f in applied then RunState(applied, schema, Err(FailureText(f, DuplicateKey)))
      else Run(files[1..], snapshot, applied + [f], schema + [readFile(f)], readFile, failures)
  }

  /** The scripts of `files`, read in order. */
  function Scripts(files: seq<string>, readFile: string -> string): (scripts: seq<string>)
    ensures |scripts| == |files|
    ensures forall k :: 0 <= k < |files| ==> scripts[k] == readFile(files[k])
  {
    if files == [] then [] else [readFile(files[0])] + Scripts(files[1..], readFile)
  }

  /** The first entry is pending exactly when the snapshot does not record it. */
  lemma PendingCons(files: seq<string>, snapshot: set<string>)
    requires files != []
    ensures Pending(files, snapshot) == (if files[0] in snapshot then [] else [files[0]]) + Pending(files[1..], snapshot)
  {
  }

  /** The same for the first `k + 1` entries. */
  lemma PendingPrefix(files: seq<string>, snapshot: set<string>, k: nat)
    requires k < |files|
    ensures Pending(files[..k + 1], snapshot) == (if files[0] in snapshot then [] else [files[0]]) + Pending(files[1..][..k], snapshot)
  {
    assert files[..k + 1][1..] == files[1..][..k];
    PendingCons(files[..k + 1], snapshot);
  }

  /** A run that succeeds records every pending file after the files already
      recorded, in the order of the entries, and commits their scripts in
      the same order. */
  lemma {:induction false} RunSucceeds(files: seq<string>, snapshot: set<string>, applied: seq<string>, schema: seq<string>,
                                       readFile: string -> string, failures: string -> Option<string>)
    requires Run(files, snapshot, applied, schema, readFile, failures).result.Ok?
    ensures var run := Run(files, snapshot, applied, schema, readFile, failures);
      run.applied == applied + Pending(files, snapshot) && run.schema == schema + Scripts(Pending(files, snapshot), readFile)
    decreases |files|
  {
    if files != [] {
      var f := files[0];
      PendingCons(files, snapshot);
      var rest := Pending(files[1..], snapshot);
      if f in snapshot {
        RunSucceeds(files[1..], snapshot, applied, schema, readFile, failures);
      } else {
        RunSucceeds(files[1..], snapshot, applied + [f], schema + [readFile(f)], readFile, failures);
        ConcatAssociative(applied, [f], rest);
        assert Scripts([f] + rest, readFile) == [readFile(f)] + Scripts(rest, readFile) by {
          assert ([f] + rest)[1..] == rest;
        }
        ConcatAssociative(schema, [readFile(f)], Scripts(rest, readFile));
      }
    }
  }

  /** The run stopped at entry `k`: a file the snapshot does not record,
      named by the error, with exactly the pending files before it recorded
      and their scripts committed. */
  predicate StoppedAt(files: seq<string>, snapshot: set<string>, applied: seq<string>, schema: seq<string>, run: RunState, k: int) {
    0 <= k < |files| && files[k] !in snapshot
    && run.result.Err? && ("apply migration " + files[k] + ": ") <= run.result.msg
    && run.applied == applied + Pending(files[..k], snapshot)
    && |run.schema| == |schema| + |Pending(files[..k], snapshot)|
  }

  /** Stopping at entry `k` of the rest, after the first entry was skipped
      or applied, is stopping at entry `k + 1` of the whole. */
  lemma StoppedAtShift(files: seq<string>, snapshot: set<string>, applied: seq<string>, schema: seq<string>,
                       applied': seq<string>, schema': seq<string>, run: RunState, k: int)
    requires files != []
    requires files[0] in snapshot ==> applied' == applied && schema' == schema
    requires files[0] !in snapshot ==> applied' == applied + [files[0]] && |schema'| == |schema| + 1
    requires StoppedAt(files[1..], snapshot, applied', schema', run, k)
    ensures StoppedAt(files, snapshot, applied, schema, run, k + 1)
  {
    PendingPrefix(files, snapshot, k);
    var before := Pending(files[1..][..k], snapshot);
    if files[0] !in snapshot {
      ConcatAssociative(applied, [files[0]], before);
    }
    assert files[k + 1] == files[1..][k];
  }

  /** A run that fails stops at one entry: no file after it is applied, and
      the failed file itself is not recorded. */
  lemma {:induction false} RunStopsAtFailure(files: seq<string>, snapshot: set<string>, applied: seq<string>, schema: seq<string>,
                                             readFile: string -> string, failures: string -> Option<string>)
    requires Run(files, snapshot, applied, schema, readFile, failures).result.Err?
    ensures exists k :: StoppedAt(files, snapshot, applied, schema, Run(files, snapshot, applied, schema, readFile, failures), k)
    decreases |files|
  {
    var run := Run(files, snapshot, applied, schema, readFile, failures);
    var f := files[0];
    if f in snapshot {
      RunStopsAtFailure(files[1..], snapshot, applied, schema, readFile, failures);
      var k :| StoppedAt(files[1..], snapshot, applied, schema, run, k);
      StoppedAtShift(files, snapshot, applied, schema, applied, schema, run, k);
    } else if failures(f).Some? || f in applied {
      assert files[..0] == [];
      assert StoppedAt(files, snapshot, applied, schema, run, 0);
    } else {
      var applied', schema' := applied + [f], schema + [readFile(f)];
      RunStopsAtFailure(files[1..], snapshot, applied', schema', readFile, failures);
      var k :| StoppedAt(files[1..], snapshot, applied', schema', run, k);
      StoppedAtShift(files, snapshot, applied, schema, applied', schema', run, k);
    }
  }

  /** The pending files of sorted entries come in ascending order. */
  lemma {:induction false} PendingSorted(files: seq<string>, snapshot: set<string>)
    requires SortedNames(files)
    ensures SortedNames(Pending(files, snapshot))
  {
    if files != [] {
      assert SortedNames(files[1..]) by {
        assert forall i, j :: 0 <= i < j < |files| - 1 ==> files[1..][i] == files[i + 1] && files[1..][j] == files[j + 1];
      }
      PendingSorted(files[1..], snapshot);
      var rest := Pending(files[1..], snapshot);
      if files[0] !in snapshot {
        var r := [files[0]] + rest;
        assert Pending(files, snapshot) == r;
        forall i, j | 0 <= i < j < |r| ensures NameLe(r[i], r[j]) {
          if i == 0 {
            assert r[j] in rest;
            var m :| 0 <= m < |files[1..]| && files[1..][m] == r[j];
            assert files[m + 1] == r[j];
          } else {
            assert r[i] == rest[i - 1] && r[j] == rest[j - 1];
          }
        }
      }
    }
  }

  /** A successful run over a listing keeps the recorded names as they were
      and appends, in ascending name order, exactly the SQL entries of the
      listing that the snapshot does not record. */
  lemma SuccessfulRunShape(names: seq<string>, snapshot: set<string>, applied: seq<string>, schema: seq<string>,
                           readFile: string -> string, failures: string -> Option<string>)
    requires Run(SortNames(SqlFiles(names)), snapshot, applied, schema, readFile, failures).result.Ok?
    ensures var run := Run(SortNames(SqlFiles(names)), snapshot, applied, schema, readFile, failures);
      && |applied| <= |run.applied| && run.applied[..|applied|] == applied
      && SortedNames(run.applied[|applied|..])
      && forall f :: f in run.applied[|applied|..] <==> f in names && IsSqlFile(f) && f !in snapshot
  {
    var entries := SortNames(SqlFiles(names));
    RunSucceeds(entries, snapshot, applied, schema, readFile, failures);
    SortNamesSorted(SqlFiles(names));
    PendingSorted(entries, snapshot);
    var run := Run(entries, snapshot, applied, schema, readFile, failures);
    assert run.applied[|applied|..] == Pending(entries, snapshot);
    forall f ensures f in entries <==> f in SqlFiles(names) {
      assert f in entries <==> f in multiset(entries);
    }
  }

  predicate Distinct(s: seq<string>) {
    forall i, j :: 0 <= i < j < |s| ==> s[i] != s[j]
  }

  /** The database side of the runner: the `schema_migrations` table, the
      scripts committed to the schema, and the pool's checked-out clients. */
  class MigrationStore {
    /** whether `schema_migrations` exists */
    var tableCreated: bool
    /** `schema_migrations.filename`, in insertion order */
    var applied: seq<string>
    /** the migration scripts committed so far, in order */
    var schema: seq<string>
    /** clients taken from the pool and not yet released */
    var checkedOut: nat

    /** A file is recorded at most once, with exactly one committed script. */
    ghost predicate Valid()
      reads this
    {
      Distinct(applied) && |applied| == |schema|
    }

    constructor ()
      ensures Valid() && !tableCreated && applied == [] && schema == [] && checkedOut == 0
    {
      tableCreated, applied, schema, checkedOut := false, [], [], 0;
    }

    /** `CREATE TABLE IF NOT EXISTS schema_migrations ...` */
    method EnsureMigrationsTable()
      modifies this`tableCreated
      ensures tableCreated
    {
      tableCreated := true;
    }

    /** applyMigration: in one transaction, runs the script and records the
      file name. `failure` is the cause the script fails with, if it does;
      the insert fails when the name is already recorded. Either both take
      effect or neither does, and the client is released on every path. */
    method ApplyMigration(file: string, sql: string, failure: Option<string>) returns (r: Result<()>)
      requires Valid()
      modifies this`applied, this`schema, this`checkedOut
      ensures Valid() && checkedOut == old(checkedOut)
      ensures failure.Some? ==> r == Err(FailureText(file, failure.value))
      ensures failure.None? && file in old(applied) ==> r == Err(FailureText(file, DuplicateKey))
      ensures r.Err? ==> applied == old(applied) && schema == old(schema)
      ensures r.Ok? <==> failure.None? && file !in old(applied)
      ensures r.Ok? ==> applied == old(applied) + [file] && schema == old(schema) + [sql]
    {
      checkedOut := checkedOut + 1;
      // BEGIN, then the script: a failing script is rolled back.
      if failure.Some? {
        checkedOut := checkedOut - 1;
        return Err(FailureText(file, failure.value));
      }
      // The record; the primary key refuses a name already recorded.
      if file in applied {
        checkedOut := checkedOut - 1;
        return Err(FailureText(file, DuplicateKey));
      }
      // COMMIT
      applied := applied + [file];
      schema := schema + [sql];
      checkedOut := checkedOut - 1;
      r := Ok(());
    }

    /** runMigrations, with the directory listing, the file contents and the
      script failures given. A blank directory argument fails before
      anything happens; a missing directory applies nothing; otherwise the
      run is `Run` over the sorted SQL entries with the names recorded when
      the run started as the snapshot. */
    method RunMigrations(dir: string, listing: Listing, readFile: string -> string, failures: string -> Option<string>)
      returns (r: Result<()>)
      requires Valid()
      modifies this
      ensures Valid() && checkedOut == old(checkedOut)
      ensures AllSpace(dir) ==> (r == Err(EmptyDir) && applied == old(applied) && schema == old(schema)
        && tableCreated == old(tableCreated))
      ensures !AllSpace(dir) ==> tableCreated
      ensures !AllSpace(dir) && listing.NoSuchDirectory? ==> r == Ok(()) && applied == old(applied) && schema == old(schema)
      ensures !AllSpace(dir) && listing.ReadError? ==> r == Err(listing.message) && applied == old(applied) && schema == old(schema)
      ensures !AllSpace(dir) && listing.Entries? ==>
        var run := Run(SortNames(SqlFiles(listing.names)), set f | f in old(applied), old(applied), old(schema), readFile, failures);
        r == run.result && applied == run.applied && schema == run.schema
    {
      if AllSpace(dir) {
        return Err(EmptyDir);
      }
      EnsureMigrationsTable();
      if listing.NoSuchDirectory? {
        return Ok(());
      }
      if listing.ReadError? {
        return Err(listing.message);
      }
      var entries := SortNames(SqlFiles(listing.names));
      var snapshot := set f | f in applied;
      ghost var start := Run(entries, snapshot, applied, schema, readFile, failures);
      for i := 0 to |entries|
        invariant Valid() && tableCreated && checkedOut == old(checkedOut)
        invariant start == Run(entries[i..], snapshot, applied, schema, readFile, failures)
      {
        var file := entries[i];
        assert entries[i..][1..] == entries[i + 1..];
        if file in snapshot {
          continue;
        }
        var sql := readFile(file);
        var applyResult := ApplyMigration(file, sql, failures(file));
        if applyResult.Err? {
          return applyResult;
        }
      }
      r := Ok(());
    }
  }
}
