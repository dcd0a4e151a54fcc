/** The migration runner (db/migrate.js): a baseline and sorted files, one transaction each. */
module Migrate {
  const BASELINE_VERSION := "0001_init"

  /** schema_migrations, and the scripts whose effects the database holds, both in order. */
  datatype State = State(log: seq<string>, schema: seq<string>)

  datatype Outcome = Outcome(db: State, ok: bool)

  /** One transaction: the script and its record, or neither. `broken` are the scripts that
      fail this time; a recorded version violates the primary key. */
  function ApplyVersion(db: State, version: string, broken: set<string>): Outcome {
    if version in broken || version in db.log then Outcome(db, false)
    else Outcome(State(db.log + [version], db.schema + [version]), true)
  }

  /** Apply versions until one fails. */
  function ApplyAll(db: State, todo: seq<string>, broken: set<string>): Outcome
    decreases |todo|
  {
    if todo == [] then Outcome(db, true)
    else
      var o := ApplyVersion(db, todo[0], broken);
      if o.ok then ApplyAll(o.db, todo[1..], broken) else o
  }

  function Missing(done: seq<string>, files: seq<string>): seq<string> {
    if files == [] then []
    else (if files[0] in done then [] else [files[0]]) + Missing(done, files[1..])
  }

  /** One run; what is done already is read once, at the start. */
  function Migrated(db: State, files: seq<string>, broken: set<string>): Outcome {
    ApplyAll(db, Missing(db.log, [BASELINE_VERSION] + files), broken)
  }

  class Database {
    var log: seq<string>
    var schema: seq<string>

    function Now(): State
      reads this
    {
      State(log, schema)
    }

    constructor ()
      ensures Now() == State([], [])
    {
      log, schema := [], [];
    }

    method Apply(version: string, broken: set<string>) returns (ok: bool)
      modifies this
      ensures Outcome(Now(), ok) == ApplyVersion(old(Now()), version, broken)
    {
      ghost var begin := Now();
      var savedLog, savedSchema := log, schema;
      if version in broken { return false; }
      schema := schema + [version];
      if version in log {
        log, schema := savedLog, savedSchema;
        return false;
      }
      log := log + [version];
      ok := true;
    }

    method MigrateLocked(files: seq<string>, broken: set<string>) returns (ok: bool)
      modifies this
      ensures Outcome(Now(), ok) == Migrated(old(Now()), files, broken)
    {
      var done := log;
      ghost var all := [BASELINE_VERSION] + files;
      ghost var goal := Migrated(old(Now()), files, broken);
      assert all[0] == BASELINE_VERSION && all[1..] == files;
      if BASELINE_VERSION !in done {
        SkipHead([BASELINE_VERSION], Missing(done, files), Now(), broken);
        ok := Apply(BASELINE_VERSION, broken);
        if !ok { return; }
      } else {
        assert [] + Missing(done, files) == Missing(done, files);
      }
      for i := 0 to |files|
        invariant ApplyAll(Now(), Missing(done, files[i..]), broken) == goal
      {
        assert files[i..][0] == files[i] && files[i..][1..] == files[i + 1..];
        var version := files[i];
        if version in done {
          assert [] + Missing(done, files[i + 1..]) == Missing(done, files[i + 1..]);
          continue;
        }
        SkipHead([version], Missing(done, files[i + 1..]), Now(), broken);
        ok := Apply(version, broken);
        if !ok { return; }
      }
      assert files[|files|..] == [];
      ok := true;
    }
  }

  lemma SkipHead(head: seq<string>, rest: seq<string>, db: State, broken: set<string>)
    requires |head| == 1
    ensures ApplyAll(db, head + rest, broken) ==
      var o := ApplyVersion(db, head[0], broken);
      if o.ok then ApplyAll(o.db, rest, broken) else o
  {
    assert (head + rest)[1..] == rest;
  }

  // ---- Crashes and restarts ----

  predicate Distinct(vs: seq<string>) { forall i, j :: 0 <= i < j < |vs| ==> vs[i] != vs[j] }

  /** Runs one after another, each failing wherever it fails. */
  function Runs(db: State, files: seq<string>, runs: seq<set<string>>): State {
    if runs == [] then db else Migrated(Runs(db, files, runs[..|runs| - 1]), files, runs[|runs| - 1]).db
  }

  /** A log that is a beginning of the plan misses exactly the rest of it. */
  lemma {:induction false} MissingIsRest(done: seq<string>, plan: seq<string>, n: nat)
    requires n <= |done| <= |plan| && done == plan[..|done|] && Distinct(plan)
    ensures Missing(done, plan[n..]) == plan[|done|..]
    decreases |plan| - n
  {
    if n < |done| {
      assert plan[n..][0] == plan[n] == done[n] && plan[n..][1..] == plan[n + 1..];
      MissingIsRest(done, plan, n + 1);
    } else {
      NothingDone(done, plan[n..]);
    }
  }

  lemma {:induction false} NothingDone(done: seq<string>, rest: seq<string>)
    requires forall v :: v in rest ==> v !in done
    ensures Missing(done, rest) == rest
  {
    if rest != [] {
      NothingDone(done, rest[1..]);
      assert rest == [rest[0]] + rest[1..];
    }
  }

  /** Applying the rest of a plan ends at a beginning of the plan, and at all of it on success. */
  lemma {:induction false} ApplyRest(plan: seq<string>, n: nat, broken: set<string>)
    requires n <= |plan| && Distinct(plan)
    ensures var o := ApplyAll(State(plan[..n], plan[..n]), plan[n..], broken);
      && n <= |o.db.log| <= |plan| && o.db == State(plan[..|o.db.log|], plan[..|o.db.log|])
      && (o.ok <==> |o.db.log| == |plan|)
      && (o.ok <==> forall v :: v in plan[n..] ==> v !in broken)
    decreases |plan| - n
  {
    if n < |plan| {
      assert plan[n..][0] == plan[n] && plan[n..][1..] == plan[n + 1..];
      assert plan[n..] == [plan[n]] + plan[n + 1..];
      assert plan[..n] + [plan[n]] == plan[..n + 1];
      ApplyRest(plan, n + 1, broken);
    }
  }

  /** Whatever fails in whichever run: the log stays a beginning of baseline and sorted files, without
      repeats, the schema is what the log says; a run succeeds exactly when nothing it had left is
      broken, and then the database is that of one clean run. */
  lemma {:induction false} RestartsAreSafe(files: seq<string>, runs: seq<set<string>>, broken: set<string>)
    requires Distinct([BASELINE_VERSION] + files)
    ensures var plan, db := [BASELINE_VERSION] + files, Runs(State([], []), files, runs);
      && |db.log| <= |plan| && db == State(plan[..|db.log|], plan[..|db.log|])
      && var o := Migrated(db, files, broken);
         && (o.ok <==> forall v :: v in plan[|db.log|..] ==> v !in broken)
         && (o.ok ==> o.db == Migrated(State([], []), files, {}).db == State(plan, plan))
  {
    var plan := [BASELINE_VERSION] + files;
    RunsArePrefixes(files, runs);
    var n := |Runs(State([], []), files, runs).log|;
    OneRun(files, n, broken);
    OneRun(files, 0, {});
    assert plan[..0] == [];
    assert plan[..|plan|] == plan;
  }

  lemma OneRun(files: seq<string>, n: nat, broken: set<string>)
    requires Distinct([BASELINE_VERSION] + files) && n <= 1 + |files|
    ensures var plan := [BASELINE_VERSION] + files;
      var o := Migrated(State(plan[..n], plan[..n]), files, broken);
      && n <= |o.db.log| <= |plan| && o.db == State(plan[..|o.db.log|], plan[..|o.db.log|])
      && (o.ok <==> |o.db.log| == |plan|)
      && (o.ok <==> forall v :: v in plan[n..] ==> v !in broken)
  {
    var plan := [BASELINE_VERSION] + files;
    MissingIsRest(plan[..n], plan, 0);
    assert plan[0..] == plan;
    ApplyRest(plan, n, broken);
  }

  lemma {:induction false} RunsArePrefixes(files: seq<string>, runs: seq<set<string>>)
    requires Distinct([BASELINE_VERSION] + files)
    ensures var plan, db := [BASELINE_VERSION] + files, Runs(State([], []), files, runs);
      |db.log| <= |plan| && db == State(plan[..|db.log|], plan[..|db.log|])
  {
    if runs != [] {
      RunsArePrefixes(files, runs[..|runs| - 1]);
      OneRun(files, |Runs(State([], []), files, runs[..|runs| - 1]).log|, runs[|runs| - 1]);
    }
  }

  /** With distinct files and nothing broken, the very first run succeeds exactly when no file
      bears the baseline's name. */
  lemma FirstRunSucceedsExactly(files: seq<string>)
    requires Distinct(files)
    ensures Migrated(State([], []), files, {}).ok <==> BASELINE_VERSION !in files
  {
    NothingDone([], [BASELINE_VERSION] + files);
    SkipHead([BASELINE_VERSION], files, State([], []), {});
    assert [] + [BASELINE_VERSION] == [BASELINE_VERSION];
    CleanRun([BASELINE_VERSION], files);
  }

  lemma {:induction false} CleanRun(log: seq<string>, files: seq<string>)
    requires Distinct(files)
    ensures ApplyAll(State(log, log), files, {}).ok <==> forall v :: v in files ==> v !in log
    decreases |files|
  {
    if files != [] {
      assert files == [files[0]] + files[1..];
      if files[0] !in log { CleanRun(log + [files[0]], files[1..]); }
    }
  }
}
