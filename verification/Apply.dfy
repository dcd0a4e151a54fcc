/** POST /apply: one batch of entries against one snapshot (api/routes/syncResource.js `_mountApply`). */
module Apply {
  import opened Rows
  import opened Tables

  datatype Action = Insert | Update | Skip

  /** Last writer wins, on the millisecond. An entry without a stamp parses to an
      invalid date, which is not `<=` anything, so it is never stale. */
  function DecideMerge(existing: Option<Row>, e: Wire): Action {
    if existing.None? then Insert
    else if e.updatedAt.Some? && Ms(e.updatedAt.value) <= Ms(existing.value.updatedAt) then Skip
    else Update
  }

  function Decide(s: Schema, t: map<Key, Row>, user: UserId, e: Wire): Action {
    DecideMerge(Existing(s, t, user, e.id), e)
  }

  /** The entries of a batch by decision, each in batch order. */
  datatype Plan = Plan(ins: seq<Wire>, upd: seq<Wire>, skip: seq<Wire>)

  function PlanOf(s: Schema, t: map<Key, Row>, user: UserId, es: seq<Wire>): Plan {
    if es == [] then Plan([], [], [])
    else
      var p, e := PlanOf(s, t, user, es[..|es| - 1]), es[|es| - 1];
      match Decide(s, t, user, e)
      case Insert => p.(ins := p.ins + [e])
      case Update => p.(upd := p.upd + [e])
      case Skip => p.(skip := p.skip + [e])
  }

  function ToRows(es: seq<Wire>, user: UserId, now: Stamp): seq<Row> {
    seq(|es|, i requires 0 <= i < |es| => WireToRow(es[i], user, now))
  }

  /** UPDATE statements one after another. */
  function UpdateAll(s: Schema, t: map<Key, Row>, user: UserId, ws: seq<Row>): Inserted {
    if ws == [] then Inserted(t, [])
    else
      var before := UpdateAll(s, t, user, ws[..|ws| - 1]);
      var last := UpdateOne(s, before.rows, user, ws[|ws| - 1]);
      Inserted(last.rows, before.failed + last.failed)
  }

  datatype Counts = Counts(inserted: int, updated: int, skipped: int, errors: seq<Id>)

  datatype Result = Result(rows: map<Key, Row>, counts: Counts)

  /** What one batch leaves in the table and what it reports. */
  function ApplyBatch(s: Schema, t: map<Key, Row>, user: UserId, now: Stamp, es: seq<Wire>): Result {
    var p := PlanOf(s, t, user, es);
    var g := Greedy(s, t, ToRows(p.ins, user, now));
    var u := UpdateAll(s, g.rows, user, ToRows(p.upd, user, now));
    Result(u.rows, Counts(|p.ins| - |g.failed|, |p.upd| - |u.failed|, |p.skip|, g.failed + u.failed))
  }

  method UpdateRows(t: Table, user: UserId, toUpdate: seq<Row>) returns (failedIds: seq<Id>)
    requires t.Valid()
    modifies t
    ensures t.Valid()
    ensures Inserted(t.rows, failedIds) == UpdateAll(t.schema, old(t.rows), user, toUpdate)
  {
    failedIds := [];
    ghost var start := t.rows;
    for i := 0 to |toUpdate|
      invariant t.Valid()
      invariant Inserted(t.rows, failedIds) == UpdateAll(t.schema, start, user, toUpdate[..i])
    {
      assert toUpdate[..i + 1][..i] == toUpdate[..i];
      var ok := t.Update(user, toUpdate[i]);
      if !ok { failedIds := failedIds + [toUpdate[i].id]; }
    }
    assert toUpdate[..|toUpdate|] == toUpdate;
  }

  lemma ToRowsSnoc(es: seq<Wire>, e: Wire, user: UserId, now: Stamp)
    ensures ToRows(es + [e], user, now) == ToRows(es, user, now) + [WireToRow(e, user, now)]
  {}

  /** The decision loop: it reads the snapshot and fills the two work lists. */
  method DecideEntries(s: Schema, existingRows: map<Key, Row>, user: UserId, now: Stamp, entries: seq<Wire>)
    returns (toInsert: seq<Row>, toUpdate: seq<Row>, skipped: int)
    ensures var p := PlanOf(s, existingRows, user, entries);
      toInsert == ToRows(p.ins, user, now) && toUpdate == ToRows(p.upd, user, now) && skipped == |p.skip|
  {
    toInsert, toUpdate, skipped := [], [], 0;
    for i := 0 to |entries|
      invariant var p := PlanOf(s, existingRows, user, entries[..i]);
        toInsert == ToRows(p.ins, user, now) && toUpdate == ToRows(p.upd, user, now) && skipped == |p.skip|
    {
      assert entries[..i + 1][..i] == entries[..i];
      var entry := entries[i];
      ghost var p := PlanOf(s, existingRows, user, entries[..i]);
      var decision := Decide(s, existingRows, user, entry);
      if decision == Skip {
        skipped := skipped + 1;
      } else if decision == Insert {
        ToRowsSnoc(p.ins, entry, user, now);
        toInsert := toInsert + [WireToRow(entry, user, now)];
      } else {
        ToRowsSnoc(p.upd, entry, user, now);
        toUpdate := toUpdate + [WireToRow(entry, user, now)];
      }
    }
    assert entries[..|entries|] == entries;
  }

  method ApplyEntries(t: Table, user: UserId, now: Stamp, entries: seq<Wire>) returns (counts: Counts)
    requires t.Valid()
    modifies t
    ensures t.Valid()
    ensures Result(t.rows, counts) == ApplyBatch(t.schema, old(t.rows), user, now, entries)
  {
    var existingRows := t.rows;
    var toInsert, toUpdate, skipped := DecideEntries(t.schema, existingRows, user, now, entries);
    var inserted, updated, errorIds := |toInsert|, |toUpdate|, [];
    var insertFails := InsertWithRowRetry(t, toInsert);
    if |insertFails| > 0 {
      inserted := inserted - |insertFails|;
      errorIds := errorIds + insertFails;
    }
    var updateFails := UpdateRows(t, user, toUpdate);
    updated := updated - |updateFails|;
    errorIds := errorIds + updateFails;
    counts := Counts(inserted, updated, skipped, errorIds);
  }

  // ---- Accounting and isolation ----

  /** `t'` differs from `t` only in rows of `user`, and drops no row. */
  ghost predicate TouchesOnly(t: map<Key, Row>, t': map<Key, Row>, user: UserId) {
    && t.Keys <= t'.Keys
    && (forall k :: k in t && t[k] != t'[k] ==> t[k].user == user && t'[k].user == user)
    && (forall k :: k in t' && k !in t ==> t'[k].user == user)
  }

  /** Which entries a plan holds: each entry of the batch under its decision. */
  lemma {:induction false} PlanHolds(s: Schema, t: map<Key, Row>, user: UserId, es: seq<Wire>)
    ensures var p := PlanOf(s, t, user, es);
      && (forall e :: e in p.ins <==> e in es && Decide(s, t, user, e) == Insert)
      && (forall e :: e in p.upd <==> e in es && Decide(s, t, user, e) == Update)
      && (forall e :: e in p.skip <==> e in es && Decide(s, t, user, e) == Skip)
  {
    if es != [] {
      PlanHolds(s, t, user, es[..|es| - 1]);
      assert es == es[..|es| - 1] + [es[|es| - 1]];
    }
  }

  lemma {:induction false} PlanSize(s: Schema, t: map<Key, Row>, user: UserId, es: seq<Wire>)
    ensures var p := PlanOf(s, t, user, es); |p.ins| + |p.upd| + |p.skip| == |es|
  {
    if es != [] { PlanSize(s, t, user, es[..|es| - 1]); }
  }

  lemma {:induction false} UpdatesStayPut(s: Schema, t: map<Key, Row>, user: UserId, ws: seq<Row>)
    requires SubsetClosed(s) && TableOk(s, t)
    ensures var u := UpdateAll(s, t, user, ws);
      && TouchesOnly(t, u.rows, user) && u.rows.Keys == t.Keys && TableOk(s, u.rows)
      && |u.failed| <= |ws|
  {
    if ws != [] { UpdatesStayPut(s, t, user, ws[..|ws| - 1]); }
  }

  lemma GreedyTouchesOnly(s: Schema, t: map<Key, Row>, user: UserId, now: Stamp, es: seq<Wire>)
    requires SubsetClosed(s) && TableOk(s, t)
    ensures TouchesOnly(t, Greedy(s, t, ToRows(es, user, now)).rows, user)
  {
    GreedyKeeps(s, t, ToRows(es, user, now));
  }

  lemma SameKeysSameSize(a: map<Key, Row>, b: map<Key, Row>)
    requires a.Keys == b.Keys
    ensures |a| == |b|
  {
    assert |a| == |a.Keys| && |b| == |b.Keys|;
  }

  lemma NoSmaller(a: map<Key, Row>, b: map<Key, Row>)
    requires a.Keys <= b.Keys
    ensures |a| <= |b|
  {
    assert b.Keys == a.Keys + (b.Keys - a.Keys);
    assert |a| == |a.Keys| && |b| == |b.Keys|;
  }

  /** Whatever the constraint refuses: the four outcomes add up to the batch,
      `inserted` is the number of rows gained, and no other user's row changes. */
  lemma ApplyAccounts(s: Schema, t: map<Key, Row>, user: UserId, now: Stamp, es: seq<Wire>)
    requires SubsetClosed(s) && TableOk(s, t)
    ensures var r := ApplyBatch(s, t, user, now, es);
      && r.counts.inserted + r.counts.updated + r.counts.skipped + |r.counts.errors| == |es|
      && r.counts.inserted == |r.rows| - |t|
      && r.counts.inserted >= 0 && r.counts.updated >= 0
      && TableOk(s, r.rows) && TouchesOnly(t, r.rows, user)
  {
    var p := PlanOf(s, t, user, es);
    PlanSize(s, t, user, es);
    var ins := ToRows(p.ins, user, now);
    GreedyKeeps(s, t, ins);
    GreedyTouchesOnly(s, t, user, now, p.ins);
    var g := Greedy(s, t, ins);
    UpdatesStayPut(s, g.rows, user, ToRows(p.upd, user, now));
    SameKeysSameSize(g.rows, UpdateAll(s, g.rows, user, ToRows(p.upd, user, now)).rows);
    NoSmaller(t, g.rows);
  }

  // ---- What a write leaves alone ----

  /** Rows of `t` are in `t'` with the acknowledgement they had; new rows have none. */
  ghost predicate KeepsAcks(t: map<Key, Row>, t': map<Key, Row>) {
    t.Keys <= t'.Keys && forall k :: k in t' ==> t'[k].syncedAt == if k in t then t[k].syncedAt else None
  }

  lemma {:induction false} InsertsKeepAcks(s: Schema, t: map<Key, Row>, user: UserId, now: Stamp, es: seq<Wire>)
    ensures KeepsAcks(t, Greedy(s, t, ToRows(es, user, now)).rows)
  {
    if es != [] {
      var init, e := es[..|es| - 1], es[|es| - 1];
      InsertsKeepAcks(s, t, user, now, init);
      assert ToRows(es, user, now)[..|es| - 1] == ToRows(init, user, now);
    }
  }

  lemma {:induction false} UpdatesKeepAcks(s: Schema, t: map<Key, Row>, user: UserId, ws: seq<Row>)
    ensures var u := UpdateAll(s, t, user, ws).rows;
      u.Keys == t.Keys && forall k :: k in u ==> u[k].syncedAt == t[k].syncedAt
  {
    if ws != [] { UpdatesKeepAcks(s, t, user, ws[..|ws| - 1]); }
  }

  /** For any schema, table and batch: applying entries drops no row and touches no acknowledgement, and a new
      row has none. */
  lemma ApplyKeepsAcks(s: Schema, t: map<Key, Row>, user: UserId, now: Stamp, es: seq<Wire>)
    ensures KeepsAcks(t, ApplyBatch(s, t, user, now, es).rows)
  {
    var p := PlanOf(s, t, user, es);
    InsertsKeepAcks(s, t, user, now, p.ins);
    UpdatesKeepAcks(s, Greedy(s, t, ToRows(p.ins, user, now)).rows, user, ToRows(p.upd, user, now));
  }
}
