/** Acknowledging rows (api/routes/syncResource.js `_mountAck`), through the query builder. */
module Ack {
  import opened Rows
  import opened Seqs
  import opened Sql
  import opened Builder

  const MaxIds := 500

  function Cut(ids: seq<Id>): seq<Id> { if |ids| > MaxIds then ids[..MaxIds] else ids }

  /** A row of the user, named in the request, that nobody has acknowledged yet. */
  predicate Pending(user: UserId, ids: seq<Id>, r: Record) {
    && Get(r, "user_id") == Num(user)
    && (exists id :: id in ids && Get(r, "id") == Num(id))
    && Get(r, "synced_at") == Null
  }

  function Acked(user: UserId, ids: seq<Id>, now: Val, table: seq<Record>): seq<Record> {
    Changed(r => Pending(user, ids, r), map["synced_at" := now], table)
  }

  function Count(user: UserId, ids: seq<Id>, table: seq<Record>): nat {
    |Keep(r => Pending(user, ids, r), table)|
  }

  function Nums(ids: seq<Id>): seq<Val> { seq(|ids|, i requires 0 <= i < |ids| => Num(ids[i])) }

  ghost function Filters(user: UserId, ids: seq<Id>): seq<Builder.Filter> {
    [Filter("user_id", Eq, Num(user)), Filter("id", In, Arr(Nums(Cut(ids)))), Filter("synced_at", Is, Null)]
  }

  lemma PassesIsPending(less: (Val, Val) -> bool, user: UserId, ids: seq<Id>, r: Record)
    ensures Passes(less, Filters(user, ids), r) <==> Pending(user, Cut(ids), r)
  {
    var fs, items := Filters(user, ids), Nums(Cut(ids));
    assert Passes(less, fs, r) <==> Holds(less, fs[0], r) && Holds(less, fs[1], r) && Holds(less, fs[2], r);
    if Pending(user, Cut(ids), r) {
      var id :| id in Cut(ids) && Get(r, "id") == Num(id);
      var i :| 0 <= i < |Cut(ids)| && Cut(ids)[i] == id;
      assert items[i] == Num(id);
    }
    if Get(r, "id") in items {
      var i :| 0 <= i < |items| && items[i] == Get(r, "id");
      assert Cut(ids)[i] in Cut(ids);
    }
  }

  /** The handler, on the rows of the resource's table; None is a 400 for an empty request. It stamps
      exactly the caller's unacknowledged rows among the first 500 ids and counts exactly those. */
  method AckRows(t: Types, db: Server, table: seq<Record>, user: UserId, ids: seq<Id>, now: int)
    returns (table': seq<Record>, acked: Option<nat>)
    ensures ids == [] ==> acked == None && table' == table
    ensures ids != [] ==> acked == Some(Count(user, Cut(ids), table))
    ensures ids != [] ==> table' == Acked(user, Cut(ids), Num(now), table)
  {
    if ids == [] { return table, None; }
    var q := new PgQuery(t);
    q.UpdateWith([("synced_at", Num(now))], true);
    q.AddFilter("user_id", Eq, Num(user));
    q.AddFilter("id", In, Arr(Nums(Cut(ids))));
    q.AddFilter("synced_at", Is, Null);
    assert q.state.filters == Filters(user, ids);
    var res := q.Run(db, table, []);
    CompilesExactly(t, q.state);
    ghost var e :| Does(db, t, q.state, table, e) && Outcome(q.state, e, res.value);
    UpdateIsAck(db, t, q.state, user, ids, Num(now), table, e);
    table', acked := res.value.0, Some(res.value.2.value.n);
  }

  lemma UpdateIsAck(db: Server, t: Types, q: Query, user: UserId, ids: seq<Id>, now: Val,
                    table: seq<Record>, e: Effect)
    requires now.Num? && q.op == Update && q.payload == [[("synced_at", now)]] && q.filters == Filters(user, ids)
    requires Does(db, t, q, table, e)
    ensures e.table == Acked(user, Cut(ids), now, table) && e.affected == Count(user, Cut(ids), table)
  {
    var set_ := RecordOf(db, t, Keys(q.payload[0]), q.payload[0]);
    assert set_ == map["synced_at" := now] by {
      assert Keys(q.payload[0]) == ["synced_at"];
    }
    forall r ensures Passes(db.less, q.filters, r) == Pending(user, Cut(ids), r) {
      PassesIsPending(db.less, user, ids, r);
    }
    KeepSame(r => Passes(db.less, q.filters, r), r => Pending(user, Cut(ids), r), table);
    assert Changed(r => Passes(db.less, q.filters, r), set_, table) == Acked(user, Cut(ids), now, table);
  }

  /** One of the first 500 ids is the row's. */
  ghost predicate AmongFirst(ids: seq<Id>, r: Record) {
    exists i :: 0 <= i < |ids| && i < 500 && Get(r, "id") == Num(ids[i])
  }

  /** The caller's row, named among the first 500 ids and not acknowledged yet. */
  ghost predicate Due(user: UserId, ids: seq<Id>, r: Record) {
    Get(r, "user_id") == Num(user) && AmongFirst(ids, r) && Get(r, "synced_at") == Null
  }

  lemma PendingIsDue(user: UserId, ids: seq<Id>, r: Record)
    ensures Pending(user, Cut(ids), r) <==> Due(user, ids, r)
  {
    var cut := Cut(ids);
    if AmongFirst(ids, r) {
      var i :| 0 <= i < |ids| && i < 500 && Get(r, "id") == Num(ids[i]);
      assert cut[i] in cut;
    }
    if exists id :: id in cut && Get(r, "id") == Num(id) {
      var id :| id in cut && Get(r, "id") == Num(id);
      var i :| 0 <= i < |cut| && cut[i] == id;
      assert ids[i] == id;
    }
  }

  /** What becomes of each row: one that is due has its stamp set and nothing else, every other row stays, and
      no row comes or goes. */
  lemma AckedRow(user: UserId, ids: seq<Id>, now: Val, table: seq<Record>, k: nat)
    ensures |Acked(user, Cut(ids), now, table)| == |table|
    ensures k < |table| && Due(user, ids, table[k]) ==>
      Acked(user, Cut(ids), now, table)[k] == table[k]["synced_at" := now]
    ensures k < |table| && !Due(user, ids, table[k]) ==> Acked(user, Cut(ids), now, table)[k] == table[k]
  {
    if k < |table| { PendingIsDue(user, ids, table[k]); }
  }

  /** Acknowledging twice is acknowledging once: the repeat finds nothing and changes nothing. */
  lemma {:induction false} SecondAckIsIdle(user: UserId, ids: seq<Id>, now: Val, later: Val, table: seq<Record>)
    requires now != Null
    ensures Count(user, ids, Acked(user, ids, now, table)) == 0
    ensures Acked(user, ids, later, Acked(user, ids, now, table)) == Acked(user, ids, now, table)
  {
    var p, done := (r: Record) => Pending(user, ids, r), Acked(user, ids, now, table);
    forall i | 0 <= i < |done| ensures !p(done[i]) {}
    KeepNone(p, done);
  }

  /** Rows whose acknowledgement is outstanding drop by exactly the reported count; ids without a
      row, of another user or already acknowledged are not counted. */
  lemma {:induction false} CountIsTheDrop(user: UserId, ids: seq<Id>, now: Val, table: seq<Record>)
    requires now != Null
    ensures var open := (r: Record) => Get(r, "synced_at") == Null;
      |Keep(open, table)| == |Keep(open, Acked(user, ids, now, table))| + Count(user, ids, table)
  {
    if table != [] {
      var init, done := table[..|table| - 1], Acked(user, ids, now, table);
      CountIsTheDrop(user, ids, now, init);
      assert done[..|done| - 1] == Acked(user, ids, now, init);
    }
  }
}
