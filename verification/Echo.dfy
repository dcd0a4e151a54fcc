/** Everything pulled and pushed back: the sync echo that `wireToRow` is written to avoid. */
module Echo {
  import opened Rows
  import opened Tables
  import opened Apply
  import opened Paging
  import opened Drain

  /** The wire entries of a delivery. */
  function Pulled(rows: seq<Row>): seq<Wire> { seq(|rows|, i requires 0 <= i < |rows| => RowToWire(rows[i])) }

  lemma {:induction false} EchoIsStale(s: Schema, t: map<Key, Row>, user: UserId, rows: seq<Row>)
    requires forall q :: q in rows ==> Existing(s, t, user, q.id) == Some(q)
    ensures PlanOf(s, t, user, Pulled(rows)) == Plan([], [], Pulled(rows))
  {
    if rows != [] {
      var init, q := rows[..|rows| - 1], rows[|rows| - 1];
      assert rows == init + [q];
      assert q in rows;
      EchoIsStale(s, t, user, init);
      assert Pulled(rows)[..|rows| - 1] == Pulled(init);
      assert Decide(s, t, user, RowToWire(q)) == Skip;
      assert Pulled(init) + [RowToWire(q)] == Pulled(rows);
    }
  }

  /** Entries read from the server and pushed back are all skipped and change nothing,
      whatever resolution the stamps have. */
  lemma PushBackIsSkipped(s: Schema, t: map<Key, Row>, user: UserId, now: Stamp, rows: seq<Row>)
    requires forall q :: q in rows ==> Existing(s, t, user, q.id) == Some(q)
    ensures ApplyBatch(s, t, user, now, Pulled(rows)) == Result(t, Counts(0, 0, |rows|, []))
  {
    EchoIsStale(s, t, user, rows);
    assert ToRows([], user, now) == [];
    assert Greedy(s, t, []) == Inserted(t, []) && UpdateAll(s, t, user, []) == Inserted(t, []);
  }

  lemma DeliveredAreStored(s: Schema, t: map<Key, Row>, user: UserId, since: Stamp, rows: seq<Row>)
    requires TableOk(s, t) && Elems(rows) <= RowsAfter(t, user, since)
    ensures forall q :: q in rows ==> Existing(s, t, user, q.id) == Some(q)
  {
    assert forall q :: q in rows ==> q in Elems(rows);
  }

  /** Drain a store that nobody writes to, then push all of it back. */
  method PullThenPush(t: Table, user: UserId, since: Stamp, limit: nat, now: Stamp) returns (counts: Counts)
    requires t.Valid() && limit >= 1 && Aligned(t.rows, user)
    modifies t
    ensures t.Valid() && t.rows == old(t.rows)
    ensures counts == Counts(0, 0, |RowsAfter(old(t.rows), user, since)|, [])
  {
    var delivered, cursor := DrainAll(t, user, since, limit);
    CardinalityOfElems(delivered);
    DeliveredAreStored(t.schema, t.rows, user, since, delivered);
    PushBackIsSkipped(t.schema, t.rows, user, now, delivered);
    counts := ApplyEntries(t, user, now, Pulled(delivered));
  }
}
