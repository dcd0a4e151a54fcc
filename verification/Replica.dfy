/** A client that pulls pages while anybody applies batches: what it holds at every moment. */
module Replica {
  import opened Rows
  import opened Tables
  import opened Apply
  import opened Batches
  import opened Paging
  import opened Drain

  /** Between two pulls, between the two queries of one pull, or with a page on its way. */
  datatype Phase = Idle | Reading(first: seq<Row>) | Arriving(rows: seq<Row>, next: Stamp, more: bool)

  datatype State = State(server: map<Key, Row>, replica: map<Id, Wire>, cursor: Stamp, phase: Phase)

  type Limit = n: nat | n >= 1 witness 1

  datatype Sync = Sync(s: Schema, user: UserId, limit: Limit) {
    ghost predicate Ok() { SubsetClosed(s) }

    function Mine(t: map<Key, Row>, id: Id): Option<Row> { Existing(s, t, user, id) }

    /** A write stamped here cannot slip under the puller's cursor. */
    ghost predicate Ahead(st: State, stamp: Stamp) {
      match st.phase
      case Idle => stamp > st.cursor
      case Reading(first) => CutPage(first, limit).Group? && stamp >= CutPage(first, limit).stamp
      case Arriving(_, next, _) => stamp > next
    }

    // ---- Steps ----

    ghost predicate ApplyStep(st: State, st': State, writer: UserId, now: Stamp, es: seq<Wire>) {
      && st' == st.(server := ApplyBatch(s, st.server, writer, now, es).rows)
      && (writer == user ==> forall e :: e in es ==>
            && e.updatedAt.Some? && Whole(e.updatedAt.value)
            && (Decide(s, st.server, user, e) == Skip || Ahead(st, e.updatedAt.value)))
    }

    ghost predicate FirstStep(st: State, st': State, first: seq<Row>) {
      && st.phase == Idle && IsLimited(RowsAfter(st.server, user, st.cursor), limit, first)
      && st' == st.(phase := match CutPage(first, limit)
                             case Page(rows, more) => Arriving(rows, Cursor(st.cursor, rows), more)
                             case Group(_) => Reading(first))
    }

    ghost predicate SecondStep(st: State, st': State, rows: seq<Row>) {
      && st.phase.Reading? && CutPage(st.phase.first, limit).Group?
      && IsGroup(st.server, user, CutPage(st.phase.first, limit).stamp, rows)
      && st' == st.(phase := Arriving(rows, Cursor(st.cursor, rows), true))
    }

    ghost predicate DeliverStep(st: State, st': State) {
      && st.phase.Arriving?
      && st' == State(st.server, Merge(st.replica, st.phase.rows), st.phase.next, Idle)
    }

    ghost predicate Next(st: State, st': State) {
      || (exists writer, now, es :: ApplyStep(st, st', writer, now, es))
      || (exists first :: FirstStep(st, st', first))
      || (exists rows :: SecondStep(st, st', rows))
      || DeliverStep(st, st')
    }

    /** An empty replica whose cursor lies below everything stored. */
    ghost predicate Init(st: State) {
      && TableOk(s, st.server) && Aligned(st.server, user)
      && st.replica == map[] && st.phase == Idle
      && forall k :: k in st.server && st.server[k].user == user ==> st.server[k].updatedAt > st.cursor
    }

    ghost predicate Run(run: seq<State>) {
      && run != [] && Init(run[0])
      && forall i :: 0 < i < |run| ==> Next(run[i - 1], run[i])
    }

    // ---- Invariant ----

    /** `w` is a version of entry `id` that the server holds or has overwritten with a newer one. */
    ghost predicate Known(t: map<Key, Row>, id: Id, w: Wire) {
      match Mine(t, id)
      case None => false
      case Some(r) => w.updatedAt.Some? && w.updatedAt.value <= r.updatedAt
                      && (w.updatedAt.value == r.updatedAt ==> w == RowToWire(r))
    }

    /** Every row up to the cursor is in the replica, in its current version. */
    ghost predicate Synced(t: map<Key, Row>, replica: map<Id, Wire>, cursor: Stamp) {
      forall id :: Mine(t, id).Some? && Mine(t, id).value.updatedAt <= cursor ==>
        id in replica && replica[id] == RowToWire(Mine(t, id).value)
    }

    /** Every row up to `next` is in the replica or on its way. */
    ghost predicate Covered(st: State, rows: seq<Row>, next: Stamp) {
      forall id :: Mine(st.server, id).Some? && st.cursor < Mine(st.server, id).value.updatedAt <= next ==>
        Mine(st.server, id).value in rows
    }

    ghost predicate Inv(st: State) {
      && TableOk(s, st.server) && Aligned(st.server, user)
      && (forall id :: id in st.replica ==> Known(st.server, id, st.replica[id]))
      && Synced(st.server, st.replica, st.cursor)
      && match st.phase
         case Idle => true
         case Reading(first) =>
           CutPage(first, limit).Group? && CutPage(first, limit).stamp > st.cursor
           && Covered(st, [], CutPage(first, limit).stamp - 1)
         case Arriving(rows, next, _) =>
           next >= st.cursor && Covered(st, rows, next)
           && forall q :: q in rows ==> Known(st.server, q.id, RowToWire(q))
    }
  }

  /** Merge a page into the replica, a newer version replacing an older one. */
  function Merge(replica: map<Id, Wire>, rows: seq<Row>): map<Id, Wire> {
    if rows == [] then replica
    else
      var m, w := Merge(replica, rows[..|rows| - 1]), RowToWire(rows[|rows| - 1]);
      if w.id in m && m[w.id].updatedAt.Some? && m[w.id].updatedAt.value >= w.updatedAt.value then m
      else m[w.id := w]
  }

  lemma {:induction false} MergeKeepsKnown(y: Sync, t: map<Key, Row>, replica: map<Id, Wire>, rows: seq<Row>)
    requires forall id :: id in replica ==> y.Known(t, id, replica[id])
    requires forall q :: q in rows ==> y.Known(t, q.id, RowToWire(q))
    ensures forall id :: id in Merge(replica, rows) ==> y.Known(t, id, Merge(replica, rows)[id])
  {
    if rows != [] {
      assert rows == rows[..|rows| - 1] + [rows[|rows| - 1]];
      MergeKeepsKnown(y, t, replica, rows[..|rows| - 1]);
    }
  }

  /** The current version of an entry is in the merged replica if it was held or arrives. */
  lemma {:induction false} MergeTakesCurrent(y: Sync, t: map<Key, Row>, replica: map<Id, Wire>, rows: seq<Row>, id: Id)
    requires WellKeyed(y.s, t) && y.Mine(t, id).Some? && Whole(y.Mine(t, id).value.updatedAt)
    requires forall i :: i in replica ==> y.Known(t, i, replica[i])
    requires forall q :: q in rows ==> y.Known(t, q.id, RowToWire(q))
    requires y.Mine(t, id).value in rows || (id in replica && replica[id] == RowToWire(y.Mine(t, id).value))
    ensures var m := Merge(replica, rows); id in m && m[id] == RowToWire(y.Mine(t, id).value)
  {
    var r := y.Mine(t, id).value;
    assert r.id == id && RowToWire(r).updatedAt == Some(r.updatedAt);
    if rows != [] {
      var init, last := rows[..|rows| - 1], rows[|rows| - 1];
      assert rows == init + [last];
      MergeKeepsKnown(y, t, replica, init);
      if r in init || (id in replica && replica[id] == RowToWire(r)) {
        MergeTakesCurrent(y, t, replica, init, id);
      }
    }
  }

  // ---- Writes ----

  /** Row `r` under key `k` was written by an accepted entry of the batch. */
  ghost predicate WrittenBy(s: Schema, t: map<Key, Row>, user: UserId, now: Stamp, es: seq<Wire>, k: Key, r: Row) {
    exists e :: e in es && Decide(s, t, user, e) != Skip && k == s.At(user, e.id)
                && r.updatedAt == WireToRow(e, user, now).updatedAt
  }

  lemma {:induction false} UpdatesWrite(s: Schema, t: map<Key, Row>, user: UserId, ws: seq<Row>)
    ensures var u := UpdateAll(s, t, user, ws).rows;
      u.Keys == t.Keys && forall k :: k in u && u[k] != t[k] ==>
        exists w :: w in ws && k == s.At(user, w.id) && u[k].updatedAt == w.updatedAt
  {
    if ws != [] {
      UpdatesWrite(s, t, user, ws[..|ws| - 1]);
      assert ws == ws[..|ws| - 1] + [ws[|ws| - 1]];
      assert ws[|ws| - 1] in ws && forall w :: w in ws[..|ws| - 1] ==> w in ws;
    }
  }

  /** A batch changes rows only to the stamps of its accepted entries. */
  lemma BatchWrites(s: Schema, t: map<Key, Row>, user: UserId, now: Stamp, es: seq<Wire>)
    requires SubsetClosed(s) && TableOk(s, t)
    ensures var r := ApplyBatch(s, t, user, now, es).rows;
      forall k :: k in r && !(k in t && r[k] == t[k]) ==> WrittenBy(s, t, user, now, es, k, r[k])
  {
    var p := PlanOf(s, t, user, es);
    var g := Greedy(s, t, ToRows(p.ins, user, now)).rows;
    PlanHolds(s, t, user, es);
    GreedyKeeps(s, t, ToRows(p.ins, user, now));
    UpdatesWrite(s, g, user, ToRows(p.upd, user, now));
    var r := ApplyBatch(s, t, user, now, es).rows;
    forall k | k in r && !(k in t && r[k] == t[k]) ensures WrittenBy(s, t, user, now, es, k, r[k]) {
      if r[k] != g[k] {
        var w :| w in ToRows(p.upd, user, now) && k == s.At(user, w.id) && r[k].updatedAt == w.updatedAt;
        AcceptedWrites(s, t, user, now, es, p.upd, k, w);
      } else {
        AcceptedWrites(s, t, user, now, es, p.ins, k, g[k]);
      }
    }
  }

  /** A row made of accepted entry `w`. */
  lemma AcceptedWrites(s: Schema, t: map<Key, Row>, user: UserId, now: Stamp, es: seq<Wire>, accepted: seq<Wire>,
                       k: Key, w: Row)
    requires forall e :: e in accepted ==> e in es && Decide(s, t, user, e) != Skip
    requires w in ToRows(accepted, user, now) && k == s.At(user, w.id)
    ensures WrittenBy(s, t, user, now, es, k, w)
  {
    var i :| 0 <= i < |accepted| && WireToRow(accepted[i], user, now) == w;
    assert accepted[i] in accepted;
  }

  /** What a write may do to the server while a pull is under way: drop nothing, and
      change rows only to newer whole-millisecond stamps ahead of the puller. */
  ghost predicate GoodWrite(y: Sync, st: State, t': map<Key, Row>) {
    && TableOk(y.s, t') && Aligned(t', y.user)
    && forall id :: match y.Mine(t', id)
         case None => y.Mine(st.server, id).None?
         case Some(r) => y.Mine(st.server, id) == Some(r)
                         || (y.Ahead(st, r.updatedAt)
                             && (y.Mine(st.server, id).Some? ==> y.Mine(st.server, id).value.updatedAt < r.updatedAt))
  }

  lemma ApplyIsGoodWrite(y: Sync, st: State, st': State, writer: UserId, now: Stamp, es: seq<Wire>)
    requires y.Ok() && TableOk(y.s, st.server) && Aligned(st.server, y.user)
    requires y.ApplyStep(st, st', writer, now, es)
    ensures GoodWrite(y, st, st'.server)
  {
    var t, t' := st.server, st'.server;
    ApplyAccounts(y.s, t, writer, now, es);
    BatchWrites(y.s, t, writer, now, es);
    forall k | k in t' && t'[k].user == y.user && !(k in t && t[k] == t'[k])
      ensures Whole(t'[k].updatedAt) && y.Ahead(st, t'[k].updatedAt)
              && (k in t ==> t[k].updatedAt < t'[k].updatedAt && t[k].user == y.user)
    {
      assert writer == y.user;
      var e :| e in es && Decide(y.s, t, y.user, e) != Skip && k == y.s.At(y.user, e.id)
               && t'[k].updatedAt == WireToRow(e, y.user, now).updatedAt;
    }
  }

  lemma GoodWriteKeepsInv(y: Sync, st: State, t': map<Key, Row>)
    requires y.Ok() && y.Inv(st) && GoodWrite(y, st, t')
    ensures y.Inv(st.(server := t'))
  {
    forall id, w | y.Known(st.server, id, w) ensures y.Known(t', id, w) {
      assert y.Mine(t', id).Some?;
    }
  }

  // ---- Pulls ----

  /** Rows read from the server are current versions. */
  lemma ReadRowsAreKnown(y: Sync, t: map<Key, Row>, rows: seq<Row>)
    requires TableOk(y.s, t) && Aligned(t, y.user)
    requires forall q :: q in rows ==> exists k :: k in t && t[k] == q && q.user == y.user
    ensures forall q :: q in rows ==> y.Mine(t, q.id) == Some(q) && y.Known(t, q.id, RowToWire(q))
  {}

  lemma RowsOfReply(t: map<Key, Row>, user: UserId, since: Stamp, stamp: Stamp, q: Row)
    requires q in RowsAfter(t, user, since) || q in RowsAt(t, user, stamp)
    ensures exists k :: k in t && t[k] == q && q.user == user
  {}

  /** A page read now covers the server up to the page's cursor. */
  lemma ReadPageArrives(y: Sync, st: State, rows: seq<Row>, next: Stamp, more: bool)
    requires y.Ok() && y.Inv(st) && next >= st.cursor
    requires forall q :: q in rows ==> exists k :: k in st.server && st.server[k] == q && q.user == y.user
    requires y.Covered(st, rows, next)
    ensures y.Inv(st.(phase := Arriving(rows, next, more)))
  {
    ReadRowsAreKnown(y, st.server, rows);
  }

  lemma PageKeepsInv(y: Sync, st: State, rows: seq<Row>, more: bool, first: seq<Row>)
    requires y.Ok() && y.Inv(st) && IsLimited(RowsAfter(st.server, y.user, st.cursor), y.limit, first)
    requires CutPage(first, y.limit) == Page(rows, more)
    ensures y.Inv(st.(phase := Arriving(rows, Cursor(st.cursor, rows), more)))
    ensures !more ==> RowsAfter(st.server, y.user, Cursor(st.cursor, rows)) == {}
  {
    var t, next := st.server, Cursor(st.cursor, rows);
    CutPageIsGood(t, y.user, st.cursor, y.limit, first);
    forall q | q in rows ensures exists k :: k in t && t[k] == q && q.user == y.user {
      assert q in Elems(rows);
      RowsOfReply(t, y.user, st.cursor, 0, q);
    }
    forall id | y.Mine(t, id).Some? && st.cursor < y.Mine(t, id).value.updatedAt <= next
      ensures y.Mine(t, id).value in rows
    {
      assert y.Mine(t, id).value in Window(t, y.user, st.cursor, next);
      assert y.Mine(t, id).value in Elems(rows);
    }
    ReadPageArrives(y, st, rows, next, more);
  }

  lemma GroupKeepsInv(y: Sync, st: State, first: seq<Row>)
    requires y.Ok() && y.Inv(st) && IsLimited(RowsAfter(st.server, y.user, st.cursor), y.limit, first)
    requires CutPage(first, y.limit).Group?
    ensures y.Inv(st.(phase := Reading(first)))
  {
    var t, stamp := st.server, CutPage(first, y.limit).stamp;
    GroupIsLowest(RowsAfter(t, y.user, st.cursor), y.limit, first);
    forall id | y.Mine(t, id).Some? && st.cursor < y.Mine(t, id).value.updatedAt
      ensures y.Mine(t, id).value.updatedAt >= stamp
    {
      assert y.Mine(t, id).value in RowsAfter(t, y.user, st.cursor);
    }
  }

  lemma FirstKeepsInv(y: Sync, st: State, st': State, first: seq<Row>)
    requires y.Ok() && y.Inv(st) && y.FirstStep(st, st', first)
    ensures y.Inv(st')
    ensures st'.phase.Arriving? && !st'.phase.more ==> RowsAfter(st.server, y.user, st'.phase.next) == {}
  {
    match CutPage(first, y.limit)
    case Page(rows, more) => PageKeepsInv(y, st, rows, more, first);
    case Group(_) => GroupKeepsInv(y, st, first);
  }

  lemma SecondKeepsInv(y: Sync, st: State, st': State, rows: seq<Row>)
    requires y.Ok() && y.Inv(st) && y.SecondStep(st, st', rows)
    ensures y.Inv(st')
  {
    var t, stamp := st.server, CutPage(st.phase.first, y.limit).stamp;
    assert forall q :: q in rows ==> q in Elems(rows);
    forall q | q in rows ensures exists k :: k in t && t[k] == q && q.user == y.user {
      RowsOfReply(t, y.user, st.cursor, stamp, q);
    }
    if rows != [] {
      assert rows[|rows| - 1] in rows;
      forall id | y.Mine(t, id).Some? && st.cursor < y.Mine(t, id).value.updatedAt <= stamp
        ensures y.Mine(t, id).value in rows
      {
        assert y.Mine(t, id).value in RowsAt(t, y.user, stamp);
        assert y.Mine(t, id).value in Elems(rows);
      }
    }
    ReadPageArrives(y, st, rows, Cursor(st.cursor, rows), true);
  }

  lemma DeliverKeepsInv(y: Sync, st: State, st': State)
    requires y.Ok() && y.Inv(st) && y.DeliverStep(st, st')
    ensures y.Inv(st')
  {
    var rows, next := st.phase.rows, st.phase.next;
    MergeKeepsKnown(y, st.server, st.replica, rows);
    forall id | y.Mine(st.server, id).Some? && y.Mine(st.server, id).value.updatedAt <= next
      ensures id in st'.replica && st'.replica[id] == RowToWire(y.Mine(st.server, id).value)
    {
      MergeTakesCurrent(y, st.server, st.replica, rows, id);
    }
  }

  lemma NextKeepsInv(y: Sync, st: State, st': State)
    requires y.Ok() && y.Inv(st) && y.Next(st, st')
    ensures y.Inv(st')
  {
    if writer, now, es :| y.ApplyStep(st, st', writer, now, es) {
      ApplyIsGoodWrite(y, st, st', writer, now, es);
      GoodWriteKeepsInv(y, st, st'.server);
    } else if first :| y.FirstStep(st, st', first) {
      FirstKeepsInv(y, st, st', first);
    } else if rows :| y.SecondStep(st, st', rows) {
      SecondKeepsInv(y, st, st', rows);
    } else {
      DeliverKeepsInv(y, st, st');
    }
  }

  // ---- Theorems ----

  /** The replica holds exactly the user's rows, tombstones included. */
  ghost predicate Equal(y: Sync, t: map<Key, Row>, replica: map<Id, Wire>) {
    forall id :: (id in replica <==> y.Mine(t, id).Some?)
                 && (id in replica ==> replica[id] == RowToWire(y.Mine(t, id).value))
  }

  /** In every reachable state: nothing up to the cursor is missing or old in the replica,
      and with nothing stored above the cursor replica and server are equal. */
  lemma {:induction false} ReplicaSafety(y: Sync, run: seq<State>)
    requires y.Ok() && y.Run(run)
    ensures var st := run[|run| - 1];
      && y.Inv(st) && y.Synced(st.server, st.replica, st.cursor)
      && (RowsAfter(st.server, y.user, st.cursor) == {} ==> Equal(y, st.server, st.replica))
  {
    var st := run[|run| - 1];
    if |run| == 1 {
      InitialInv(y, st);
    } else {
      ReplicaSafety(y, run[..|run| - 1]);
      NextKeepsInv(y, run[|run| - 2], st);
    }
    if RowsAfter(st.server, y.user, st.cursor) == {} { CaughtUp(y, st); }
  }

  lemma InitialInv(y: Sync, st: State)
    requires y.Ok() && y.Init(st)
    ensures y.Inv(st)
  {}

  lemma CaughtUp(y: Sync, st: State)
    requires y.Ok() && y.Inv(st) && RowsAfter(st.server, y.user, st.cursor) == {}
    ensures Equal(y, st.server, st.replica)
  {
    assert forall id :: y.Mine(st.server, id).Some? && y.Mine(st.server, id).value.updatedAt > st.cursor ==>
      y.Mine(st.server, id).value in RowsAfter(st.server, y.user, st.cursor);
    forall id | id in st.replica ensures y.Mine(st.server, id).Some? { assert y.Known(st.server, id, st.replica[id]); }
  }

  /** A pull that answers has_more = false and is delivered before the next write leaves the
      replica equal to the server, whatever happened before. */
  lemma LastPageCatchesUp(y: Sync, st: State, mid: State, st': State, first: seq<Row>)
    requires y.Ok() && y.Inv(st) && y.FirstStep(st, mid, first) && y.DeliverStep(mid, st') && !mid.phase.more
    ensures Equal(y, st'.server, st'.replica)
  {
    FirstKeepsInv(y, st, mid, first);
    DeliverKeepsInv(y, mid, st');
    CaughtUp(y, st');
  }

  /** The condition on writes is the weakest one: between two pulls, an entry keeps the
      replica in step exactly when it changes nothing or is stamped above the cursor. */
  lemma LateWriteIsLostExactly(y: Sync, st: State, now: Stamp, e: Wire)
    requires y.Ok() && y.Inv(st) && st.phase == Idle && e.updatedAt.Some? && Whole(e.updatedAt.value)
    ensures var t' := ApplyBatch(y.s, st.server, y.user, now, [e]).rows;
      y.Synced(t', st.replica, st.cursor) <==> t' == st.server || e.updatedAt.value > st.cursor
  {
    var t, t' := st.server, ApplyBatch(y.s, st.server, y.user, now, [e]).rows;
    OneEntryWrites(y, t, now, e);
    if t' != t {
      var w := y.Mine(t', e.id).value;
      assert e.id in st.replica ==> y.Known(t, e.id, st.replica[e.id]);
      assert RowToWire(w).updatedAt == Some(w.updatedAt);
    }
  }

  /** A request of one entry changes at most the entry's own row, and that to its stamp. */
  lemma OneEntryWrites(y: Sync, t: map<Key, Row>, now: Stamp, e: Wire)
    requires y.Ok() && TableOk(y.s, t) && Aligned(t, y.user) && e.updatedAt.Some? && Whole(e.updatedAt.value)
    ensures var t' := ApplyBatch(y.s, t, y.user, now, [e]).rows;
      && (forall id :: id != e.id ==> y.Mine(t', id) == y.Mine(t, id))
      && (t' != t ==> y.Mine(t', e.id).Some? && y.Mine(t', e.id).value.updatedAt == e.updatedAt.value
                      && (y.Mine(t, e.id).Some? ==> y.Mine(t, e.id).value.updatedAt < e.updatedAt.value))
  {
    SingleIsRequest(y.s, t, y.user, now, e);
    var k, t' := y.s.At(y.user, e.id), Single(y.s, t, y.user, now, e).rows;
    assert forall l :: l != k ==> Agree(t, t', l);
    forall id | id != e.id ensures y.Mine(t', id) == y.Mine(t, id) {
      assert Agree(t, t', y.s.At(y.user, id));
    }
  }

  /** A write ahead of the puller keeps the invariant, in every phase. */
  lemma AheadKeepsInv(y: Sync, st: State, now: Stamp, e: Wire)
    requires y.Ok() && y.Inv(st) && e.updatedAt.Some? && Whole(e.updatedAt.value) && y.Ahead(st, e.updatedAt.value)
    ensures y.Inv(st.(server := ApplyBatch(y.s, st.server, y.user, now, [e]).rows))
  {
    var st' := st.(server := ApplyBatch(y.s, st.server, y.user, now, [e]).rows);
    assert y.ApplyStep(st, st', y.user, now, [e]);
    ApplyIsGoodWrite(y, st, st', y.user, now, [e]);
    GoodWriteKeepsInv(y, st, st'.server);
  }

  /** Versions known before an entry changed the server are not the entry's. */
  lemma KnownLacks(y: Sync, t: map<Key, Row>, now: Stamp, e: Wire, m: map<Id, Wire>)
    requires y.Ok() && TableOk(y.s, t) && Aligned(t, y.user) && e.updatedAt.Some? && Whole(e.updatedAt.value)
    requires forall id :: id in m ==> y.Known(t, id, m[id])
    requires ApplyBatch(y.s, t, y.user, now, [e]).rows != t
    ensures var w := y.Mine(ApplyBatch(y.s, t, y.user, now, [e]).rows, e.id);
      w.Some? && w.value.id == e.id && w.value.updatedAt == e.updatedAt.value && Lacks(m, w.value)
  {
    OneEntryWrites(y, t, now, e);
    ApplyAccounts(y.s, t, y.user, now, [e]);
    var w := y.Mine(ApplyBatch(y.s, t, y.user, now, [e]).rows, e.id).value;
    assert RowToWire(w).updatedAt == Some(w.updatedAt);
    assert e.id in m ==> y.Known(t, e.id, m[e.id]);
  }

  /** With a page on its way: once it is delivered, the replica is in step exactly when the entry changed
      nothing or is stamped above the page's cursor. */
  lemma LateWriteBehindPageExactly(y: Sync, st: State, now: Stamp, e: Wire)
    requires y.Ok() && y.Inv(st) && st.phase.Arriving? && e.updatedAt.Some? && Whole(e.updatedAt.value)
    ensures var t' := ApplyBatch(y.s, st.server, y.user, now, [e]).rows;
      y.Synced(t', Merge(st.replica, st.phase.rows), st.phase.next)
      <==> t' == st.server || e.updatedAt.value > st.phase.next
  {
    var t', m := ApplyBatch(y.s, st.server, y.user, now, [e]).rows, Merge(st.replica, st.phase.rows);
    if t' == st.server || e.updatedAt.value > st.phase.next {
      if t' != st.server { AheadKeepsInv(y, st, now, e); }
      var st' := st.(server := t');
      DeliverKeepsInv(y, st', State(t', m, st.phase.next, Idle));
    } else {
      MergeKeepsKnown(y, st.server, st.replica, st.phase.rows);
      KnownLacks(y, st.server, now, e, m);
    }
  }

  /** Between the two queries of a page: once the page is read and delivered, the replica is in step exactly
      when the entry changed nothing, is stamped at or above the timestamp that is read in full, or finds
      that timestamp emptied and is stamped above the cursor, which then stays where it is. */
  lemma LateWriteBetweenQueriesExactly(y: Sync, st: State, now: Stamp, e: Wire, rows: seq<Row>)
    requires y.Ok() && y.Inv(st) && st.phase.Reading? && e.updatedAt.Some? && Whole(e.updatedAt.value)
    requires var t' := ApplyBatch(y.s, st.server, y.user, now, [e]).rows;
      IsGroup(t', y.user, CutPage(st.phase.first, y.limit).stamp, rows)
    ensures var t' := ApplyBatch(y.s, st.server, y.user, now, [e]).rows;
      y.Synced(t', Merge(st.replica, rows), Cursor(st.cursor, rows))
      <==> t' == st.server || e.updatedAt.value >= CutPage(st.phase.first, y.limit).stamp
           || (rows == [] && e.updatedAt.value > st.cursor)
  {
    var t', stamp := ApplyBatch(y.s, st.server, y.user, now, [e]).rows, CutPage(st.phase.first, y.limit).stamp;
    if t' == st.server || e.updatedAt.value >= stamp {
      if t' != st.server { AheadKeepsInv(y, st, now, e); }
      ReadAndDeliver(y, st.(server := t'), rows);
    } else if rows == [] && e.updatedAt.value > st.cursor {
      OneEntryWrites(y, st.server, now, e);
      assert Merge(st.replica, rows) == st.replica;
    } else {
      KnownLacks(y, st.server, now, e, st.replica);
      UnreadWriteIsMissed(y, st, t', y.Mine(t', e.id).value, stamp, rows);
    }
  }

  lemma ReadAndDeliver(y: Sync, st: State, rows: seq<Row>)
    requires y.Ok() && y.Inv(st) && st.phase.Reading?
    requires IsGroup(st.server, y.user, CutPage(st.phase.first, y.limit).stamp, rows)
    ensures y.Synced(st.server, Merge(st.replica, rows), Cursor(st.cursor, rows))
  {
    var mid := st.(phase := Arriving(rows, Cursor(st.cursor, rows), true));
    SecondKeepsInv(y, st, mid, rows);
    DeliverKeepsInv(y, mid, State(st.server, Merge(st.replica, rows), Cursor(st.cursor, rows), Idle));
  }

  /** A version below the timestamp that is read, and at or under the page's cursor, is not delivered. */
  lemma UnreadWriteIsMissed(y: Sync, st: State, t': map<Key, Row>, w: Row, stamp: Stamp, rows: seq<Row>)
    requires y.Ok() && y.Mine(t', w.id) == Some(w) && Lacks(st.replica, w) && Whole(w.updatedAt)
    requires w.updatedAt < stamp && Whole(stamp) && (rows == [] ==> w.updatedAt <= st.cursor)
    requires IsGroup(t', y.user, stamp, rows)
    ensures !y.Synced(t', Merge(st.replica, rows), Cursor(st.cursor, rows))
  {
    forall q | q in rows ensures Whole(q.updatedAt) && q.updatedAt == stamp { assert q in Elems(rows); }
    MergeStillLacks(st.replica, rows, w);
    if rows != [] { assert rows[|rows| - 1] in rows; }
    assert w.updatedAt <= Cursor(st.cursor, rows);
  }

  // ---- A write under the cursor ----

  /** The replica does not hold version `w` of its entry. */
  ghost predicate Lacks(replica: map<Id, Wire>, w: Row) {
    w.id in replica ==> replica[w.id] != RowToWire(w)
  }

  /** The server holds `w` under the puller's cursor, the replica lacks it and no page on its way has it. */
  ghost predicate Lost(y: Sync, st: State, w: Row) {
    && TableOk(y.s, st.server) && Aligned(st.server, y.user)
    && y.Mine(st.server, w.id) == Some(w) && w.updatedAt <= st.cursor && Lacks(st.replica, w)
    && match st.phase
       case Idle => true
       case Reading(first) => CutPage(first, y.limit).Group? && CutPage(first, y.limit).stamp > st.cursor
       case Arriving(rows, next, _) => next >= st.cursor && AllAbove(rows, st.cursor)
  }

  ghost predicate AllAbove(rows: seq<Row>, cursor: Stamp) {
    forall q :: q in rows ==> Whole(q.updatedAt) && q.updatedAt > cursor
  }

  lemma FirstKeepsLost(y: Sync, st: State, st': State, first: seq<Row>, w: Row)
    requires y.Ok() && Lost(y, st, w) && y.FirstStep(st, st', first)
    ensures Lost(y, st', w)
  {
    var t := st.server;
    match CutPage(first, y.limit)
    case Page(rows, more) =>
      CutPageIsGood(t, y.user, st.cursor, y.limit, first);
      forall q | q in rows ensures Whole(q.updatedAt) && q.updatedAt > st.cursor { assert q in Elems(rows); }
    case Group(_) =>
      GroupIsLowest(RowsAfter(t, y.user, st.cursor), y.limit, first);
  }

  lemma SecondKeepsLost(y: Sync, st: State, st': State, rows: seq<Row>, w: Row)
    requires y.Ok() && Lost(y, st, w) && y.SecondStep(st, st', rows)
    ensures Lost(y, st', w)
  {
    forall q | q in rows ensures Whole(q.updatedAt) && q.updatedAt > st.cursor { assert q in Elems(rows); }
    if rows != [] { assert rows[|rows| - 1] in rows; }
  }

  lemma {:induction false} MergeStillLacks(replica: map<Id, Wire>, rows: seq<Row>, w: Row)
    requires Lacks(replica, w) && Whole(w.updatedAt) && AllAbove(rows, w.updatedAt)
    ensures Lacks(Merge(replica, rows), w)
  {
    if rows != [] {
      var init, q := rows[..|rows| - 1], rows[|rows| - 1];
      assert rows == init + [q];
      assert q in rows && forall p :: p in init ==> p in rows;
      MergeStillLacks(replica, init, w);
      assert RowToWire(q).updatedAt == Some(q.updatedAt) != RowToWire(w).updatedAt;
    }
  }

  lemma DeliverKeepsLost(y: Sync, st: State, st': State, w: Row)
    requires y.Ok() && Lost(y, st, w) && y.DeliverStep(st, st')
    ensures Lost(y, st', w)
  {
    MergeStillLacks(st.replica, st.phase.rows, w);
  }

  /** `w` is written again at this step, to a stamp ahead of the puller. */
  ghost predicate Rewritten(y: Sync, st: State, st': State, w: Row) {
    y.Mine(st'.server, w.id).Some? && y.Mine(st'.server, w.id).value != w
    && y.Ahead(st, y.Mine(st'.server, w.id).value.updatedAt)
  }

  lemma ApplyKeepsLost(y: Sync, st: State, st': State, writer: UserId, now: Stamp, es: seq<Wire>, w: Row)
    requires y.Ok() && Lost(y, st, w) && y.ApplyStep(st, st', writer, now, es)
    ensures Lost(y, st', w) || Rewritten(y, st, st', w)
  {
    ApplyIsGoodWrite(y, st, st', writer, now, es);
  }

  lemma NextKeepsLost(y: Sync, st: State, st': State, w: Row)
    requires y.Ok() && Lost(y, st, w) && y.Next(st, st')
    ensures Lost(y, st', w) || Rewritten(y, st, st', w)
  {
    if writer, now, es :| y.ApplyStep(st, st', writer, now, es) {
      ApplyKeepsLost(y, st, st', writer, now, es, w);
    } else if first :| y.FirstStep(st, st', first) {
      FirstKeepsLost(y, st, st', first, w);
    } else if rows :| y.SecondStep(st, st', rows) {
      SecondKeepsLost(y, st, st', rows, w);
    } else {
      DeliverKeepsLost(y, st, st', w);
    }
  }

  ghost predicate Steps(y: Sync, run: seq<State>) {
    run != [] && forall i :: 0 < i < |run| ==> y.Next(run[i - 1], run[i])
  }

  lemma {:induction false} StaysLost(y: Sync, run: seq<State>, w: Row, n: nat)
    requires y.Ok() && n < |run| && Steps(y, run) && Lost(y, run[0], w)
    requires forall i :: 0 < i < |run| ==> !Rewritten(y, run[i - 1], run[i], w)
    ensures Lost(y, run[n], w)
  {
    if n > 0 {
      StaysLost(y, run, w, n - 1);
      NextKeepsLost(y, run[n - 1], run[n], w);
    }
  }

  /** Between two pulls, an entry that changes the server at or under the cursor: as long as no step of the
      run writes the entry again, ahead of the puller, no pull ever brings this version to the replica. */
  lemma LateWriteNeverArrives(y: Sync, st: State, now: Stamp, e: Wire, run: seq<State>)
    requires y.Ok() && y.Inv(st) && st.phase == Idle && e.updatedAt.Some? && Whole(e.updatedAt.value)
    requires e.updatedAt.value <= st.cursor && ApplyBatch(y.s, st.server, y.user, now, [e]).rows != st.server
    requires Steps(y, run) && run[0] == st.(server := ApplyBatch(y.s, st.server, y.user, now, [e]).rows)
    ensures y.Mine(run[0].server, e.id).Some?
    ensures var w := y.Mine(run[0].server, e.id).value;
      (forall i :: 0 < i < |run| ==> !Rewritten(y, run[i - 1], run[i], w)) ==> Lacks(run[|run| - 1].replica, w)
  {
    LateWriteIsLost(y, st, now, e);
    var w := y.Mine(run[0].server, e.id).value;
    if forall i :: 0 < i < |run| ==> !Rewritten(y, run[i - 1], run[i], w) {
      StaysLost(y, run, w, |run| - 1);
    }
  }

  lemma LateWriteIsLost(y: Sync, st: State, now: Stamp, e: Wire)
    requires y.Ok() && y.Inv(st) && st.phase == Idle && e.updatedAt.Some? && Whole(e.updatedAt.value)
    requires e.updatedAt.value <= st.cursor && ApplyBatch(y.s, st.server, y.user, now, [e]).rows != st.server
    ensures var t' := ApplyBatch(y.s, st.server, y.user, now, [e]).rows;
      y.Mine(t', e.id).Some? && Lost(y, st.(server := t'), y.Mine(t', e.id).value)
  {
    var t, t' := st.server, ApplyBatch(y.s, st.server, y.user, now, [e]).rows;
    OneEntryWrites(y, t, now, e);
    ApplyAccounts(y.s, t, y.user, now, [e]);
    var w := y.Mine(t', e.id).value;
    forall k | k in t' && t'[k].user == y.user ensures Whole(t'[k].updatedAt) {
      assert y.Mine(t', t'[k].id) == Some(t'[k]);
    }
    assert e.id in st.replica ==> y.Known(t, e.id, st.replica[e.id]);
    assert RowToWire(w).updatedAt == Some(w.updatedAt);
  }
}
