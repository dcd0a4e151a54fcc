/** A table under a primary key and a constraint, and the insert helper over it
    (api/routes/sync.js `insertWithRowRetry`, db/schema.sql). */
module Tables {
  import opened Rows

  /** clock_entries and inbox_entries are keyed by id alone; tasks, notes and projects by (user_id, id). */
  datatype Key = Key(owner: Option<UserId>, id: Id)

  /** `legal` is every constraint besides the key: unique indexes, NOT NULL, CHECK, foreign keys. */
  datatype Schema = Schema(perUserKey: bool, legal: map<Key, Row> -> bool) {
    function At(user: UserId, id: Id): Key {
      Key(if perUserKey then Some(user) else None, id)
    }

    function Of(r: Row): Key { At(r.user, r.id) }
  }

  ghost predicate SubMap<K, V>(a: map<K, V>, b: map<K, V>) {
    a.Keys <= b.Keys && forall k :: k in a ==> a[k] == b[k]
  }

  /** Dropping rows never breaks the constraint. */
  ghost predicate SubsetClosed(s: Schema) {
    forall a: map<Key, Row>, b: map<Key, Row> :: SubMap(a, b) && s.legal(b) ==> s.legal(a)
  }

  ghost predicate WellKeyed(s: Schema, t: map<Key, Row>) {
    forall k :: k in t ==> s.Of(t[k]) == k
  }

  ghost predicate TableOk(s: Schema, t: map<Key, Row>) {
    WellKeyed(s, t) && s.legal(t)
  }

  predicate Running(r: Row) { r.body.endAt.None? && r.deletedAt.None? }

  /** `idx_one_active`: one running, non-deleted timer per user. */
  predicate OneActive(t: map<Key, Row>) {
    forall k, l | k in t && l in t :: Running(t[k]) && Running(t[l]) && t[k].user == t[l].user ==> k == l
  }

  const ClockEntries := Schema(false, t => OneActive(t))
  const Notes := Schema(true, t => true)

  lemma BothSchemasSubsetClosed()
    ensures SubsetClosed(ClockEntries) && SubsetClosed(Notes)
  {}

  function AddRows(s: Schema, t: map<Key, Row>, rs: seq<Row>): map<Key, Row> {
    if rs == [] then t
    else AddRows(s, t, rs[..|rs| - 1])[s.Of(rs[|rs| - 1]) := rs[|rs| - 1]]
  }

  /** One INSERT statement succeeds when no key collides, with the table or inside
      the statement, and the resulting table is legal. */
  predicate InsertOk(s: Schema, t: map<Key, Row>, rs: seq<Row>) {
    && (forall i :: 0 <= i < |rs| ==> s.Of(rs[i]) !in t)
    && (forall i, j :: 0 <= i < j < |rs| ==> s.Of(rs[i]) != s.Of(rs[j]))
    && s.legal(AddRows(s, t, rs))
  }

  datatype Inserted = Inserted(rows: map<Key, Row>, failed: seq<Id>)

  function InsertOne(s: Schema, t: map<Key, Row>, r: Row): Inserted {
    if s.Of(r) !in t && s.legal(t[s.Of(r) := r])
    then Inserted(t[s.Of(r) := r], []) else Inserted(t, [r.id])
  }

  /** Insert the rows one statement each, in order, keeping what the table accepts. */
  function Greedy(s: Schema, t: map<Key, Row>, rs: seq<Row>): Inserted {
    if rs == [] then Inserted(t, [])
    else
      var before := Greedy(s, t, rs[..|rs| - 1]);
      var last := InsertOne(s, before.rows, rs[|rs| - 1]);
      Inserted(last.rows, before.failed + last.failed)
  }

  class Table {
    const schema: Schema
    var rows: map<Key, Row>

    ghost predicate Valid()
      reads this
    {
      SubsetClosed(schema) && TableOk(schema, rows)
    }

    constructor (s: Schema)
      requires SubsetClosed(s) && s.legal(map[])
      ensures Valid() && schema == s && rows == map[]
    {
      schema := s;
      rows := map[];
    }

    /** One INSERT statement: all of its rows or none. */
    method Insert(rs: seq<Row>) returns (ok: bool)
      requires Valid()
      modifies this
      ensures Valid()
      ensures ok == InsertOk(schema, old(rows), rs)
      ensures rows == if ok then AddRows(schema, old(rows), rs) else old(rows)
    {
      ok := InsertOk(schema, rows, rs);
      if ok {
        AddRowsKeys(schema, rows, rs);
        rows := AddRows(schema, rows, rs);
      }
    }

    /** UPDATE the applied columns of one row of one user; no matching row is not an error. */
    method Update(user: UserId, w: Row) returns (ok: bool)
      requires Valid()
      modifies this
      ensures Valid()
      ensures (rows, if ok then [] else [w.id]) == (var u := UpdateOne(schema, old(rows), user, w); (u.rows, u.failed))
    {
      var u := UpdateOne(schema, rows, user, w);
      ok := u.failed == [];
      rows := u.rows;
    }
  }

  function Existing(s: Schema, t: map<Key, Row>, user: UserId, id: Id): Option<Row> {
    if s.At(user, id) in t && t[s.At(user, id)].user == user then Some(t[s.At(user, id)]) else None
  }

  /** The stored row `r` with the applied columns of `w`. */
  function Patched(r: Row, w: Row): Row {
    r.(body := w.body, updatedAt := w.updatedAt, deletedAt := w.deletedAt)
  }

  function UpdateOne(s: Schema, t: map<Key, Row>, user: UserId, w: Row): Inserted {
    match Existing(s, t, user, w.id)
    case None => Inserted(t, [])
    case Some(r) =>
      var t' := t[s.At(user, w.id) := Patched(r, w)];
      if s.legal(t') then Inserted(t', []) else Inserted(t, [w.id])
  }

  /** What an UPDATE writes: the body, the stamp and the deletion of that one row of that user; its key, its owner
      and its acknowledgement stay, and so does every other row. */
  lemma UpdateWrites(s: Schema, t: map<Key, Row>, user: UserId, w: Row)
    ensures var u, k := UpdateOne(s, t, user, w), s.At(user, w.id);
      && u.rows.Keys == t.Keys && (u.failed != [] ==> u.rows == t)
      && (forall j :: j in t && (j != k || t[j].user != user) ==> u.rows[j] == t[j])
      && (k in t && t[k].user == user && u.failed == [] ==>
            && u.rows[k].body == w.body && u.rows[k].updatedAt == w.updatedAt && u.rows[k].deletedAt == w.deletedAt
            && u.rows[k].user == user && u.rows[k].id == t[k].id && u.rows[k].syncedAt == t[k].syncedAt)
  {}

  lemma {:induction false} AddRowsKeys(s: Schema, t: map<Key, Row>, rs: seq<Row>)
    ensures forall k :: k in AddRows(s, t, rs) <==> k in t || exists i :: 0 <= i < |rs| && s.Of(rs[i]) == k
    ensures WellKeyed(s, t) ==> WellKeyed(s, AddRows(s, t, rs))
    ensures (forall i :: 0 <= i < |rs| ==> s.Of(rs[i]) !in t) ==> SubMap(t, AddRows(s, t, rs))
  {
    if rs != [] {
      var init, last := rs[..|rs| - 1], rs[|rs| - 1];
      AddRowsKeys(s, t, init);
      forall k | k in AddRows(s, t, rs) && k !in t ensures exists i :: 0 <= i < |rs| && s.Of(rs[i]) == k {
        if i :| 0 <= i < |init| && s.Of(init[i]) == k { assert s.Of(rs[i]) == k; }
      }
      forall i | 0 <= i < |rs| ensures s.Of(rs[i]) in AddRows(s, t, rs) {
        if i < |init| { assert init[i] == rs[i]; }
      }
    }
  }

  /** Keys that do not collide in `rs` are those that do not collide before its last row,
      nor with its last row. */
  lemma FreshKeysStep(s: Schema, t: map<Key, Row>, rs: seq<Row>)
    requires rs != []
    ensures var init, last := rs[..|rs| - 1], rs[|rs| - 1];
      ((forall i :: 0 <= i < |rs| ==> s.Of(rs[i]) !in t)
       && (forall i, j :: 0 <= i < j < |rs| ==> s.Of(rs[i]) != s.Of(rs[j])))
      <==> ((forall i :: 0 <= i < |init| ==> s.Of(init[i]) !in t)
            && (forall i, j :: 0 <= i < j < |init| ==> s.Of(init[i]) != s.Of(init[j]))
            && s.Of(last) !in AddRows(s, t, init))
  {
    var init, last := rs[..|rs| - 1], rs[|rs| - 1];
    AddRowsKeys(s, t, init);
    assert forall i :: 0 <= i < |init| ==> init[i] == rs[i];
  }

  lemma InsertOkStep(s: Schema, t: map<Key, Row>, rs: seq<Row>)
    requires SubsetClosed(s) && rs != []
    ensures InsertOk(s, t, rs) <==>
      var init, last := rs[..|rs| - 1], rs[|rs| - 1];
      var t' := AddRows(s, t, init);
      InsertOk(s, t, init) && s.Of(last) !in t' && s.legal(t'[s.Of(last) := last])
  {
    var init, last := rs[..|rs| - 1], rs[|rs| - 1];
    FreshKeysStep(s, t, rs);
    var t' := AddRows(s, t, init);
    if s.Of(last) !in t' {
      assert SubMap(t', t'[s.Of(last) := last]);
    }
  }

  /** The bulk statement succeeds exactly when no single row fails, and then it
      leaves the table that inserting row by row leaves. */
  lemma {:induction false} BulkInsertIsGreedy(s: Schema, t: map<Key, Row>, rs: seq<Row>)
    requires SubsetClosed(s) && s.legal(t)
    ensures InsertOk(s, t, rs) <==> Greedy(s, t, rs).failed == []
    ensures InsertOk(s, t, rs) ==> Greedy(s, t, rs).rows == AddRows(s, t, rs)
  {
    if rs != [] {
      BulkInsertIsGreedy(s, t, rs[..|rs| - 1]);
      InsertOkStep(s, t, rs);
    }
  }

  /** What row-by-row insertion means: it keeps the old rows and the constraint,
      loses no row silently and adds nothing else ... */
  lemma {:induction false} GreedyKeeps(s: Schema, t: map<Key, Row>, rs: seq<Row>)
    requires SubsetClosed(s) && TableOk(s, t)
    ensures var g := Greedy(s, t, rs);
      && SubMap(t, g.rows) && TableOk(s, g.rows)
      && |g.rows| - |t| + |g.failed| == |rs|
      && (forall k :: k in g.rows && k !in t ==> g.rows[k] in rs)
  {
    if rs != [] {
      assert rs == rs[..|rs| - 1] + [rs[|rs| - 1]];
      GreedyKeeps(s, t, rs[..|rs| - 1]);
    }
  }

  lemma StillRefused(s: Schema, b: map<Key, Row>, g: map<Key, Row>, r: Row)
    requires SubsetClosed(s) && SubMap(b, g)
    requires s.Of(r) in b || !s.legal(b[s.Of(r) := r])
    ensures s.Of(r) in g || !s.legal(g[s.Of(r) := r])
  {
    if s.Of(r) !in g { assert SubMap(b[s.Of(r) := r], g[s.Of(r) := r]); }
  }

  ghost predicate TakesOrRefuses(s: Schema, t: map<Key, Row>, rs: seq<Row>) {
    forall i :: 0 <= i < |rs| ==> s.Of(rs[i]) in t || !s.legal(t[s.Of(rs[i]) := rs[i]])
  }

  lemma StillTakesOrRefuses(s: Schema, b: map<Key, Row>, g: map<Key, Row>, rs: seq<Row>)
    requires SubsetClosed(s) && SubMap(b, g) && TakesOrRefuses(s, b, rs)
    ensures TakesOrRefuses(s, g, rs)
  {
    forall i | 0 <= i < |rs| ensures s.Of(rs[i]) in g || !s.legal(g[s.Of(rs[i]) := rs[i]]) {
      StillRefused(s, b, g, rs[i]);
    }
  }

  lemma InsertOneKeeps(s: Schema, t: map<Key, Row>, r: Row)
    ensures var g := InsertOne(s, t, r).rows;
      SubMap(t, g) && (s.Of(r) in g || !s.legal(g[s.Of(r) := r]))
  {}

  /** ... and it refuses only rows that the final table could not take either. */
  lemma {:induction false} GreedyKeepsAllItCan(s: Schema, t: map<Key, Row>, rs: seq<Row>)
    requires SubsetClosed(s)
    ensures TakesOrRefuses(s, Greedy(s, t, rs).rows, rs)
  {
    if rs != [] {
      var init, last := rs[..|rs| - 1], rs[|rs| - 1];
      GreedyKeepsAllItCan(s, t, init);
      var b, g := Greedy(s, t, init).rows, Greedy(s, t, rs).rows;
      InsertOneKeeps(s, b, last);
      StillTakesOrRefuses(s, b, g, init);
      assert rs == init + [last];
    }
  }

  /** Insert rows in one statement and, if that fails, one statement each; report the ids that failed. */
  method InsertWithRowRetry(t: Table, rs: seq<Row>) returns (failedIds: seq<Id>)
    requires t.Valid()
    modifies t
    ensures t.Valid()
    ensures t.rows == Greedy(t.schema, old(t.rows), rs).rows
    ensures failedIds == Greedy(t.schema, old(t.rows), rs).failed
  {
    if |rs| == 0 { return []; }
    BulkInsertIsGreedy(t.schema, t.rows, rs);
    var ok := t.Insert(rs);
    if ok { return []; }
    failedIds := [];
    ghost var start := t.rows;
    for i := 0 to |rs|
      invariant t.Valid()
      invariant t.rows == Greedy(t.schema, start, rs[..i]).rows
      invariant failedIds == Greedy(t.schema, start, rs[..i]).failed
    {
      assert rs[..i + 1][..i] == rs[..i];
      SingleInsert(t.schema, t.rows, rs[i]);
      var rowOk := t.Insert([rs[i]]);
      if !rowOk { failedIds := failedIds + [rs[i].id]; }
    }
    assert rs[..|rs|] == rs;
  }

  lemma SingleInsert(s: Schema, t: map<Key, Row>, r: Row)
    ensures InsertOk(s, t, [r]) <==> s.Of(r) !in t && s.legal(t[s.Of(r) := r])
    ensures AddRows(s, t, [r]) == t[s.Of(r) := r]
    ensures Greedy(s, t, [r]) == InsertOne(s, t, r)
  {
    assert [r][..0] == [];
    assert AddRows(s, t, [r][..0]) == t;
    assert Greedy(s, t, [r][..0]) == Inserted(t, []);
  }
}
