/** The query builder as a compiler (api/db_pg.js `PgQuery`): the statement and parameters it emits
    do what the chained calls say. */
module Builder {
  import opened Rows
  import opened Seqs
  import opened Sql

  datatype FilterOp = Eq | Is | In | Gt | Gte | Lt | Lte | Contains

  datatype Filter = Filter(col: string, op: FilterOp, val: Val)

  datatype Op = NoOp | Select | Insert | Update | Upsert | Delete

  /** What the caller receives in place of rows. */
  datatype Reply = NoData | Rows(rows: seq<Record>) | OneRow(row: Option<Record>) | NotSingle

  datatype RowMode = Many | Single | Maybe

  /** A payload object: its keys in insertion order. */
  type Fields = seq<(string, Val)>

  function Keys(f: Fields): seq<string> { seq(|f|, i requires 0 <= i < |f| => f[i].0) }

  /** The object's value for a key; a missing key is sent as NULL. */
  function Lookup(f: Fields, c: string): Val {
    if f == [] then Null else if f[|f| - 1].0 == c then f[|f| - 1].1 else Lookup(f[..|f| - 1], c)
  }

  /** The fields of the builder object. */
  datatype Query = Query(
    op: Op, payload: seq<Fields>, onConflict: Option<seq<string>>, returning: Returning, selectCols: Returning,
    filters: seq<Filter>, orders: seq<Order>, limit: Option<nat>, rowMode: RowMode, count: bool, head: bool)

  const Blank := Query(NoOp, [], None, Nothing, All, [], [], None, Many, false, false)

  /** What information_schema says of the table. */
  datatype Types = Types(isJson: string -> bool, pk: seq<string>)

  /** A statement under construction and the shared array of parameters. */
  datatype Emitted<T> = Emitted(part: T, params: seq<Val>)

  // ---- Compilation ----

  /** A jsonb column's objects and arrays travel as text with a cast. */
  function Encode(isJson: bool, v: Val): (bool, Val) {
    if isJson && (v.Obj? || v.Arr?) then (true, JsonText(v)) else (false, v)
  }

  function SqlOp(op: FilterOp): CmpOp {
    match op case Gt => GT case Gte => GE case Lt => LT case Lte => LE case _ => EQ
  }

  function CondOf(f: Filter, n: nat): Cond {
    match f.op
    case Is => IsNull(f.col)
    case In => EqAny(f.col, n)
    case Contains => ContainedIn(f.col, n)
    case _ => Cmp(f.col, SqlOp(f.op), n)
  }

  /** `_where`: one condition a filter; every filter but `is` pushes its value. */
  function WhereOf(start: seq<Val>, fs: seq<Filter>): Emitted<seq<Cond>> {
    if fs == [] then Emitted([], start)
    else
      var b, f := WhereOf(start, fs[..|fs| - 1]), fs[|fs| - 1];
      var params := if f.op == Is then b.params else b.params + [f.val];
      Emitted(b.part + [CondOf(f, |params|)], params)
  }

  /** One cell a column, each pushing its value. */
  function CellsOf(t: Types, start: seq<Val>, cols: seq<string>, row: Fields): Emitted<seq<Cell>> {
    if cols == [] then Emitted([], start)
    else
      var b, c := CellsOf(t, start, cols[..|cols| - 1], row), cols[|cols| - 1];
      var (cast, param) := Encode(t.isJson(c), Lookup(row, c));
      Emitted(b.part + [Cell(|b.params| + 1, cast)], b.params + [param])
  }

  function RowsOf(t: Types, start: seq<Val>, cols: seq<string>, rows: seq<Fields>): Emitted<seq<seq<Cell>>> {
    if rows == [] then Emitted([], start)
    else
      var b := RowsOf(t, start, cols, rows[..|rows| - 1]);
      var r := CellsOf(t, b.params, cols, rows[|rows| - 1]);
      Emitted(b.part + [r.part], r.params)
  }

  function Target(t: Types, q: Query): seq<string> {
    if q.onConflict.Some? then q.onConflict.value else t.pk
  }

  function Without(cols: seq<string>, target: seq<string>): seq<string> {
    if cols == [] then []
    else Without(cols[..|cols| - 1], target) + if cols[|cols| - 1] in target then [] else [cols[|cols| - 1]]
  }

  /** Payloads the calls leave behind: `insert` of no rows throws, several rows at once are upserted nowhere. */
  predicate Buildable(q: Query) {
    match q.op
    case Insert => q.payload != []
    case Upsert => |q.payload| == 1
    case Update => |q.payload| == 1
    case _ => true
  }

  function Compile(t: Types, q: Query): Emitted<Stmt>
    requires Buildable(q)
  {
    match q.op
    case Insert =>
      var cols := Keys(q.payload[0]);
      var e := RowsOf(t, [], cols, q.payload);
      Emitted(InsertStmt(cols, e.part, q.returning), e.params)
    case Upsert =>
      var cols := Keys(q.payload[0]);
      var e := CellsOf(t, [], cols, q.payload[0]);
      Emitted(UpsertStmt(cols, e.part, Target(t, q), Without(cols, Target(t, q)), q.returning), e.params)
    case Update =>
      var cols := Keys(q.payload[0]);
      var e := CellsOf(t, [], cols, q.payload[0]);
      var w := WhereOf(e.params, q.filters);
      Emitted(UpdateStmt(cols, e.part, w.part, q.returning), w.params)
    case Delete =>
      var w := WhereOf([], q.filters);
      Emitted(DeleteStmt(w.part, q.returning), w.params)
    case _ =>
      var w := WhereOf([], q.filters);
      Emitted(if q.head then CountStmt(w.part) else SelectStmt(q.selectCols, w.part, q.orders, q.limit), w.params)
  }

  // ---- The builder object ----

  class PgQuery {
    const types: Types
    var state: Query

    constructor (t: Types)
      ensures types == t && state == Blank
    {
      types, state := t, Blank;
    }

    /** `count` asks for an exact count, which only the head form supports; None is the thrown error. */
    method SelectCols(cols: Returning, count: bool, head: bool) returns (ok: bool)
      requires cols != Nothing
      modifies this
      ensures ok == (count ==> head)
      ensures !ok ==> state == old(state)
      ensures ok ==> state == (var q := if count then old(state).(count := true, head := true) else old(state);
                               if q.op == NoOp then q.(op := Select, selectCols := cols) else q.(returning := cols))
    {
      if count {
        if !head { return false; }
        state := state.(count := true, head := true);
      }
      if state.op == NoOp {
        state := state.(op := Select, selectCols := cols);
      } else {
        state := state.(returning := cols);
      }
      ok := true;
    }

    method InsertRows(rows: seq<Fields>)
      modifies this
      ensures state == old(state).(op := Insert, payload := rows)
    {
      state := state.(op := Insert, payload := rows);
    }

    method UpdateWith(obj: Fields, count: bool)
      modifies this
      ensures state == old(state).(op := Update, payload := [obj], count := old(state).count || count)
    {
      state := state.(op := Update, payload := [obj], count := state.count || count);
    }

    method UpsertRow(row: Fields, onConflict: Option<seq<string>>)
      modifies this
      ensures state == old(state).(op := Upsert, payload := [row], onConflict := onConflict)
    {
      state := state.(op := Upsert, payload := [row], onConflict := onConflict);
    }

    method DeleteRows(count: bool)
      modifies this
      ensures state == old(state).(op := Delete, count := old(state).count || count)
    {
      state := state.(op := Delete, count := state.count || count);
    }

    /** eq, is, in, gt, gte, lt, lte, contains. */
    method AddFilter(col: string, op: FilterOp, val: Val)
      modifies this
      ensures state == old(state).(filters := old(state).filters + [Filter(col, op, val)])
    {
      state := state.(filters := state.filters + [Filter(col, op, val)]);
    }

    method OrderBy(col: string, ascending: bool, nullsFirst: Option<bool>)
      modifies this
      ensures state == old(state).(orders := old(state).orders + [Order(col, ascending, nullsFirst)])
    {
      state := state.(orders := state.orders + [Order(col, ascending, nullsFirst)]);
    }

    method LimitTo(n: nat)
      modifies this
      ensures state == old(state).(limit := Some(n))
    {
      state := state.(limit := Some(n));
    }

    method Expect(mode: RowMode)
      modifies this
      ensures state == old(state).(rowMode := mode)
    {
      state := state.(rowMode := mode);
    }

    method WhereClause(params: seq<Val>) returns (conds: seq<Cond>, params': seq<Val>)
      ensures Emitted(conds, params') == WhereOf(params, state.filters)
    {
      conds, params' := [], params;
      var fs := state.filters;
      for i := 0 to |fs|
        invariant Emitted(conds, params') == WhereOf(params, fs[..i])
      {
        assert fs[..i + 1][..i] == fs[..i];
        var f := fs[i];
        if f.op != Is { params' := params' + [f.val]; }
        conds := conds + [CondOf(f, |params'|)];
      }
      assert fs[..|fs|] == fs;
    }

    method Cells(params: seq<Val>, cols: seq<string>, row: Fields) returns (cells: seq<Cell>, params': seq<Val>)
      ensures Emitted(cells, params') == CellsOf(types, params, cols, row)
    {
      cells, params' := [], params;
      for i := 0 to |cols|
        invariant Emitted(cells, params') == CellsOf(types, params, cols[..i], row)
      {
        assert cols[..i + 1][..i] == cols[..i];
        var (cast, param) := Encode(types.isJson(cols[i]), Lookup(row, cols[i]));
        params' := params' + [param];
        cells := cells + [Cell(|params'|, cast)];
      }
      assert cols[..|cols|] == cols;
    }

    method Values(cols: seq<string>, rows: seq<Fields>) returns (cells: seq<seq<Cell>>, params: seq<Val>)
      ensures Emitted(cells, params) == RowsOf(types, [], cols, rows)
    {
      cells, params := [], [];
      for i := 0 to |rows|
        invariant Emitted(cells, params) == RowsOf(types, [], cols, rows[..i])
      {
        assert rows[..i + 1][..i] == rows[..i];
        var row;
        row, params := Cells(params, cols, rows[i]);
        cells := cells + [row];
      }
      assert rows[..|rows|] == rows;
    }

    method Build() returns (sql: Stmt, params: seq<Val>, wantsRows: bool)
      requires Buildable(state)
      ensures Emitted(sql, params) == Compile(types, state)
      ensures wantsRows == (state.op == NoOp || state.op == Select || state.returning != Nothing)
    {
      var q := state;
      wantsRows := q.returning != Nothing;
      if q.op == Insert {
        var cols := Keys(q.payload[0]);
        var rows;
        rows, params := Values(cols, q.payload);
        sql := InsertStmt(cols, rows, q.returning);
      } else if q.op == Upsert {
        var cols := Keys(q.payload[0]);
        var row;
        row, params := Cells([], cols, q.payload[0]);
        sql := UpsertStmt(cols, row, Target(types, q), Without(cols, Target(types, q)), q.returning);
      } else if q.op == Update {
        var cols := Keys(q.payload[0]);
        var cells, conds;
        cells, params := Cells([], cols, q.payload[0]);
        conds, params := WhereClause(params);
        sql := UpdateStmt(cols, cells, conds, q.returning);
      } else if q.op == Delete {
        var conds;
        conds, params := WhereClause([]);
        sql := DeleteStmt(conds, q.returning);
      } else {
        var conds;
        conds, params := WhereClause([]);
        sql := if q.head then CountStmt(conds) else SelectStmt(q.selectCols, conds, q.orders, q.limit);
        wantsRows := true;
      }
    }

    method ShapeRows(rows: seq<Record>, wantsRows: bool) returns (reply: Reply)
      ensures Fits(state, wantsRows, rows, reply)
    {
      if !wantsRows { return NoData; }
      match state.rowMode
      case Single => reply := if |rows| == 1 then OneRow(Some(rows[0])) else NotSingle;
      case Maybe =>
        reply := if |rows| == 0 then OneRow(None) else if |rows| == 1 then OneRow(Some(rows[0])) else NotSingle;
      case Many => reply := Rows(rows);
    }

    /** A write counts its rows only when asked to; the head form gives nothing but the count. */
    method Shape(rows: seq<Record>, wantsRows: bool, rowCount: nat) returns (reply: Reply, count: Option<Val>)
      ensures state.op in {Update, Delete} ==>
        Fits(state, wantsRows, rows, reply) && count == if state.count then Some(Num(rowCount)) else None
      ensures state.op !in {Update, Delete} && state.head ==>
        reply == NoData && count == Some(if rows == [] then Num(0) else Get(rows[0], "count"))
      ensures state.op !in {Update, Delete} && !state.head ==> Fits(state, wantsRows, rows, reply) && count == None
    {
      if state.op == Update || state.op == Delete {
        reply := ShapeRows(rows, wantsRows);
        count := if state.count then Some(Num(rowCount)) else None;
      } else if state.head {
        reply, count := NoData, Some(if |rows| > 0 then Get(rows[0], "count") else Num(0));
      } else {
        reply := ShapeRows(rows, wantsRows);
        count := None;
      }
    }

    /** Builds the statement, runs it on `db` and shapes the rows; None
        for a statement the database refuses. `found` is its answer to a select: one of those it may give. */
    method Run(db: Server, table: seq<Record>, found: seq<Record>)
      returns (res: Option<(seq<Record>, Reply, Option<Val>)>)
      requires Buildable(state)
      requires IsSelect(state) ==>
        Selects(db.less, Compile(types, state).part, Compile(types, state).params, table, found)
      ensures res.None? <==> !WellFormed(Compile(types, state).part)
      ensures res.Some? && !IsSelect(state) ==>
        exists e :: Does(db, types, state, table, e) && Outcome(state, e, res.value)
      ensures res.Some? && IsSelect(state) ==>
        res.value.0 == table && Fits(state, true, found, res.value.1) && res.value.2 == None
    {
      var sql, params, wantsRows := Build();
      assert sql == Compile(types, state).part && params == Compile(types, state).params;
      if !WellFormed(sql) { return None; }
      var reply, count;
      if IsSelect(state) {
        reply, count := Shape(found, wantsRows, |found|);
        return Some((table, reply, count));
      }
      var e := Exec(db, sql, params, table);
      CompilationPreservesMeaning(db, types, state, table);
      reply, count := Shape(e.returned, wantsRows, e.affected);
      res := Some((e.table, reply, count));
    }
  }

  predicate IsSelect(q: Query) { q.op in {NoOp, Select} && !q.head }

  /** The table and reply a caller sees after the effect `e`. */
  predicate Outcome(q: Query, e: Effect, res: (seq<Record>, Reply, Option<Val>)) {
    && res.0 == e.table
    && (if q.op in {Update, Delete} then
          Fits(q, q.returning != Nothing, e.returned, res.1) && res.2 == if q.count then Some(Num(e.affected)) else None
        else if q.head && q.op in {NoOp, Select} then res.1 == NoData && res.2 == Some(Num(e.affected))
        else if q.head then res.1 == NoData
        else Fits(q, q.returning != Nothing, e.returned, res.1) && res.2 == None)
  }

  // ---- What the calls mean ----

  /** `data` of a reply to `n` rows that matched: `single` wants one, `maybeSingle` at most one. */
  predicate Fits(q: Query, wantsRows: bool, rows: seq<Record>, reply: Reply) {
    match reply
    case NoData => !wantsRows
    case Rows(rs) => wantsRows && q.rowMode == Many && rs == rows
    case OneRow(r) =>
      wantsRows && if r.Some? then q.rowMode != Many && rows == [r.value] else q.rowMode == Maybe && rows == []
    case NotSingle =>
      wantsRows && ((q.rowMode == Single && |rows| != 1) || (q.rowMode == Maybe && |rows| > 1))
  }

  /** A row passes a filter; NULL passes only `is`. */
  predicate Holds(less: (Val, Val) -> bool, f: Filter, r: Record) {
    var v := Get(r, f.col);
    match f.op
    case Is => v == Null
    case Eq => v != Null && v == f.val
    case In => v != Null && f.val.Arr? && v in f.val.items
    case Gt => v != Null && f.val != Null && less(f.val, v)
    case Gte => v != Null && f.val != Null && (less(f.val, v) || v == f.val)
    case Lt => v != Null && f.val != Null && less(v, f.val)
    case Lte => v != Null && f.val != Null && (less(v, f.val) || v == f.val)
    case Contains => v.Arr? && f.val.Arr? && forall x | x in f.val.items :: x != Null && x in v.items
  }

  predicate Passes(less: (Val, Val) -> bool, fs: seq<Filter>, r: Record) {
    forall f | f in fs :: Holds(less, f, r)
  }

  /** What a column holds of a payload value: objects and arrays for jsonb as they are, anything else as the
      column stores it. */
  function Held(db: Server, t: Types, c: string, v: Val): Val {
    if t.isJson(c) && (v.Obj? || v.Arr?) then v else db.Stores(c, v)
  }

  /** The payload object as a stored record with the given columns. */
  function RecordOf(db: Server, t: Types, cols: seq<string>, row: Fields): Record {
    map c | c in cols :: Held(db, t, c, Lookup(row, c))
  }

  /** A string in a jsonb column, or an array in one that is not known as such, travels as it is and is
      parsed there. */
  predicate Reread(db: Server, t: Types, c: string, v: Val) {
    db.isJson(c) && (v.Str? || (v.Arr? && !t.isJson(c)))
  }

  /** No column is sent text that it would read as JSON of another value. */
  predicate TakenAsSent(db: Server, t: Types, cols: seq<string>, row: Fields) {
    forall c | c in cols :: Reread(db, t, c, Lookup(row, c)) ==> db.uncast(Lookup(row, c)) == Lookup(row, c)
  }

  /** The stored record holds the payload's own values exactly when no jsonb column is sent a string that
      parses to something else. */
  lemma RecordIsPayloadExactly(db: Server, t: Types, cols: seq<string>, row: Fields)
    ensures RecordOf(db, t, cols, row) == (map c | c in cols :: Lookup(row, c)) <==> TakenAsSent(db, t, cols, row)
  {
    var a, b := RecordOf(db, t, cols, row), map c | c in cols :: Lookup(row, c);
    if TakenAsSent(db, t, cols, row) {
      assert forall c :: c in cols ==> a[c] == b[c];
    } else {
      var c :| c in cols && Reread(db, t, c, Lookup(row, c)) && db.uncast(Lookup(row, c)) != Lookup(row, c);
      assert a[c] != b[c];
    }
  }

  /** Conditions only look at parameters that are there already. */
  lemma {:induction false} WhereExtends(start: seq<Val>, fs: seq<Filter>)
    ensures var w := WhereOf(start, fs);
      |w.part| == |fs| && |start| <= |w.params| && w.params[..|start|] == start
  {
    if fs != [] {
      WhereExtends(start, fs[..|fs| - 1]);
      var b := WhereOf(start, fs[..|fs| - 1]);
      assert (b.params + [fs[|fs| - 1].val])[..|start|] == b.params[..|start|];
    }
  }

  lemma EvalSnoc(less: (Val, Val) -> bool, cs: seq<Cond>, c: Cond, params: seq<Val>, r: Record)
    ensures EvalWhere(less, cs + [c], params, r) == T
      <==> EvalWhere(less, cs, params, r) == T && EvalCond(less, c, params, r) == T
  {
    assert (cs + [c])[..|cs|] == cs;
  }

  lemma PassesSnoc(less: (Val, Val) -> bool, fs: seq<Filter>, f: Filter, r: Record)
    ensures Passes(less, fs + [f], r) <==> Passes(less, fs, r) && Holds(less, f, r)
  {
    assert forall g :: g in fs + [f] <==> g in fs || g == f;
  }

  /** The emitted WHERE clause is true of exactly the rows that pass every filter, whatever
      parameters come before its own or after them. */
  lemma {:induction false} WhereMeans(less: (Val, Val) -> bool, start: seq<Val>, fs: seq<Filter>, params: seq<Val>,
                                      r: Record)
    requires WhereOf(start, fs).params <= params
    ensures EvalWhere(less, WhereOf(start, fs).part, params, r) == T <==> Passes(less, fs, r)
  {
    if fs != [] {
      var init, f := fs[..|fs| - 1], fs[|fs| - 1];
      var b, w := WhereOf(start, init), WhereOf(start, fs);
      assert fs == init + [f];
      assert b.params <= w.params <= params;
      WhereMeans(less, start, init, params, r);
      EvalSnoc(less, b.part, CondOf(f, |w.params|), params, r);
      CondMeans(less, f, |w.params|, params, r);
      PassesSnoc(less, init, f, r);
    }
  }

  lemma CondMeans(less: (Val, Val) -> bool, f: Filter, n: nat, params: seq<Val>, r: Record)
    requires f.op != Is ==> Param(params, n) == f.val
    ensures EvalCond(less, CondOf(f, n), params, r) == T <==> Holds(less, f, r)
  {}

  lemma RecordSnoc(db: Server, t: Types, init: seq<string>, c: string, row: Fields)
    ensures RecordOf(db, t, init + [c], row) == RecordOf(db, t, init, row)[c := Held(db, t, c, Lookup(row, c))]
  {}

  lemma {:induction false} CellsMean(db: Server, t: Types, start: seq<Val>, cols: seq<string>, row: Fields,
                                     params: seq<Val>)
    requires CellsOf(t, start, cols, row).params <= params
    ensures var e := CellsOf(t, start, cols, row);
      |e.part| == |cols| && start <= e.params && MakeRecord(db, cols, e.part, params) == RecordOf(db, t, cols, row)
  {
    if cols != [] {
      var init, c := cols[..|cols| - 1], cols[|cols| - 1];
      var b, e := CellsOf(t, start, init, row), CellsOf(t, start, cols, row);
      assert cols == init + [c];
      RecordSnoc(db, t, init, c, row);
      assert b.params <= e.params <= params;
      CellsMean(db, t, start, init, row, params);
      assert e.part[..|e.part| - 1] == b.part;
    }
  }

  lemma {:induction false} RowsMean(db: Server, t: Types, start: seq<Val>, cols: seq<string>, rows: seq<Fields>,
                                    params: seq<Val>)
    requires RowsOf(t, start, cols, rows).params <= params
    ensures var e := RowsOf(t, start, cols, rows);
      && |e.part| == |rows| && start <= e.params
      && (forall i :: 0 <= i < |rows| ==> |e.part[i]| == |cols|)
      && (forall i :: 0 <= i < |rows| ==> MakeRecord(db, cols, e.part[i], params) == RecordOf(db, t, cols, rows[i]))
  {
    if rows != [] {
      var init := rows[..|rows| - 1];
      var b := RowsOf(t, start, cols, init);
      CellsMean(db, t, b.params, cols, rows[|rows| - 1], params);
      RowsMean(db, t, start, cols, init, params);
    }
  }

  // ---- The meaning of a builder state, without SQL ----

  predicate Agree(target: seq<string>, a: Record, b: Record) {
    forall c | c in target :: Get(b, c) != Null && Get(a, c) == Get(b, c)
  }

  /** What the calls ask for, stated on rows: `e` is the outcome of the builder state on `table`. */
  ghost predicate Does(db: Server, t: Types, q: Query, table: seq<Record>, e: Effect)
    requires Buildable(q)
  {
    var hit := Keep(r => Passes(db.less, q.filters, r), table);
    match q.op
    case Insert =>
      var cols := Keys(q.payload[0]);
      var new_ := seq(|q.payload|, i requires 0 <= i < |q.payload| => RecordOf(db, t, cols, q.payload[i]));
      e == Effect(table + new_, ProjectAll(q.returning, new_), |new_|)
    case Update =>
      var set_ := RecordOf(db, t, Keys(q.payload[0]), q.payload[0]);
      var changed := Changed(r => Passes(db.less, q.filters, r), set_, table);
      e == Effect(changed, ProjectAll(q.returning, Overwrite(set_, hit)), |hit|)
    case Delete =>
      e == Effect(Keep(r => !Passes(db.less, q.filters, r), table), ProjectAll(q.returning, hit), |hit|)
    case Upsert =>
      var cols := Keys(q.payload[0]);
      DoesUpsert(RecordOf(db, t, cols, q.payload[0]), cols, Target(t, q), q.returning, table, e)
    case _ =>
      e == if q.head then Effect(table, [map["count" := Num(|hit|)]], |hit|) else Effect(table, [], 0)
  }

  /** The first row that agrees with the payload on the target takes over the payload; without one
      the payload is appended. A payload of target columns alone leaves an agreeing row untouched. */
  ghost predicate DoesUpsert(row: Record, cols: seq<string>, target: seq<string>, ret: Returning,
                             table: seq<Record>, e: Effect) {
    if exists i :: 0 <= i < |table| && Agree(target, table[i], row) then
      exists i ::
        && 0 <= i < |table| && Agree(target, table[i], row)
        && (forall j :: 0 <= j < i ==> !Agree(target, table[j], row))
        && e.table == table[i := table[i] + row]
        && (if forall c :: c in cols ==> c in target then e.returned == [] && e.affected == 0
            else e.returned == ProjectAll(ret, [table[i] + row]) && e.affected == 1)
    else e == Effect(table + [row], ProjectAll(ret, [row]), 1)
  }

  lemma {:induction false} FirstConflict(table: seq<Record>, target: seq<string>, r: Record)
    ensures var i := Conflict(table, target, r);
      && (i.Some? ==> i.value < |table| && Agree(target, table[i.value], r)
                      && forall j :: 0 <= j < i.value ==> !Agree(target, table[j], r))
      && (i.None? ==> forall j :: 0 <= j < |table| ==> !Agree(target, table[j], r))
  {
    if table != [] {
      FirstConflict(table[..|table| - 1], target, r);
      assert forall i :: 0 <= i < |table| - 1 ==> table[..|table| - 1][i] == table[i];
    }
  }

  lemma {:induction false} WithoutKeeps(cols: seq<string>, target: seq<string>)
    ensures forall c :: c in Without(cols, target) <==> c in cols && c !in target
  {
    if cols != [] { WithoutKeeps(cols[..|cols| - 1], target); }
  }

  /** Setting the other columns from EXCLUDED makes the row take over the whole payload. */
  lemma ExcludedIsAll(old_: Record, row: Record, cols: seq<string>, target: seq<string>)
    requires Agree(target, old_, row)
    requires forall c :: c in row <==> c in cols
    ensures old_ + Excluded(row, Without(cols, target)) == old_ + row
  {
    WithoutKeeps(cols, target);
    var sets := Without(cols, target);
    forall c | c in old_ + row
      ensures c in old_ + Excluded(row, sets) && (old_ + Excluded(row, sets))[c] == (old_ + row)[c]
    {
      if c in row && c in target { assert Get(row, c) == Get(old_, c) != Null; }
    }
  }

  lemma UpsertTakesOver(cols: seq<string>, row: Record, target: seq<string>, ret: Returning, table: seq<Record>,
                        e: Effect)
    requires forall c :: c in row <==> c in cols
    requires var sets := Without(cols, target);
      match Conflict(table, target, row)
      case None => e == Effect(table + [row], ProjectAll(ret, [row]), 1)
      case Some(i) =>
        if i >= |table| || sets == [] then e == Effect(table, [], 0)
        else var r' := table[i] + Excluded(row, sets); e == Effect(table[i := r'], ProjectAll(ret, [r']), 1)
    ensures DoesUpsert(row, cols, target, ret, table, e)
  {
    FirstConflict(table, target, row);
    WithoutKeeps(cols, target);
    var found := Conflict(table, target, row);
    if found.Some? {
      var i := found.value;
      ExcludedIsAll(table[i], row, cols, target);
      var sets := Without(cols, target);
      if sets == [] {
        assert table[i] + Excluded(row, sets) == table[i];
        assert forall c :: c in cols ==> c in target;
      } else {
        assert sets[0] in sets;
      }
    }
  }

  lemma {:induction false} CellsFit(t: Types, start: seq<Val>, cols: seq<string>, row: Fields)
    ensures |CellsOf(t, start, cols, row).part| == |cols|
  {
    if cols != [] { CellsFit(t, start, cols[..|cols| - 1], row); }
  }

  lemma {:induction false} ValuesFit(t: Types, start: seq<Val>, cols: seq<string>, rows: seq<Fields>)
    ensures var e := RowsOf(t, start, cols, rows);
      |e.part| == |rows| && forall i :: 0 <= i < |rows| ==> |e.part[i]| == |cols|
  {
    if rows != [] {
      var init := rows[..|rows| - 1];
      ValuesFit(t, start, cols, init);
      CellsFit(t, RowsOf(t, start, cols, init).params, cols, rows[|rows| - 1]);
    }
  }

  lemma NoKeys(f: Fields)
    ensures |Keys(f)| == |f| && (Keys(f) == [] <==> f == [])
  {}

  /** The statement is well formed unless there is no column to write or nothing to conflict on. */
  lemma CompilesExactly(t: Types, q: Query)
    requires Buildable(q)
    ensures WellFormed(Compile(t, q).part) <==>
      (q.op in {Insert, Update, Upsert} ==> q.payload[0] != []) && (q.op == Upsert ==> Target(t, q) != [])
  {
    match q.op
    case Insert =>
      NoKeys(q.payload[0]);
      ValuesFit(t, [], Keys(q.payload[0]), q.payload);
    case Update =>
      NoKeys(q.payload[0]);
      CellsFit(t, [], Keys(q.payload[0]), q.payload[0]);
    case Upsert =>
      NoKeys(q.payload[0]);
      CellsFit(t, [], Keys(q.payload[0]), q.payload[0]);
    case _ =>
  }

  /** The rows WHERE selects are the rows passing the filters; `start` are the parameters of SET. */
  lemma FilterMeans(less: (Val, Val) -> bool, start: seq<Val>, fs: seq<Filter>, table: seq<Record>)
    ensures var w := WhereOf(start, fs);
      && Keep(Where(less, w.part, w.params), table) == Keep(r => Passes(less, fs, r), table)
      && Keep(r => EvalWhere(less, w.part, w.params, r) != T, table) == Keep(r => !Passes(less, fs, r), table)
  {
    var w := WhereOf(start, fs);
    forall r ensures EvalWhere(less, w.part, w.params, r) == T <==> Passes(less, fs, r) {
      WhereMeans(less, start, fs, w.params, r);
    }
    KeepSame(Where(less, w.part, w.params), r => Passes(less, fs, r), table);
    KeepSame(r => EvalWhere(less, w.part, w.params, r) != T, r => !Passes(less, fs, r), table);
  }

  lemma ChangedMeans(less: (Val, Val) -> bool, start: seq<Val>, fs: seq<Filter>, set_: Record, table: seq<Record>)
    ensures var w := WhereOf(start, fs);
      Changed(Where(less, w.part, w.params), set_, table) == Changed(r => Passes(less, fs, r), set_, table)
  {
    var w := WhereOf(start, fs);
    forall i | 0 <= i < |table|
      ensures EvalWhere(less, w.part, w.params, table[i]) == T <==> Passes(less, fs, table[i])
    {
      WhereMeans(less, start, fs, w.params, table[i]);
    }
  }

  lemma InsertMeans(db: Server, t: Types, q: Query, table: seq<Record>)
    requires q.op == Insert && Buildable(q) && WellFormed(Compile(t, q).part)
    ensures Does(db, t, q, table, Exec(db, Compile(t, q).part, Compile(t, q).params, table))
  {
    var cols := Keys(q.payload[0]);
    var e := RowsOf(t, [], cols, q.payload);
    RowsMean(db, t, [], cols, q.payload, e.params);
    assert Records(db, cols, e.part, e.params)
        == seq(|q.payload|, i requires 0 <= i < |q.payload| => RecordOf(db, t, cols, q.payload[i]));
  }

  lemma UpdateMeans(db: Server, t: Types, q: Query, table: seq<Record>)
    requires q.op == Update && Buildable(q) && WellFormed(Compile(t, q).part)
    ensures Does(db, t, q, table, Exec(db, Compile(t, q).part, Compile(t, q).params, table))
  {
    var cols := Keys(q.payload[0]);
    var e := CellsOf(t, [], cols, q.payload[0]);
    WhereExtends(e.params, q.filters);
    assert e.params <= WhereOf(e.params, q.filters).params;
    CellsMean(db, t, [], cols, q.payload[0], WhereOf(e.params, q.filters).params);
    FilterMeans(db.less, e.params, q.filters, table);
    ChangedMeans(db.less, e.params, q.filters, RecordOf(db, t, cols, q.payload[0]), table);
  }

  lemma UpsertMeans(db: Server, t: Types, q: Query, table: seq<Record>)
    requires q.op == Upsert && Buildable(q) && WellFormed(Compile(t, q).part)
    ensures Does(db, t, q, table, Exec(db, Compile(t, q).part, Compile(t, q).params, table))
  {
    var cols := Keys(q.payload[0]);
    var e := CellsOf(t, [], cols, q.payload[0]);
    CellsMean(db, t, [], cols, q.payload[0], e.params);
    UpsertTakesOver(cols, RecordOf(db, t, cols, q.payload[0]), Target(t, q), q.returning, table,
                Exec(db, Compile(t, q).part, Compile(t, q).params, table));
  }

  /** Compilation preserves meaning, for every builder state, table and order of values: inserting,
      updating, upserting and deleting through the emitted statement and parameters does on the
      rows exactly what the calls ask for, and returns and counts the same. */
  lemma CompilationPreservesMeaning(db: Server, t: Types, q: Query, table: seq<Record>)
    requires Buildable(q) && WellFormed(Compile(t, q).part)
    ensures Does(db, t, q, table, Exec(db, Compile(t, q).part, Compile(t, q).params, table))
  {
    match q.op
    case Insert => InsertMeans(db, t, q, table);
    case Update => UpdateMeans(db, t, q, table);
    case Upsert => UpsertMeans(db, t, q, table);
    case _ => FilterMeans(db.less, [], q.filters, table);
  }

  /** The possible results of the emitted SELECT are the arrangements of the rows passing the filters,
      no more and no fewer. */
  lemma SelectPreservesMeaning(less: (Val, Val) -> bool, t: Types, q: Query, table: seq<Record>, out: seq<Record>)
    requires IsSelect(q)
    ensures Selects(less, Compile(t, q).part, Compile(t, q).params, table, out)
       <==> Arranged(less, q.orders, q.limit, q.selectCols, Keep(r => Passes(less, q.filters, r), table), out)
  {
    FilterMeans(less, [], q.filters, table);
  }
}
