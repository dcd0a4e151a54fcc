/** SQL statements as the query builder emits them, and what PostgreSQL makes of them. */
module Sql {
  import opened Rows
  import opened Seqs

  /** Values of columns and parameters. `JsonText(v)` is the text JSON.stringify makes of `v`. */
  datatype Val = Null | Num(n: int) | Str(s: string) | Arr(items: seq<Val>) | Obj(o: nat) | JsonText(doc: Val)

  /** A stored row; a missing column is NULL. */
  type Record = map<string, Val>

  function Get(r: Record, col: string): Val { if col in r then r[col] else Null }

  datatype Tri = T | F | U

  function OfBool(b: bool): Tri { if b then T else F }

  function And(a: Tri, b: Tri): Tri { if a == F || b == F then F else if a == T && b == T then T else U }

  datatype CmpOp = EQ | GT | GE | LT | LE

  /** A condition of the WHERE clause; `n` is the number of a positional parameter, from 1. */
  datatype Cond =
    | IsNull(col: string)
    | Cmp(col: string, op: CmpOp, n: nat)
    | EqAny(col: string, n: nat)
    | ContainedIn(col: string, n: nat)

  /** A value in VALUES or SET: `$n` or `$n::jsonb`. */
  datatype Cell = Cell(n: nat, cast: bool)

  datatype Order = Order(col: string, ascending: bool, nullsFirst: Option<bool>)

  /** RETURNING: absent, all columns, or a list. */
  datatype Returning = Nothing | All | Cols(cols: seq<string>)

  datatype Stmt =
    | SelectStmt(proj: Returning, wheres: seq<Cond>, orders: seq<Order>, limit: Option<nat>)
    | CountStmt(wheres: seq<Cond>)
    | InsertStmt(cols: seq<string>, rows: seq<seq<Cell>>, returning: Returning)
    | UpsertStmt(cols: seq<string>, row: seq<Cell>, target: seq<string>, sets: seq<string>, returning: Returning)
    | UpdateStmt(setCols: seq<string>, cells: seq<Cell>, wheres: seq<Cond>, returning: Returning)
    | DeleteStmt(wheres: seq<Cond>, returning: Returning)

  function Param(params: seq<Val>, n: nat): Val { if 1 <= n <= |params| then params[n - 1] else Null }

  /** Three-valued comparison; `less` is the order of the column's type and collation. */
  function Compare(less: (Val, Val) -> bool, op: CmpOp, a: Val, b: Val): Tri {
    if a == Null || b == Null then U
    else
      match op
      case EQ => OfBool(a == b)
      case GT => OfBool(less(b, a))
      case GE => OfBool(less(b, a) || a == b)
      case LT => OfBool(less(a, b))
      case LE => OfBool(less(a, b) || a == b)
  }

  /** `a = ANY(p)`: unknown if nothing matches and a NULL took part. */
  function AnyOf(a: Val, p: Val): Tri {
    if !p.Arr? then U
    else if p.items == [] then F
    else if a == Null then U
    else if a in p.items then T
    else if Null in p.items then U
    else F
  }

  /** `a @> p` on arrays; NULL elements match nothing. */
  function Contains(a: Val, p: Val): Tri {
    if !a.Arr? || !p.Arr? then U
    else OfBool(forall x | x in p.items :: x != Null && x in a.items)
  }

  function EvalCond(less: (Val, Val) -> bool, c: Cond, params: seq<Val>, r: Record): Tri {
    match c
    case IsNull(col) => OfBool(Get(r, col) == Null)
    case Cmp(col, op, n) => Compare(less, op, Get(r, col), Param(params, n))
    case EqAny(col, n) => AnyOf(Get(r, col), Param(params, n))
    case ContainedIn(col, n) => Contains(Get(r, col), Param(params, n))
  }

  function EvalWhere(less: (Val, Val) -> bool, cs: seq<Cond>, params: seq<Val>, r: Record): Tri {
    if cs == [] then T
    else And(EvalWhere(less, cs[..|cs| - 1], params, r), EvalCond(less, cs[|cs| - 1], params, r))
  }

  /** A server: the order of values, the columns of type jsonb, and what a jsonb column makes of a string or
      an array that reaches it without a cast: it parses the text, an array's being that of a SQL array. */
  datatype Server = Server(less: (Val, Val) -> bool, isJson: string -> bool, uncast: Val -> Val) {
    function Stores(col: string, v: Val): Val { if isJson(col) && (v.Str? || v.Arr?) then uncast(v) else v }
  }

  /** `$n::jsonb` parses the parameter's text; any other parameter is left to the column. */
  function EvalCell(db: Server, col: string, c: Cell, params: seq<Val>): Val {
    var v := Param(params, c.n);
    if c.cast && v.JsonText? then v.doc else db.Stores(col, v)
  }

  /** The row with columns `cols` and the values of `cells`. */
  function MakeRecord(db: Server, cols: seq<string>, cells: seq<Cell>, params: seq<Val>): Record
    requires |cols| == |cells|
  {
    if cols == [] then map[]
    else
      var init, col := MakeRecord(db, cols[..|cols| - 1], cells[..|cells| - 1], params), cols[|cols| - 1];
      init[col := EvalCell(db, col, cells[|cells| - 1], params)]
  }

  /** The rows `p` holds of, changed by `set_`; the others as they are. */
  function Changed(p: Record -> bool, set_: Record, table: seq<Record>): seq<Record> {
    seq(|table|, i requires 0 <= i < |table| => if p(table[i]) then table[i] + set_ else table[i])
  }

  function Overwrite(set_: Record, rows: seq<Record>): seq<Record> {
    seq(|rows|, i requires 0 <= i < |rows| => rows[i] + set_)
  }

  /** WHERE selects the rows of which the conditions are true, neither false nor unknown. */
  function Where(less: (Val, Val) -> bool, cs: seq<Cond>, params: seq<Val>): Record -> bool {
    r => EvalWhere(less, cs, params, r) == T
  }

  function Project(ret: Returning, r: Record): Record {
    if ret.Cols? then map c | c in ret.cols :: Get(r, c) else r
  }

  function ProjectAll(ret: Returning, rs: seq<Record>): seq<Record> {
    if ret == Nothing then [] else seq(|rs|, i requires 0 <= i < |rs| => Project(ret, rs[i]))
  }

  /** The first row that agrees with `r` on the columns of the conflict target. */
  function Conflict(table: seq<Record>, target: seq<string>, r: Record): Option<nat> {
    if table == [] then None
    else
      var before := Conflict(table[..|table| - 1], target, r);
      if before.Some? then before
      else if forall c | c in target :: Get(r, c) != Null && Get(table[|table| - 1], c) == Get(r, c)
      then Some(|table| - 1)
      else None
  }

  /** The table after a statement, the rows it returns and the number of rows it touched. */
  datatype Effect = Effect(table: seq<Record>, returned: seq<Record>, affected: nat)

  function Records(db: Server, cols: seq<string>, rows: seq<seq<Cell>>, params: seq<Val>): seq<Record>
    requires forall i :: 0 <= i < |rows| ==> |rows[i]| == |cols|
  {
    seq(|rows|, i requires 0 <= i < |rows| => MakeRecord(db, cols, rows[i], params))
  }

  /** EXCLUDED's values for the columns of SET. */
  function Excluded(r: Record, sets: seq<string>): Record { map c | c in sets :: Get(r, c) }

  /** Statements PostgreSQL can parse: no empty lists, one value a column. */
  predicate WellFormed(q: Stmt) {
    match q
    case InsertStmt(cols, rows, _) => cols != [] && rows != [] && forall i :: 0 <= i < |rows| ==> |rows[i]| == |cols|
    case UpsertStmt(cols, row, target, _, _) => cols != [] && target != [] && |row| == |cols|
    case UpdateStmt(setCols, cells, _, _) => setCols != [] && |cells| == |setCols|
    case _ => true
  }

  /** Writes, apart from what the table's constraints refuse. */
  function Exec(db: Server, q: Stmt, params: seq<Val>, table: seq<Record>): Effect
    requires WellFormed(q)
  {
    match q
    case SelectStmt(_, _, _, _) => Effect(table, [], 0)
    case CountStmt(cs) =>
      var n := |Keep(Where(db.less, cs, params), table)|; Effect(table, [map["count" := Num(n)]], n)
    case InsertStmt(cols, rows, ret) =>
      var rs := Records(db, cols, rows, params); Effect(table + rs, ProjectAll(ret, rs), |rs|)
    case UpsertStmt(cols, row, target, sets, ret) =>
      var r := MakeRecord(db, cols, row, params);
      (match Conflict(table, target, r)
       case None => Effect(table + [r], ProjectAll(ret, [r]), 1)
       case Some(i) =>
         if i >= |table| || sets == [] then Effect(table, [], 0)
         else var r' := table[i] + Excluded(r, sets); Effect(table[i := r'], ProjectAll(ret, [r']), 1))
    case UpdateStmt(setCols, cells, cs, ret) =>
      var set_ := MakeRecord(db, setCols, cells, params);
      var hit := Keep(Where(db.less, cs, params), table);
      Effect(Changed(Where(db.less, cs, params), set_, table), ProjectAll(ret, Overwrite(set_, hit)), |hit|)
    case DeleteStmt(cs, ret) =>
      var hit := Keep(Where(db.less, cs, params), table);
      Effect(Keep(r => EvalWhere(db.less, cs, params, r) != T, table), ProjectAll(ret, hit), |hit|)
  }

  /** NULLs come last in ascending and first in descending order unless said otherwise. */
  predicate NullsFirst(o: Order) {
    if o.nullsFirst.Some? then o.nullsFirst.value else !o.ascending
  }

  predicate Before(less: (Val, Val) -> bool, o: Order, a: Record, b: Record) {
    var x, y := Get(a, o.col), Get(b, o.col);
    if x == Null || y == Null then
      x != y && (if NullsFirst(o) then x == Null else y == Null)
    else if o.ascending then less(x, y) else less(y, x)
  }

  /** Descending order is ascending order backwards, and NULLs go where the call asks for them. */
  lemma DescendingReverses(less: (Val, Val) -> bool, col: string, a: Record, b: Record)
    ensures Before(less, Order(col, false, None), a, b) <==> Before(less, Order(col, true, None), b, a)
    ensures Get(a, col) != Null && Get(b, col) != Null ==> forall nulls ::
      Before(less, Order(col, true, nulls), a, b) <==> less(Get(a, col), Get(b, col))
    ensures Get(a, col) == Null && Get(b, col) != Null ==> forall ascending, first ::
      && (Before(less, Order(col, ascending, Some(first)), a, b) <==> first)
      && (Before(less, Order(col, ascending, Some(first)), b, a) <==> !first)
      && (Before(less, Order(col, ascending, None), a, b) <==> !ascending)
  {}

  /** `a` may stand before `b` under ORDER BY. */
  predicate InOrder(less: (Val, Val) -> bool, os: seq<Order>, a: Record, b: Record) {
    if os == [] then true
    else Before(less, os[0], a, b) || (!Before(less, os[0], b, a) && InOrder(less, os[1..], a, b))
  }

  /** `all` are `rows` in some order that ORDER BY allows. */
  ghost predicate Ordered(less: (Val, Val) -> bool, os: seq<Order>, rows: seq<Record>, all: seq<Record>) {
    && multiset(all) == multiset(rows)
    && forall i, j :: 0 <= i < j < |all| ==> InOrder(less, os, all[i], all[j])
  }

  function Limited<T>(all: seq<T>, limit: Option<nat>): seq<T> {
    if limit.Some? && limit.value < |all| then all[..limit.value] else all
  }

  /** `out` are `rows` in such an order, cut to the limit, projected. */
  ghost predicate Arranged(less: (Val, Val) -> bool, os: seq<Order>, limit: Option<nat>, proj: Returning,
                           rows: seq<Record>, out: seq<Record>) {
    exists all: seq<Record> :: Ordered(less, os, rows, all) && out == ProjectAll(proj, Limited(all, limit))
  }

  /** `out` is a possible result of a SELECT. */
  ghost predicate Selects(less: (Val, Val) -> bool, q: Stmt, params: seq<Val>, table: seq<Record>, out: seq<Record>)
    requires q.SelectStmt?
  {
    Arranged(less, q.orders, q.limit, q.proj, Keep(Where(less, q.wheres, params), table), out)
  }
}
