/** The first query of a page (api/routes/syncResource.js `_readPage`) as the query builder sends it. */
module PageQuery {
  import opened Rows
  import opened Seqs
  import opened Tables
  import opened Sql
  import opened Builder
  import opened Paging

  /** `.select("*").eq("user_id", user).gt("updated_at", since).order("updated_at").limit(limit)`. */
  function Asked(user: UserId, since: Stamp, limit: nat): Query {
    Blank.(op := Select,
           filters := [Builder.Filter("user_id", Eq, Num(user)), Builder.Filter("updated_at", Gt, Num(since))],
           orders := ByStamp, limit := Some(limit))
  }

  method AskChanges(types: Types, user: UserId, since: Stamp, limit: nat) returns (q: PgQuery)
    ensures fresh(q) && q.types == types && q.state == Asked(user, since, limit)
  {
    q := new PgQuery(types);
    var _ := q.SelectCols(All, false, false);
    q.AddFilter("user_id", Eq, Num(user));
    q.AddFilter("updated_at", Gt, Num(since));
    q.OrderBy("updated_at", true, None);
    q.LimitTo(limit);
  }

  /** `enc` writes rows as records: different rows differently, with these two columns. */
  ghost predicate Encodes(enc: Row -> Record) {
    && (forall a, b :: enc(a) == enc(b) ==> a == b)
    && (forall r :: Get(enc(r), "user_id") == Num(r.user) && Get(enc(r), "updated_at") == Num(r.updatedAt))
  }

  function Text(x: Option<string>): Val { match x case None => Null case Some(s) => Str(s) }

  function Time(x: Option<Stamp>): Val { match x case None => Null case Some(n) => Num(n) }

  /** The columns of a stored clock entry. */
  function Columns(r: Row): Record {
    map["user_id" := Num(r.user), "id" := Num(r.id), "customer" := Text(r.body.customer),
        "description" := Str(r.body.description), "start_at" := Num(r.body.startAt), "end_at" := Time(r.body.endAt),
        "task_id" := Text(r.body.taskId), "project" := Text(r.body.project), "contract" := Text(r.body.contract),
        "notes" := Str(r.body.notes), "invoiced" := Num(if r.body.invoiced then 1 else 0),
        "updated_at" := Num(r.updatedAt), "deleted_at" := Time(r.deletedAt), "synced_at" := Time(r.syncedAt)]
  }

  lemma SameText(x: Option<string>, y: Option<string>)
    ensures Text(x) == Text(y) ==> x == y
  {}

  lemma SameTime(x: Option<Stamp>, y: Option<Stamp>)
    ensures Time(x) == Time(y) ==> x == y
  {}

  lemma SameColumns(a: Row, b: Row)
    requires Columns(a) == Columns(b)
    ensures a == b
  {
    var p, q := Columns(a), Columns(b);
    assert p["user_id"] == q["user_id"] && p["id"] == q["id"] && p["description"] == q["description"];
    assert p["start_at"] == q["start_at"] && p["notes"] == q["notes"] && p["invoiced"] == q["invoiced"];
    assert p["updated_at"] == q["updated_at"];
    assert p["customer"] == q["customer"] && p["task_id"] == q["task_id"];
    assert p["project"] == q["project"] && p["contract"] == q["contract"];
    assert p["end_at"] == q["end_at"] && p["deleted_at"] == q["deleted_at"] && p["synced_at"] == q["synced_at"];
    SameText(a.body.customer, b.body.customer);
    SameText(a.body.taskId, b.body.taskId);
    SameText(a.body.project, b.body.project);
    SameText(a.body.contract, b.body.contract);
    SameTime(a.body.endAt, b.body.endAt);
    SameTime(a.deletedAt, b.deletedAt);
    SameTime(a.syncedAt, b.syncedAt);
    assert a.body == b.body;
  }

  /** Writing a row column by column is such an encoding. */
  lemma ColumnsEncode()
    ensures Encodes(r => Columns(r))
  {
    forall a, b | Columns(a) == Columns(b) ensures a == b { SameColumns(a, b); }
  }

  ghost predicate ByNumber(less: (Val, Val) -> bool) { forall a, b :: less(Num(a), Num(b)) <==> a < b }

  function Encoded(enc: Row -> Record, rs: seq<Row>): seq<Record> {
    seq(|rs|, i requires 0 <= i < |rs| => enc(rs[i]))
  }

  function Above(rs: seq<Row>, user: UserId, since: Stamp): seq<Row> {
    if rs == [] then []
    else
      var init, r := Above(rs[..|rs| - 1], user, since), rs[|rs| - 1];
      if r.user == user && r.updatedAt > since then init + [r] else init
  }

  lemma {:induction false} AboveKeeps(rs: seq<Row>, user: UserId, since: Stamp)
    requires NoDup(rs)
    ensures var kept := Above(rs, user, since);
      NoDup(kept) && forall r :: r in kept <==> r in rs && r.user == user && r.updatedAt > since
  {
    if rs != [] {
      var init, r := rs[..|rs| - 1], rs[|rs| - 1];
      AboveKeeps(init, user, since);
      assert rs == init + [r] && r !in init;
    }
  }

  lemma PassesIsAbove(less: (Val, Val) -> bool, enc: Row -> Record, user: UserId, since: Stamp, limit: nat, r: Row)
    requires Encodes(enc) && ByNumber(less)
    ensures Passes(less, Asked(user, since, limit).filters, enc(r)) <==> r.user == user && r.updatedAt > since
  {
    var fs := Asked(user, since, limit).filters;
    assert Passes(less, fs, enc(r)) <==> Holds(less, fs[0], enc(r)) && Holds(less, fs[1], enc(r));
  }

  lemma EncodedSnoc(enc: Row -> Record, rs: seq<Row>, r: Row)
    ensures Encoded(enc, rs + [r]) == Encoded(enc, rs) + [enc(r)]
  {}

  /** Filtering records is filtering rows. */
  lemma {:induction false} KeepIsAbove(less: (Val, Val) -> bool, enc: Row -> Record, user: UserId, since: Stamp,
                                       limit: nat, rs: seq<Row>)
    requires Encodes(enc) && ByNumber(less)
    ensures Keep(r => Passes(less, Asked(user, since, limit).filters, r), Encoded(enc, rs))
         == Encoded(enc, Above(rs, user, since))
  {
    if rs != [] {
      var init, r := rs[..|rs| - 1], rs[|rs| - 1];
      KeepIsAbove(less, enc, user, since, limit, init);
      PassesIsAbove(less, enc, user, since, limit, r);
      assert rs == init + [r];
      EncodedSnoc(enc, init, r);
      EncodedSnoc(enc, Above(init, user, since), r);
      KeepSnoc(x => Passes(less, Asked(user, since, limit).filters, x), Encoded(enc, init), enc(r));
    }
  }

  lemma OrderIsByStamp(less: (Val, Val) -> bool, enc: Row -> Record, a: Row, b: Row)
    requires Encodes(enc) && ByNumber(less)
    ensures InOrder(less, ByStamp, enc(a), enc(b)) <==> a.updatedAt <= b.updatedAt
  {
    assert ByStamp[1..] == [];
  }

  lemma {:induction false} ManyAreNoDup(rs: seq<Row>)
    requires |Elems(rs)| == |rs|
    ensures NoDup(rs)
  {
    if rs != [] {
      var init, r := rs[..|rs| - 1], rs[|rs| - 1];
      assert rs == init + [r];
      assert Elems(rs) == Elems(init) + {r};
      NoMoreElems(init);
      ManyAreNoDup(init);
    }
  }

  lemma {:induction false} NoMoreElems(rs: seq<Row>)
    ensures |Elems(rs)| <= |rs|
  {
    if rs != [] {
      var init, r := rs[..|rs| - 1], rs[|rs| - 1];
      NoMoreElems(init);
      assert rs == init + [r];
      assert Elems(rs) == Elems(init) + {r};
    }
  }

  ghost predicate AllFrom(enc: Row -> Record, kept: seq<Row>, all: seq<Record>) {
    forall x :: x in all ==> exists r :: r in kept && enc(r) == x
  }

  lemma {:induction false} PickRows(enc: Row -> Record, kept: seq<Row>, all: seq<Record>) returns (rs: seq<Row>)
    requires AllFrom(enc, kept, all)
    ensures all == Encoded(enc, rs) && forall r :: r in rs ==> r in kept
  {
    rs := [];
    if all != [] {
      var init, x := all[..|all| - 1], all[|all| - 1];
      assert all == init + [x];
      assert x in all && forall y :: y in init ==> y in all;
      rs := PickRows(enc, kept, init);
      var r :| r in kept && enc(r) == x;
      rs := rs + [r];
    }
  }

  lemma SameMembers(a: seq<Record>, b: seq<Record>)
    requires multiset(a) == multiset(b)
    ensures |a| == |b| && forall x :: x in a <==> x in b
  {
    assert |multiset(a)| == |a| && |multiset(b)| == |b|;
    assert forall x :: x in a <==> x in multiset(a);
  }

  lemma EncodedMembers(enc: Row -> Record, rs: seq<Row>)
    ensures forall r :: r in rs ==> enc(r) in Encoded(enc, rs)
    ensures AllFrom(enc, rs, Encoded(enc, rs))
  {
    forall r | r in rs ensures enc(r) in Encoded(enc, rs) {
      var i :| 0 <= i < |rs| && rs[i] == r;
      assert Encoded(enc, rs)[i] == enc(r);
    }
  }

  /** The rows behind a permutation of records. */
  lemma Decoded(enc: Row -> Record, kept: seq<Row>, all: seq<Record>) returns (rs: seq<Row>)
    requires Encodes(enc) && NoDup(kept) && multiset(all) == multiset(Encoded(enc, kept))
    ensures all == Encoded(enc, rs) && NoDup(rs) && Elems(rs) == Elems(kept) && |rs| == |kept|
  {
    SameMembers(all, Encoded(enc, kept));
    EncodedMembers(enc, kept);
    rs := PickRows(enc, kept, all);
    forall r | r in kept ensures r in rs {
      assert enc(r) in all;
      var i :| 0 <= i < |rs| && Encoded(enc, rs)[i] == enc(r);
    }
    assert Elems(rs) == Elems(kept);
    CardinalityOfElems(kept);
    ManyAreNoDup(rs);
  }

  lemma {:induction false} CountOfMember<T>(xs: seq<T>, x: T)
    requires NoDup(xs)
    ensures multiset(xs)[x] == if x in xs then 1 else 0
  {
    if xs != [] {
      var init, y := xs[..|xs| - 1], xs[|xs| - 1];
      assert xs == init + [y];
      CountOfMember(init, x);
    }
  }

  /** The same rows in another order are the same records in another order. */
  lemma Reordered(enc: Row -> Record, a: seq<Row>, b: seq<Row>)
    requires Encodes(enc) && NoDup(a) && NoDup(b) && Elems(a) == Elems(b)
    ensures multiset(Encoded(enc, a)) == multiset(Encoded(enc, b))
  {
    var x, y := Encoded(enc, a), Encoded(enc, b);
    EncodedMembers(enc, a);
    EncodedMembers(enc, b);
    forall r: Record ensures multiset(x)[r] == multiset(y)[r] {
      CountOfMember(x, r);
      CountOfMember(y, r);
      assert forall q :: q in a <==> q in Elems(a);
      assert forall q :: q in b <==> q in Elems(b);
    }
  }

  /** The first rows of a sorted enumeration are a limited reply ... */
  lemma TakenIsLimited(all: seq<Row>, limit: nat)
    requires Sorted(all) && NoDup(all)
    ensures IsLimited(Elems(all), limit, Limited(all, Some(limit)))
  {
    var rs := Limited(all, Some(limit));
    CardinalityOfElems(all);
    forall r, q | r in Elems(all) - Elems(rs) && q in rs ensures q.updatedAt <= r.updatedAt {
      assert forall l :: 0 <= l < |rs| ==> rs[l] == all[l] && rs[l] in Elems(rs);
      var i :| 0 <= i < |all| && all[i] == r;
      var j :| 0 <= j < |rs| && rs[j] == q;
      assert j < |rs| <= i;
    }
  }

  /** ... and every limited reply is the beginning of one. */
  lemma {:induction false} Completed(all: set<Row>, rs: seq<Row>, rest: set<Row>) returns (full: seq<Row>)
    requires SortedSplit(all, rs, rest)
    ensures Sorted(full) && NoDup(full) && Elems(full) == all && rs <= full
    decreases rest
  {
    full := rs;
    if rest == {} {
      assert all == Elems(rs) + (all - Elems(rs));
    } else {
      EarliestExists(rest);
      var r :| r in rest && forall q :: q in rest ==> r.updatedAt <= q.updatedAt;
      TakeEarliest(all, rs, rest, r);
      full := Completed(all, rs + [r], rest - {r});
    }
  }

  lemma LimitedIsTaken(all: set<Row>, limit: nat, rs: seq<Row>) returns (full: seq<Row>)
    requires IsLimited(all, limit, rs)
    ensures Sorted(full) && NoDup(full) && Elems(full) == all && rs == Limited(full, Some(limit))
  {
    CardinalityOfElems(rs);
    SameSizeDifference(all, Elems(rs));
    full := Completed(all, rs, all - Elems(rs));
    CardinalityOfElems(full);
  }

  lemma SameSizeDifference<T>(a: set<T>, b: set<T>)
    requires b <= a
    ensures |b| + |a - b| == |a|
  {
    assert a == b + (a - b);
  }

  const ByStamp := [Order("updated_at", true, None)]

  lemma SortedRecords(less: (Val, Val) -> bool, enc: Row -> Record, kept: seq<Row>, rs: seq<Row>)
    requires Encodes(enc) && ByNumber(less) && NoDup(kept) && NoDup(rs) && Elems(rs) == Elems(kept)
    ensures Sorted(rs) <==> Ordered(less, ByStamp, Encoded(enc, kept), Encoded(enc, rs))
  {
    Reordered(enc, rs, kept);
    forall i, j | 0 <= i < j < |rs|
      ensures InOrder(less, ByStamp, Encoded(enc, rs)[i], Encoded(enc, rs)[j]) <==> rs[i].updatedAt <= rs[j].updatedAt
    {
      OrderIsByStamp(less, enc, rs[i], rs[j]);
    }
  }

  lemma AllColumns(rs: seq<Record>)
    ensures ProjectAll(All, rs) == rs
  {}

  lemma TakenEncoded(enc: Row -> Record, rs: seq<Row>, limit: nat)
    ensures Limited(Encoded(enc, rs), Some(limit)) == Encoded(enc, Limited(rs, Some(limit)))
  {}

  lemma CutRecords(enc: Row -> Record, full: seq<Row>, limit: nat)
    ensures ProjectAll(All, Limited(Encoded(enc, full), Some(limit))) == Encoded(enc, Limited(full, Some(limit)))
  {
    TakenEncoded(enc, full, limit);
    AllColumns(Encoded(enc, Limited(full, Some(limit))));
  }

  /** Records of `kept`, ordered by stamp and cut, are the records of a limited reply ... */
  lemma ArrangedIsLimited(less: (Val, Val) -> bool, enc: Row -> Record, kept: seq<Row>, limit: nat, all: seq<Record>)
    returns (rs: seq<Row>)
    requires Encodes(enc) && ByNumber(less) && NoDup(kept) && Ordered(less, ByStamp, Encoded(enc, kept), all)
    ensures IsLimited(Elems(kept), limit, rs) && ProjectAll(All, Limited(all, Some(limit))) == Encoded(enc, rs)
  {
    var full := Decoded(enc, kept, all);
    SortedRecords(less, enc, kept, full);
    TakenIsLimited(full, limit);
    CutRecords(enc, full, limit);
    rs := Limited(full, Some(limit));
  }

  /** ... and the other way round. */
  lemma LimitedIsArranged(less: (Val, Val) -> bool, enc: Row -> Record, kept: seq<Row>, limit: nat, rs: seq<Row>)
    returns (all: seq<Record>)
    requires Encodes(enc) && ByNumber(less) && NoDup(kept) && IsLimited(Elems(kept), limit, rs)
    ensures Ordered(less, ByStamp, Encoded(enc, kept), all)
    ensures ProjectAll(All, Limited(all, Some(limit))) == Encoded(enc, rs)
  {
    var full := LimitedIsTaken(Elems(kept), limit, rs);
    SortedRecords(less, enc, kept, full);
    CutRecords(enc, full, limit);
    all := Encoded(enc, full);
  }

  /** The rows of a table, once each. */
  ghost predicate Lists(t: map<Key, Row>, rows: seq<Row>) {
    NoDup(rows) && forall r :: r in rows <==> exists k :: k in t && t[k] == r
  }

  /** What the database may answer to the emitted SELECT is exactly what a page assumes of its first
      query: some sorted prefix of the user's rows above the cursor, ties in any order. */
  lemma AnswersAreSortedPrefixes(types: Types, less: (Val, Val) -> bool, enc: Row -> Record, t: map<Key, Row>,
                                 rows: seq<Row>, user: UserId, since: Stamp, limit: nat, out: seq<Record>)
    requires Encodes(enc) && ByNumber(less) && Lists(t, rows)
    ensures var e := Compile(types, Asked(user, since, limit));
      Selects(less, e.part, e.params, Encoded(enc, rows), out)
      <==> exists rs :: IsLimited(RowsAfter(t, user, since), limit, rs) && out == Encoded(enc, rs)
  {
    var q, kept := Asked(user, since, limit), Above(rows, user, since);
    SelectPreservesMeaning(less, types, q, Encoded(enc, rows), out);
    KeepIsAbove(less, enc, user, since, limit, rows);
    AboveKeeps(rows, user, since);
    assert Elems(kept) == RowsAfter(t, user, since);
    var recs := Encoded(enc, kept);
    if all :| Ordered(less, ByStamp, recs, all) && out == ProjectAll(All, Limited(all, Some(limit))) {
      var rs := ArrangedIsLimited(less, enc, kept, limit, all);
    }
    if rs :| IsLimited(RowsAfter(t, user, since), limit, rs) && out == Encoded(enc, rs) {
      var all := LimitedIsArranged(less, enc, kept, limit, rs);
    }
  }
}
