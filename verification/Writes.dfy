/** What the writes of the query builder leave in the table, column by column: read off the payload's
    fields, beside the records and lookups the compiler works with. */
module Writes {
  import opened Rows
  import opened Seqs
  import opened Sql
  import opened Builder

  /** The keys of a JavaScript object. */
  predicate DistinctKeys(f: Fields) { forall i, j :: 0 <= i < j < |f| ==> f[i].0 != f[j].0 }

  predicate HasKey(f: Fields, c: string) { exists i :: 0 <= i < |f| && f[i].0 == c }

  /** What column `c` holds after `sent` was written to it. */
  predicate Arrives(db: Server, t: Types, c: string, sent: Val, got: Val) {
    if db.isJson(c) && (sent.Str? || (sent.Arr? && !t.isJson(c))) then got == db.uncast(sent) else got == sent
  }

  /** Each field of the payload has arrived in its column. */
  ghost predicate Carries(db: Server, t: Types, r: Record, f: Fields) {
    forall i :: 0 <= i < |f| ==> Arrives(db, t, f[i].0, f[i].1, Get(r, f[i].0))
  }

  /** The new row of payload `f`, when the statement names the columns of `first`: a column `f` lacks is NULL,
      and a column `first` lacks is not written. */
  ghost predicate NewRow(db: Server, t: Types, r: Record, first: Fields, f: Fields) {
    && (forall i :: 0 <= i < |f| && HasKey(first, f[i].0) ==> Arrives(db, t, f[i].0, f[i].1, Get(r, f[i].0)))
    && (forall c :: HasKey(first, c) && !HasKey(f, c) ==> c in r && r[c] == Null)
    && (forall c :: !HasKey(first, c) ==> c !in r)
  }

  /** The stored row `before` with the payload written over it: the other columns are as they were. */
  ghost predicate WrittenOver(db: Server, t: Types, before: Record, after: Record, f: Fields) {
    && Carries(db, t, after, f)
    && (forall c :: !HasKey(f, c) ==> (c in after <==> c in before))
    && (forall c :: !HasKey(f, c) && c in before ==> Get(after, c) == before[c])
  }

  lemma {:induction false} LookupFinds(f: Fields, i: nat)
    ensures DistinctKeys(f) && i < |f| ==> Lookup(f, f[i].0) == f[i].1
  {
    if f != [] && i < |f| - 1 { LookupFinds(f[..|f| - 1], i); }
  }

  lemma {:induction false} LookupMisses(f: Fields, c: string)
    ensures !HasKey(f, c) ==> Lookup(f, c) == Null
  {
    if f != [] {
      var init := f[..|f| - 1];
      LookupMisses(init, c);
      assert f[|f| - 1].0 == c ==> HasKey(f, c);
      assert forall i :: 0 <= i < |init| && init[i].0 == c ==> f[i].0 == c;
    }
  }

  lemma KeysAreKeys(f: Fields, c: string)
    ensures c in Keys(f) <==> HasKey(f, c)
  {
    assert forall i :: 0 <= i < |f| ==> Keys(f)[i] == f[i].0;
  }

  lemma RecordColumn(db: Server, t: Types, first: Fields, f: Fields, c: string)
    ensures var r := RecordOf(db, t, Keys(first), f);
      (c in r <==> HasKey(first, c)) && (c in r ==> Arrives(db, t, c, Lookup(f, c), r[c]))
  {
    KeysAreKeys(first, c);
  }

  lemma RecordIsNewRow(db: Server, t: Types, first: Fields, f: Fields)
    ensures DistinctKeys(f) ==> NewRow(db, t, RecordOf(db, t, Keys(first), f), first, f)
  {
    var r := RecordOf(db, t, Keys(first), f);
    if DistinctKeys(f) {
      forall i | 0 <= i < |f| && HasKey(first, f[i].0)
        ensures Arrives(db, t, f[i].0, f[i].1, Get(r, f[i].0))
      {
        LookupFinds(f, i);
        RecordColumn(db, t, first, f, f[i].0);
      }
      forall c ensures HasKey(first, c) && !HasKey(f, c) ==> c in r && r[c] == Null {
        LookupMisses(f, c);
        RecordColumn(db, t, first, f, c);
      }
      forall c ensures !HasKey(first, c) ==> c !in r {
        RecordColumn(db, t, first, f, c);
      }
    }
  }

  lemma RecordWritesOver(db: Server, t: Types, before: Record, f: Fields)
    ensures DistinctKeys(f) ==> WrittenOver(db, t, before, before + RecordOf(db, t, Keys(f), f), f)
  {
    var r := RecordOf(db, t, Keys(f), f);
    if DistinctKeys(f) {
      forall i | 0 <= i < |f| ensures Arrives(db, t, f[i].0, f[i].1, Get(before + r, f[i].0)) {
        LookupFinds(f, i);
        RecordColumn(db, t, f, f, f[i].0);
        assert HasKey(f, f[i].0);
      }
      forall c ensures !HasKey(f, c) ==> c !in r {
        RecordColumn(db, t, f, f, c);
      }
    }
  }

  /** An insert appends one row a payload object. */
  lemma InsertWrites(db: Server, t: Types, q: Query, table: seq<Record>, e: Effect, j: nat)
    ensures q.op == Insert && Buildable(q) && Does(db, t, q, table, e) ==>
      && |e.table| == |table| + |q.payload| && table <= e.table && e.affected == |q.payload|
      && (j < |q.payload| && DistinctKeys(q.payload[j]) ==>
            NewRow(db, t, e.table[|table| + j], q.payload[0], q.payload[j]))
      && e.returned == ProjectAll(q.returning, e.table[|table|..])
  {
    if q.op == Insert && Buildable(q) && Does(db, t, q, table, e) && j < |q.payload| {
      RecordIsNewRow(db, t, q.payload[0], q.payload[j]);
      assert e.table[|table| + j] == RecordOf(db, t, Keys(q.payload[0]), q.payload[j]);
    }
  }

  /** An update writes the payload over the rows that pass the filters and leaves the others alone. */
  lemma UpdateWrites(db: Server, t: Types, q: Query, table: seq<Record>, e: Effect, k: nat)
    ensures q.op == Update && Buildable(q) && Does(db, t, q, table, e) ==>
      && |e.table| == |table|
      && (k < |table| && !Passes(db.less, q.filters, table[k]) ==> e.table[k] == table[k])
      && (k < |table| && Passes(db.less, q.filters, table[k]) && DistinctKeys(q.payload[0]) ==>
            WrittenOver(db, t, table[k], e.table[k], q.payload[0]))
  {
    if q.op == Update && Buildable(q) && k < |table| { RecordWritesOver(db, t, table[k], q.payload[0]); }
  }

  /** With RETURNING * an update gives back the rows it hit as they have become, in table order. */
  lemma UpdateReturns(db: Server, t: Types, q: Query, table: seq<Record>, e: Effect, i: nat)
    ensures q.op == Update && Buildable(q) && Does(db, t, q, table, e) ==>
      var hit := Keep(r => Passes(db.less, q.filters, r), table);
      && e.affected == |hit|
      && (q.returning == All ==> |e.returned| == |hit|)
      && (q.returning == All && i < |hit| && DistinctKeys(q.payload[0]) ==>
            WrittenOver(db, t, hit[i], e.returned[i], q.payload[0]))
  {
    var hit := Keep(r => Passes(db.less, q.filters, r), table);
    if q.op == Update && Buildable(q) && i < |hit| { RecordWritesOver(db, t, hit[i], q.payload[0]); }
  }

  /** The columns an upsert conflicts on: those the call names, or else the primary key. */
  predicate Clashes(t: Types, onConflict: Option<seq<string>>, stored: Record, sent: Record) {
    forall c | c in (if onConflict.Some? then onConflict.value else t.pk) ::
      Get(sent, c) != Null && Get(stored, c) == Get(sent, c)
  }

  /** An upsert writes its payload over the first row that clashes with it, or appends it. */
  ghost predicate UpsertDid(db: Server, t: Types, q: Query, table: seq<Record>, e: Effect, sent: Record)
    requires Buildable(q) && q.op == Upsert
  {
    if forall i :: 0 <= i < |table| ==> !Clashes(t, q.onConflict, table[i], sent) then e.table == table + [sent]
    else exists i :: 0 <= i < |table| && OverwroteFirst(db, t, q, table, e, sent, i)
  }

  /** Row `i` is the first to clash with the sent one, and it alone has taken over the payload. */
  ghost predicate OverwroteFirst(db: Server, t: Types, q: Query, table: seq<Record>, e: Effect, sent: Record, i: nat)
    requires Buildable(q) && q.op == Upsert && i < |table|
  {
    && Clashes(t, q.onConflict, table[i], sent)
    && (forall j :: 0 <= j < i ==> !Clashes(t, q.onConflict, table[j], sent))
    && |e.table| == |table| && e.table == table[i := e.table[i]]
    && WrittenOver(db, t, table[i], e.table[i], q.payload[0])
  }

  lemma TargetIsClash(t: Types, q: Query, stored: Record, sent: Record)
    ensures Agree(Target(t, q), stored, sent) <==> Clashes(t, q.onConflict, stored, sent)
  {}

  lemma UpsertWrites(db: Server, t: Types, q: Query, table: seq<Record>, e: Effect)
    ensures q.op == Upsert && Buildable(q) && DistinctKeys(q.payload[0]) && Does(db, t, q, table, e) ==>
      exists sent :: NewRow(db, t, sent, q.payload[0], q.payload[0]) && UpsertDid(db, t, q, table, e, sent)
  {
    if q.op == Upsert && Buildable(q) && DistinctKeys(q.payload[0]) && Does(db, t, q, table, e) {
      var f := q.payload[0];
      var sent := RecordOf(db, t, Keys(f), f);
      RecordIsNewRow(db, t, f, f);
      forall i | 0 <= i < |table|
        ensures Agree(Target(t, q), table[i], sent) <==> Clashes(t, q.onConflict, table[i], sent)
      {
        TargetIsClash(t, q, table[i], sent);
      }
      if !(forall i :: 0 <= i < |table| ==> !Clashes(t, q.onConflict, table[i], sent)) {
        var i :| (0 <= i < |table| && Agree(Target(t, q), table[i], sent)
                  && (forall j :: 0 <= j < i ==> !Agree(Target(t, q), table[j], sent))
                  && e.table == table[i := table[i] + sent]);
        RecordWritesOver(db, t, table[i], f);
        assert OverwroteFirst(db, t, q, table, e, sent, i);
      }
      assert UpsertDid(db, t, q, table, e, sent);
    }
  }

  /** The rows a write returns: all their columns, or the columns asked for and no others. */
  lemma ReturningShows(ret: Returning, rs: seq<Record>, i: nat)
    ensures |ProjectAll(ret, rs)| == if ret == Nothing then 0 else |rs|
    ensures ret == All && i < |rs| ==> ProjectAll(ret, rs)[i] == rs[i]
    ensures ret.Cols? && i < |rs| ==> forall c ::
      Get(ProjectAll(ret, rs)[i], c) == (if c in ret.cols then Get(rs[i], c) else Null)
      && (c in ProjectAll(ret, rs)[i] <==> c in ret.cols)
  {}
}
