/** Last-writer-wins over many requests: order and batching do not matter. */
module Lww {
  import opened Rows
  import opened Tables
  import opened Apply
  import opened Batches

  function MsOf(e: Wire): int { if e.updatedAt.Some? then Ms(e.updatedAt.value) else 0 }

  /** Two entries of one id stamped in the same millisecond are the same entry. */
  ghost predicate Coherent(es: seq<Wire>) {
    forall e, f :: e in es && f in es && e.id == f.id && MsOf(e) == MsOf(f) ==> e == f
  }

  ghost predicate LegalWrite(s: Schema, t: map<Key, Row>, user: UserId, w: Row) {
    && (s.At(user, w.id) !in t ==> s.legal(t[s.At(user, w.id) := w]))
    && (Existing(s, t, user, w.id).Some? ==>
          s.legal(t[s.At(user, w.id) := Patched(t[s.At(user, w.id)], w)]))
  }

  /** No table refuses these entries; only a key owned by somebody else can stop them. */
  ghost predicate Harmless(s: Schema, user: UserId, now: Stamp, es: seq<Wire>) {
    forall e, t :: e in es && TableOk(s, t) ==> LegalWrite(s, t, user, WireToRow(e, user, now))
  }

  /** Every entry is harmless where the key is the only constraint, and so is every
      entry of clock_entries that is not a running timer (those go to /active/start). */
  lemma HarmlessEntries(user: UserId, now: Stamp, es: seq<Wire>)
    ensures Harmless(Notes, user, now, es)
    ensures (forall e :: e in es ==> !(e.body.endAt.None? && e.deletedAt.None?)) ==>
              Harmless(ClockEntries, user, now, es)
  {}

  /** Entry `e` is newer than what the table holds under its own user's key. */
  predicate Beats(s: Schema, t: map<Key, Row>, user: UserId, e: Wire) {
    var k := s.At(user, e.id);
    k in t ==> t[k].user == user && Ms(t[k].updatedAt) < MsOf(e)
  }

  function Written(s: Schema, t: map<Key, Row>, user: UserId, now: Stamp, e: Wire): Row {
    var k, w := s.At(user, e.id), WireToRow(e, user, now);
    if k in t then Patched(t[k], w) else w
  }

  ghost predicate Newest(es: seq<Wire>, e: Wire) {
    e in es && forall f :: f in es && f.id == e.id ==> MsOf(f) <= MsOf(e)
  }

  /** `t'` is `t` with, under key `k`, the newest version among `t` and `es`. */
  ghost predicate WonAt(s: Schema, t: map<Key, Row>, user: UserId, now: Stamp, es: seq<Wire>,
                        t': map<Key, Row>, k: Key) {
    if exists e :: e in es && s.At(user, e.id) == k && Beats(s, t, user, e) then
      exists e :: Newest(es, e) && s.At(user, e.id) == k && k in t' && t'[k] == Written(s, t, user, now, e)
    else
      (k in t' <==> k in t) && (k in t ==> t'[k] == t[k])
  }

  ghost predicate Won(s: Schema, t: map<Key, Row>, user: UserId, now: Stamp, es: seq<Wire>, t': map<Key, Row>) {
    forall k :: WonAt(s, t, user, now, es, t', k)
  }

  /** The table's constraint, asked for this entry's write, does not refuse it. */
  predicate Admits(s: Schema, t: map<Key, Row>, user: UserId, now: Stamp, e: Wire) {
    Beats(s, t, user, e) ==> s.legal(t[s.At(user, e.id) := Written(s, t, user, now, e)])
  }

  /** One at a time, no entry's write is refused by the constraint. */
  ghost predicate Smooth(s: Schema, t: map<Key, Row>, user: UserId, now: Stamp, es: seq<Wire>) {
    es == [] ||
      (Smooth(s, t, user, now, es[..|es| - 1])
       && Admits(s, ApplyEach(s, t, user, now, es[..|es| - 1]).rows, user, now, es[|es| - 1]))
  }

  lemma SingleStaysOk(s: Schema, t: map<Key, Row>, user: UserId, now: Stamp, e: Wire)
    requires TableOk(s, t)
    ensures TableOk(s, Single(s, t, user, now, e).rows)
  {}

  lemma {:induction false} EachStaysOk(s: Schema, t: map<Key, Row>, user: UserId, now: Stamp, es: seq<Wire>)
    requires TableOk(s, t)
    ensures TableOk(s, ApplyEach(s, t, user, now, es).rows)
  {
    if es != [] {
      var init := es[..|es| - 1];
      EachStaysOk(s, t, user, now, init);
      SingleStaysOk(s, ApplyEach(s, t, user, now, init).rows, user, now, es[|es| - 1]);
    }
  }

  /** Harmless entries are never refused ... */
  lemma {:induction false} HarmlessIsSmooth(s: Schema, t: map<Key, Row>, user: UserId, now: Stamp, es: seq<Wire>)
    requires TableOk(s, t) && Harmless(s, user, now, es)
    ensures Smooth(s, t, user, now, es)
  {
    if es != [] {
      var init, e := es[..|es| - 1], es[|es| - 1];
      assert es == init + [e];
      assert e in es && forall f :: f in init ==> f in es;
      HarmlessIsSmooth(s, t, user, now, init);
      EachStaysOk(s, t, user, now, init);
      assert LegalWrite(s, ApplyEach(s, t, user, now, init).rows, user, WireToRow(e, user, now));
    }
  }

  lemma SingleErrorFree(s: Schema, t: map<Key, Row>, user: UserId, now: Stamp, e: Wire)
    requires e.updatedAt.Some? && Single(s, t, user, now, e).counts.errors == []
    ensures Admits(s, t, user, now, e)
  {}

  /** ... and no entry was if no request reported an error. */
  lemma {:induction false} ErrorFreeIsSmooth(s: Schema, t: map<Key, Row>, user: UserId, now: Stamp, es: seq<Wire>)
    requires Stamped(es) && ApplyEach(s, t, user, now, es).counts.errors == []
    ensures Smooth(s, t, user, now, es)
  {
    if es != [] {
      var init, e := es[..|es| - 1], es[|es| - 1];
      ErrorFreeIsSmooth(s, t, user, now, init);
      SingleErrorFree(s, ApplyEach(s, t, user, now, init).rows, user, now, e);
    }
  }

  /** One entry the constraint does not refuse: written exactly when it beats the table. */
  lemma SingleWrites(s: Schema, t: map<Key, Row>, user: UserId, now: Stamp, e: Wire)
    requires e.updatedAt.Some? && Admits(s, t, user, now, e)
    ensures Single(s, t, user, now, e).rows
         == if Beats(s, t, user, e) then t[s.At(user, e.id) := Written(s, t, user, now, e)] else t
  {}

  lemma {:induction false} EachWon(s: Schema, t: map<Key, Row>, user: UserId, now: Stamp, es: seq<Wire>)
    requires Stamped(es) && Smooth(s, t, user, now, es)
    ensures Won(s, t, user, now, es, ApplyEach(s, t, user, now, es).rows)
  {
    if es != [] {
      var init, e := es[..|es| - 1], es[|es| - 1];
      assert es == init + [e];
      EachWon(s, t, user, now, init);
      EachSnoc(s, t, user, now, init, e);
      var m, t' := ApplyEach(s, t, user, now, init).rows, ApplyEach(s, t, user, now, es).rows;
      SingleWrites(s, m, user, now, e);
      forall k ensures WonAt(s, t, user, now, es, t', k) {
        assert WonAt(s, t, user, now, init, m, k);
        WonStep(s, t, user, now, init, e, m, t', k);
      }
    }
  }

  lemma WonStep(s: Schema, t: map<Key, Row>, user: UserId, now: Stamp, init: seq<Wire>, e: Wire,
                m: map<Key, Row>, t': map<Key, Row>, k: Key)
    requires e.updatedAt.Some? && Stamped(init)
    requires WonAt(s, t, user, now, init, m, k)
    requires t' == if Beats(s, m, user, e) then m[s.At(user, e.id) := Written(s, m, user, now, e)] else m
    ensures WonAt(s, t, user, now, init + [e], t', k)
  {
    var es := init + [e];
    assert forall f :: f in es <==> f in init || f == e;
    if exists f :: f in init && s.At(user, f.id) == k && Beats(s, t, user, f) {
      var f :| Newest(init, f) && s.At(user, f.id) == k && k in m && m[k] == Written(s, t, user, now, f);
      assert f in es;
      if s.At(user, e.id) == k && MsOf(f) < MsOf(e) {
        assert Newest(es, e);
        assert t'[k] == Written(s, t, user, now, e);
      } else {
        assert Newest(es, f);
        assert t'[k] == m[k];
      }
    } else if s.At(user, e.id) == k && Beats(s, t, user, e) {
      assert e in es;
      forall f | f in es && f.id == e.id ensures MsOf(f) <= MsOf(e) {
        if f != e { assert f in init && !Beats(s, t, user, f); }
      }
      assert Newest(es, e);
    }
  }

  /** The newest versions of the same entries are the same table. */
  lemma WonIsUnique(s: Schema, t: map<Key, Row>, user: UserId, now: Stamp,
                    es: seq<Wire>, fs: seq<Wire>, a: map<Key, Row>, b: map<Key, Row>)
    requires Won(s, t, user, now, es, a) && Won(s, t, user, now, fs, b)
    requires Coherent(es) && forall e :: e in es <==> e in fs
    ensures a == b
  {
    forall k ensures k in a <==> k in b
             ensures k in a && k in b ==> a[k] == b[k] {
      assert WonAt(s, t, user, now, es, a, k) && WonAt(s, t, user, now, fs, b, k);
    }
  }

  /** Convergence: the same entries in two orders, any number of times each, leave one table, provided the
      constraint refused none of them in either order. */
  lemma OrderDoesNotMatter(s: Schema, t: map<Key, Row>, user: UserId, now: Stamp, es: seq<Wire>, fs: seq<Wire>)
    requires Stamped(es) && Coherent(es) && forall e :: e in es <==> e in fs
    requires Smooth(s, t, user, now, es) && Smooth(s, t, user, now, fs)
    ensures ApplyEach(s, t, user, now, es).rows == ApplyEach(s, t, user, now, fs).rows
  {
    SameStamped(es, fs);
    EachWon(s, t, user, now, es);
    EachWon(s, t, user, now, fs);
    var a, b := ApplyEach(s, t, user, now, es).rows, ApplyEach(s, t, user, now, fs).rows;
    WonIsUnique(s, t, user, now, es, fs, a, b);
  }

  lemma SameStamped(es: seq<Wire>, fs: seq<Wire>)
    requires Stamped(es) && forall e :: e in fs ==> e in es
    ensures Stamped(fs)
  {
    forall i | 0 <= i < |fs| ensures fs[i].updatedAt.Some? {
      assert fs[i] in es;
    }
  }

  // ---- Batches ----

  /** No entry of the batch is refused by the constraint where the batch writes it. */
  ghost predicate SmoothBatch(s: Schema, t: map<Key, Row>, user: UserId, now: Stamp, es: seq<Wire>) {
    Smooth(s, t, user, now, WriteOrder(s, t, user, es))
  }

  lemma ErrorFreeBatchIsSmooth(s: Schema, t: map<Key, Row>, user: UserId, now: Stamp, es: seq<Wire>)
    requires DistinctIds(es) && Stamped(es) && ApplyBatch(s, t, user, now, es).counts.errors == []
    ensures SmoothBatch(s, t, user, now, es)
  {
    BatchIsInsertsFirst(s, t, user, now, es);
    WriteOrderIsTheBatch(s, t, user, es);
    SameStamped(es, WriteOrder(s, t, user, es));
    ErrorFreeIsSmooth(s, t, user, now, WriteOrder(s, t, user, es));
  }

  /** After a batch every key holds the newest version among table and entries. */
  lemma BatchWon(s: Schema, t: map<Key, Row>, user: UserId, now: Stamp, es: seq<Wire>)
    requires Stamped(es) && DistinctIds(es) && SmoothBatch(s, t, user, now, es)
    ensures Won(s, t, user, now, es, ApplyBatch(s, t, user, now, es).rows)
  {
    var fs, r := WriteOrder(s, t, user, es), ApplyBatch(s, t, user, now, es).rows;
    BatchIsInsertsFirst(s, t, user, now, es);
    WriteOrderIsTheBatch(s, t, user, es);
    SameStamped(es, fs);
    EachWon(s, t, user, now, fs);
    WonOfMembers(s, t, user, now, fs, es, r);
  }

  lemma WonOfMembers(s: Schema, t: map<Key, Row>, user: UserId, now: Stamp, es: seq<Wire>, fs: seq<Wire>,
                     r: map<Key, Row>)
    requires Won(s, t, user, now, es, r) && forall e :: e in es <==> e in fs
    ensures Won(s, t, user, now, fs, r)
  {
    forall k ensures WonAt(s, t, user, now, fs, r, k) {
      assert WonAt(s, t, user, now, es, r, k);
      assert forall e :: Newest(es, e) <==> Newest(fs, e);
    }
  }

  /** A batch with distinct ids leaves the table its entries leave one at a time, in batch order, provided
      the constraint refuses none of them either way. */
  lemma BatchIsSingles(s: Schema, t: map<Key, Row>, user: UserId, now: Stamp, es: seq<Wire>)
    requires Stamped(es) && DistinctIds(es)
    requires Smooth(s, t, user, now, es) && SmoothBatch(s, t, user, now, es)
    ensures ApplyBatch(s, t, user, now, es).rows == ApplyEach(s, t, user, now, es).rows
  {
    assert forall i, j :: 0 <= i < |es| && 0 <= j < |es| && es[i].id == es[j].id ==> i == j;
    BatchWon(s, t, user, now, es);
    EachWon(s, t, user, now, es);
    var a, b := ApplyBatch(s, t, user, now, es).rows, ApplyEach(s, t, user, now, es).rows;
    WonIsUnique(s, t, user, now, es, es, a, b);
  }

  function ApplyBatches(s: Schema, t: map<Key, Row>, user: UserId, now: Stamp, bs: seq<seq<Wire>>): map<Key, Row> {
    if bs == [] then t
    else ApplyBatch(s, ApplyBatches(s, t, user, now, bs[..|bs| - 1]), user, now, bs[|bs| - 1]).rows
  }

  function Flatten(bs: seq<seq<Wire>>): seq<Wire> {
    if bs == [] then [] else Flatten(bs[..|bs| - 1]) + bs[|bs| - 1]
  }

  predicate AllDistinct(bs: seq<seq<Wire>>) { forall i :: 0 <= i < |bs| ==> DistinctIds(bs[i]) }

  ghost predicate SmoothBatches(s: Schema, t: map<Key, Row>, user: UserId, now: Stamp, bs: seq<seq<Wire>>) {
    bs == [] ||
      (SmoothBatches(s, t, user, now, bs[..|bs| - 1])
       && SmoothBatch(s, ApplyBatches(s, t, user, now, bs[..|bs| - 1]), user, now, bs[|bs| - 1]))
  }

  /** No batch reported an error. */
  ghost predicate ErrorFree(s: Schema, t: map<Key, Row>, user: UserId, now: Stamp, bs: seq<seq<Wire>>) {
    bs == [] ||
      (ErrorFree(s, t, user, now, bs[..|bs| - 1])
       && ApplyBatch(s, ApplyBatches(s, t, user, now, bs[..|bs| - 1]), user, now, bs[|bs| - 1]).counts.errors == [])
  }

  lemma FlattenParts(bs: seq<seq<Wire>>)
    requires bs != []
    ensures var init, b := Flatten(bs[..|bs| - 1]), bs[|bs| - 1];
      && Flatten(bs) == init + b
      && (forall e :: e in init || e in b <==> e in Flatten(bs))
      && (Stamped(Flatten(bs)) ==> Stamped(init) && Stamped(b))
  {
    var init, b, all := Flatten(bs[..|bs| - 1]), bs[|bs| - 1], Flatten(bs);
    assert forall i :: 0 <= i < |init| ==> all[i] == init[i];
    assert forall i :: 0 <= i < |b| ==> all[|init| + i] == b[i];
  }

  lemma {:induction false} ErrorFreeBatchesAreSmooth(s: Schema, t: map<Key, Row>, user: UserId, now: Stamp,
                                                     bs: seq<seq<Wire>>)
    requires AllDistinct(bs) && Stamped(Flatten(bs)) && ErrorFree(s, t, user, now, bs)
    ensures SmoothBatches(s, t, user, now, bs)
  {
    if bs != [] {
      FlattenParts(bs);
      ErrorFreeBatchesAreSmooth(s, t, user, now, bs[..|bs| - 1]);
      ErrorFreeBatchIsSmooth(s, ApplyBatches(s, t, user, now, bs[..|bs| - 1]), user, now, bs[|bs| - 1]);
    }
  }

  /** A version of table `t` that is newest over `x`, and one of that that is newest over `y`. */
  lemma WonConcatAt(s: Schema, t: map<Key, Row>, m: map<Key, Row>, r: map<Key, Row>, user: UserId, now: Stamp,
                    x: seq<Wire>, y: seq<Wire>, k: Key)
    requires Stamped(x) && Stamped(y)
    requires WonAt(s, t, user, now, x, m, k) && WonAt(s, m, user, now, y, r, k)
    ensures WonAt(s, t, user, now, x + y, r, k)
  {
    assert forall e :: e in x + y <==> e in x || e in y;
    assert (forall e :: e in x ==> e.updatedAt.Some?) && (forall e :: e in y ==> e.updatedAt.Some?);
    if exists e :: e in y && s.At(user, e.id) == k && Beats(s, m, user, e) {
      var e :| Newest(y, e) && s.At(user, e.id) == k && k in r && r[k] == Written(s, m, user, now, e);
      NewestOfBoth(s, t, m, user, now, x, y, e, k);
    } else if exists e :: e in x && s.At(user, e.id) == k && Beats(s, t, user, e) {
      var e :| Newest(x, e) && s.At(user, e.id) == k && k in m && m[k] == Written(s, t, user, now, e);
      assert forall f :: f in y && f.id == e.id ==> MsOf(f) <= MsOf(e);
      assert Newest(x + y, e);
    }
  }

  /** An entry that beats what `x` left is newer than all of `x`. */
  lemma NewestOfBoth(s: Schema, t: map<Key, Row>, m: map<Key, Row>, user: UserId, now: Stamp,
                     x: seq<Wire>, y: seq<Wire>, e: Wire, k: Key)
    requires Stamped(x) && WonAt(s, t, user, now, x, m, k) && Newest(y, e) && k == s.At(user, e.id)
    requires exists f :: f in y && s.At(user, f.id) == k && Beats(s, m, user, f)
    ensures Newest(x + y, e) && Beats(s, t, user, e) && Written(s, m, user, now, e) == Written(s, t, user, now, e)
  {
    var f :| f in y && s.At(user, f.id) == k && Beats(s, m, user, f);
    assert MsOf(f) <= MsOf(e) && Beats(s, m, user, e);
    assert forall g :: g in x ==> g.updatedAt.Some?;
    if exists g :: g in x && s.At(user, g.id) == k && Beats(s, t, user, g) {
      var g :| Newest(x, g) && s.At(user, g.id) == k && k in m && m[k] == Written(s, t, user, now, g);
      assert MsOf(g) < MsOf(e);
    }
  }

  lemma {:induction false} BatchesWon(s: Schema, t: map<Key, Row>, user: UserId, now: Stamp, bs: seq<seq<Wire>>)
    requires AllDistinct(bs) && Stamped(Flatten(bs)) && SmoothBatches(s, t, user, now, bs)
    ensures Won(s, t, user, now, Flatten(bs), ApplyBatches(s, t, user, now, bs))
  {
    if bs != [] {
      var init, b := bs[..|bs| - 1], bs[|bs| - 1];
      var m, r := ApplyBatches(s, t, user, now, init), ApplyBatches(s, t, user, now, bs);
      FlattenParts(bs);
      BatchesWon(s, t, user, now, init);
      BatchWon(s, m, user, now, b);
      forall k ensures WonAt(s, t, user, now, Flatten(bs), r, k) {
        WonConcatAt(s, t, m, r, user, now, Flatten(init), b, k);
      }
    }
  }

  lemma {:induction false} SmoothParts(s: Schema, t: map<Key, Row>, user: UserId, now: Stamp, a: seq<Wire>,
                                       b: seq<Wire>)
    requires Smooth(s, t, user, now, a + b)
    ensures Smooth(s, t, user, now, a) && Smooth(s, ApplyEach(s, t, user, now, a).rows, user, now, b)
  {
    if b == [] {
      assert a + b == a;
    } else {
      var init, e := b[..|b| - 1], b[|b| - 1];
      assert (a + b)[..|a + b| - 1] == a + init && (a + b)[|a + b| - 1] == e;
      SmoothParts(s, t, user, now, a, init);
      EachConcat(s, t, user, now, a, init);
    }
  }

  /** Batches leave the table their entries leave one at a time, in order. */
  lemma {:induction false} BatchesAreSingles(s: Schema, t: map<Key, Row>, user: UserId, now: Stamp, bs: seq<seq<Wire>>)
    requires AllDistinct(bs) && Stamped(Flatten(bs))
    requires SmoothBatches(s, t, user, now, bs) && Smooth(s, t, user, now, Flatten(bs))
    ensures ApplyBatches(s, t, user, now, bs) == ApplyEach(s, t, user, now, Flatten(bs)).rows
  {
    if bs != [] {
      var init, b := bs[..|bs| - 1], bs[|bs| - 1];
      FlattenParts(bs);
      SmoothParts(s, t, user, now, Flatten(init), b);
      BatchesAreSingles(s, t, user, now, init);
      BatchIsSingles(s, ApplyBatches(s, t, user, now, init), user, now, b);
      EachConcat(s, t, user, now, Flatten(init), b);
    }
  }

  /** The same entries cut into any batches, in any order, end in the same table, under every key the
      newest version, provided the constraint refused none of them either way. */
  lemma BatchingDoesNotMatter(s: Schema, t: map<Key, Row>, user: UserId, now: Stamp,
                              bs: seq<seq<Wire>>, cs: seq<seq<Wire>>)
    requires AllDistinct(bs) && AllDistinct(cs) && Stamped(Flatten(bs)) && Coherent(Flatten(bs))
    requires forall e :: e in Flatten(bs) <==> e in Flatten(cs)
    requires SmoothBatches(s, t, user, now, bs) && SmoothBatches(s, t, user, now, cs)
    ensures ApplyBatches(s, t, user, now, bs) == ApplyBatches(s, t, user, now, cs)
    ensures Won(s, t, user, now, Flatten(bs), ApplyBatches(s, t, user, now, bs))
  {
    SameStamped(Flatten(bs), Flatten(cs));
    BatchesWon(s, t, user, now, bs);
    BatchesWon(s, t, user, now, cs);
    var a, b := ApplyBatches(s, t, user, now, bs), ApplyBatches(s, t, user, now, cs);
    WonIsUnique(s, t, user, now, Flatten(bs), Flatten(cs), a, b);
  }

  // ---- What a pushed entry comes back as ----

  /** Whatever stood under its key before: an entry written to a table is read back as if it had been
      written to an empty one, so a canonical entry is pulled exactly as it was pushed. */
  lemma WrittenReadsBack(s: Schema, t: map<Key, Row>, user: UserId, now: Stamp, e: Wire)
    ensures var w := Written(s, t, user, now, e);
      && (Beats(s, t, user, e) ==> w.user == user)
      && (RowToWire(w).(id := e.id) == e <==> Canonical(e))
  {
    StoreThenReadIsIdentity(e, user, now);
    var w, r := Written(s, t, user, now, e), WireToRow(e, user, now);
    assert RowToWire(w).(id := e.id) == RowToWire(r);
  }

  /** After a batch of which the constraint refused nothing, an entry newer than the table and all others of
      its id is pulled, by everybody who pulls this user's rows, exactly as it was pushed. */
  lemma PushedIsPulled(s: Schema, t: map<Key, Row>, user: UserId, now: Stamp, es: seq<Wire>, e: Wire)
    requires Stamped(es) && DistinctIds(es) && SmoothBatch(s, t, user, now, es) && WellKeyed(s, t)
    ensures var r, k := ApplyBatch(s, t, user, now, es).rows, s.At(user, e.id);
      e in es && Beats(s, t, user, e) && Canonical(e) ==> k in r && r[k].user == user && RowToWire(r[k]) == e
  {
    var r, k := ApplyBatch(s, t, user, now, es).rows, s.At(user, e.id);
    if e in es && Beats(s, t, user, e) && Canonical(e) {
      BatchWon(s, t, user, now, es);
      assert WonAt(s, t, user, now, es, r, k);
      var f :| Newest(es, f) && s.At(user, f.id) == k && k in r && r[k] == Written(s, t, user, now, f);
      var i :| 0 <= i < |es| && es[i] == e;
      var j :| 0 <= j < |es| && es[j] == f;
      assert f == e;
      WrittenReadsBack(s, t, user, now, e);
    }
  }
}
