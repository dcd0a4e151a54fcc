/** One batch against the same entries one request each. */
module Batches {
  import opened Rows
  import opened Tables
  import opened Apply

  function Plus(a: Counts, b: Counts): Counts {
    Counts(a.inserted + b.inserted, a.updated + b.updated, a.skipped + b.skipped, a.errors + b.errors)
  }

  /** One entry decided and written on its own. */
  function Single(s: Schema, t: map<Key, Row>, user: UserId, now: Stamp, e: Wire): Result {
    var w := WireToRow(e, user, now);
    match Decide(s, t, user, e)
    case Insert => var g := InsertOne(s, t, w); Result(g.rows, Counts(1 - |g.failed|, 0, 0, g.failed))
    case Update => var u := UpdateOne(s, t, user, w); Result(u.rows, Counts(0, 1 - |u.failed|, 0, u.failed))
    case Skip => Result(t, Counts(0, 0, 1, []))
  }

  /** That is what a request of one entry does. */
  lemma SingleIsRequest(s: Schema, t: map<Key, Row>, user: UserId, now: Stamp, e: Wire)
    ensures ApplyBatch(s, t, user, now, [e]) == Single(s, t, user, now, e)
  {
    var w := WireToRow(e, user, now);
    assert [e][..0] == [] && PlanOf(s, t, user, [e][..0]) == Plan([], [], []);
    assert ToRows([e], user, now) == [w] && ToRows([], user, now) == [];
    SingleInsert(s, t, w);
    assert [w][..0] == [] && UpdateAll(s, t, user, [w][..0]) == Inserted(t, []);
    assert [] + UpdateOne(s, t, user, w).failed == UpdateOne(s, t, user, w).failed;
  }

  /** Each entry as a request of its own. */
  function ApplyEach(s: Schema, t: map<Key, Row>, user: UserId, now: Stamp, es: seq<Wire>): Result {
    if es == [] then Result(t, Counts(0, 0, 0, []))
    else
      var b := ApplyEach(s, t, user, now, es[..|es| - 1]);
      var r := Single(s, b.rows, user, now, es[|es| - 1]);
      Result(r.rows, Plus(b.counts, r.counts))
  }

  ghost predicate AllDecided(s: Schema, t: map<Key, Row>, user: UserId, es: seq<Wire>, a: Action) {
    forall e :: e in es ==> Decide(s, t, user, e) == a
  }

  ghost predicate Mentions(es: seq<Wire>, id: Id) { exists e :: e in es && e.id == id }

  ghost predicate Apart(a: seq<Wire>, b: seq<Wire>) { forall e, f :: e in a && f in b ==> e.id != f.id }

  lemma DistinctSnoc(es: seq<Wire>, e: Wire)
    requires DistinctIds(es) && !Mentions(es, e.id)
    ensures DistinctIds(es + [e])
  {
    assert forall i :: 0 <= i < |es| ==> es[i] in es;
  }

  lemma DistinctInit(es: seq<Wire>)
    requires es != [] && DistinctIds(es)
    ensures DistinctIds(es[..|es| - 1]) && !Mentions(es[..|es| - 1], es[|es| - 1].id)
  {}

  lemma {:induction false} PlanSplits(s: Schema, t: map<Key, Row>, user: UserId, es: seq<Wire>)
    requires DistinctIds(es)
    ensures var p := PlanOf(s, t, user, es);
      && (forall e :: e in p.ins || e in p.upd || e in p.skip ==> e in es)
      && AllDecided(s, t, user, p.ins, Insert) && AllDecided(s, t, user, p.upd, Update)
      && AllDecided(s, t, user, p.skip, Skip)
      && DistinctIds(p.ins) && DistinctIds(p.upd) && Apart(p.upd, p.skip)
      && Apart(p.ins, p.upd) && Apart(p.ins, p.skip)
  {
    if es != [] {
      var init, e := es[..|es| - 1], es[|es| - 1];
      DistinctInit(es);
      PlanSplits(s, t, user, init);
      var p := PlanOf(s, t, user, init);
      assert forall f :: f in init ==> f in es;
      match Decide(s, t, user, e)
      case Insert => DistinctSnoc(p.ins, e);
      case Update => DistinctSnoc(p.upd, e);
      case Skip =>
    }
  }

  lemma {:induction false} GreedyFrame(s: Schema, t: map<Key, Row>, user: UserId, now: Stamp, es: seq<Wire>, id: Id)
    requires !Mentions(es, id)
    ensures Existing(s, Greedy(s, t, ToRows(es, user, now)).rows, user, id) == Existing(s, t, user, id)
  {
    if es != [] {
      var init := es[..|es| - 1];
      assert ToRows(es, user, now)[..|es| - 1] == ToRows(init, user, now);
      assert es[|es| - 1] in es && forall e :: e in init ==> e in es;
      GreedyFrame(s, t, user, now, init, id);
    }
  }

  lemma {:induction false} UpdateFrame(s: Schema, t: map<Key, Row>, user: UserId, now: Stamp, es: seq<Wire>, id: Id)
    requires !Mentions(es, id)
    ensures Existing(s, UpdateAll(s, t, user, ToRows(es, user, now)).rows, user, id) == Existing(s, t, user, id)
  {
    if es != [] {
      var init := es[..|es| - 1];
      assert ToRows(es, user, now)[..|es| - 1] == ToRows(init, user, now);
      assert es[|es| - 1] in es && forall e :: e in init ==> e in es;
      UpdateFrame(s, t, user, now, init, id);
    }
  }

  lemma PlusNothing(a: Counts)
    ensures Plus(a, Counts(0, 0, 0, [])) == a
  {
    assert a.errors + [] == a.errors;
  }

  lemma PlusAssoc(a: Counts, b: Counts, c: Counts)
    ensures Plus(Plus(a, b), c) == Plus(a, Plus(b, c))
  {
    assert (a.errors + b.errors) + c.errors == a.errors + (b.errors + c.errors);
  }

  lemma EachSnoc(s: Schema, t: map<Key, Row>, user: UserId, now: Stamp, es: seq<Wire>, e: Wire)
    ensures var b := ApplyEach(s, t, user, now, es);
      var r := Single(s, b.rows, user, now, e);
      ApplyEach(s, t, user, now, es + [e]) == Result(r.rows, Plus(b.counts, r.counts))
  {
    assert (es + [e])[..|es + [e]| - 1] == es;
  }

  lemma GreedySnoc(s: Schema, t: map<Key, Row>, user: UserId, now: Stamp, es: seq<Wire>, e: Wire)
    ensures var b := Greedy(s, t, ToRows(es, user, now));
      var l := InsertOne(s, b.rows, WireToRow(e, user, now));
      Greedy(s, t, ToRows(es + [e], user, now)) == Inserted(l.rows, b.failed + l.failed)
  {
    ToRowsSnoc(es, e, user, now);
    var rs := ToRows(es, user, now);
    assert (rs + [WireToRow(e, user, now)])[..|rs|] == rs;
  }

  lemma UpdateSnoc(s: Schema, t: map<Key, Row>, user: UserId, now: Stamp, es: seq<Wire>, e: Wire)
    ensures var b := UpdateAll(s, t, user, ToRows(es, user, now));
      var l := UpdateOne(s, b.rows, user, WireToRow(e, user, now));
      UpdateAll(s, t, user, ToRows(es + [e], user, now)) == Inserted(l.rows, b.failed + l.failed)
  {
    ToRowsSnoc(es, e, user, now);
    var rs := ToRows(es, user, now);
    assert (rs + [WireToRow(e, user, now)])[..|rs|] == rs;
  }

  lemma {:induction false} EachInsert(s: Schema, t: map<Key, Row>, user: UserId, now: Stamp, ins: seq<Wire>)
    requires AllDecided(s, t, user, ins, Insert) && DistinctIds(ins)
    ensures var g := Greedy(s, t, ToRows(ins, user, now));
      ApplyEach(s, t, user, now, ins) == Result(g.rows, Counts(|ins| - |g.failed|, 0, 0, g.failed))
  {
    if ins != [] {
      var init, e := ins[..|ins| - 1], ins[|ins| - 1];
      assert ins == init + [e];
      DistinctInit(ins);
      EachInsert(s, t, user, now, init);
      GreedyFrame(s, t, user, now, init, e.id);
      GreedySnoc(s, t, user, now, init, e);
      EachSnoc(s, t, user, now, init, e);
      assert e in ins;
      assert Decide(s, ApplyEach(s, t, user, now, init).rows, user, e) == Insert;
    }
  }

  lemma {:induction false} EachUpdate(s: Schema, t: map<Key, Row>, user: UserId, now: Stamp, upd: seq<Wire>)
    requires AllDecided(s, t, user, upd, Update) && DistinctIds(upd)
    ensures var u := UpdateAll(s, t, user, ToRows(upd, user, now));
      ApplyEach(s, t, user, now, upd) == Result(u.rows, Counts(0, |upd| - |u.failed|, 0, u.failed))
  {
    if upd != [] {
      var init, e := upd[..|upd| - 1], upd[|upd| - 1];
      assert upd == init + [e];
      DistinctInit(upd);
      EachUpdate(s, t, user, now, init);
      UpdateFrame(s, t, user, now, init, e.id);
      UpdateSnoc(s, t, user, now, init, e);
      EachSnoc(s, t, user, now, init, e);
      assert e in upd;
      assert Decide(s, ApplyEach(s, t, user, now, init).rows, user, e) == Update;
    }
  }

  lemma {:induction false} EachSkip(s: Schema, t: map<Key, Row>, user: UserId, now: Stamp, skip: seq<Wire>)
    requires AllDecided(s, t, user, skip, Skip)
    ensures var r := ApplyEach(s, t, user, now, skip);
      && r.rows == t && r.counts.inserted == 0 && r.counts.updated == 0
      && r.counts.skipped == |skip| && r.counts.errors == []
  {
    if skip != [] {
      var init, e := skip[..|skip| - 1], skip[|skip| - 1];
      assert skip == init + [e];
      EachSkip(s, t, user, now, init);
      assert e in skip;
      SkipSnoc(s, t, user, now, init, e);
    }
  }

  lemma SkipSnoc(s: Schema, t: map<Key, Row>, user: UserId, now: Stamp, es: seq<Wire>, e: Wire)
    requires Decide(s, ApplyEach(s, t, user, now, es).rows, user, e) == Skip
    ensures var b, r := ApplyEach(s, t, user, now, es), ApplyEach(s, t, user, now, es + [e]);
      && r.rows == b.rows && r.counts.inserted == b.counts.inserted && r.counts.updated == b.counts.updated
      && r.counts.skipped == b.counts.skipped + 1 && r.counts.errors == b.counts.errors
  {
    EachSnoc(s, t, user, now, es, e);
  }

  /** `all` is `second` after `first`. */
  predicate Joined(all: Result, first: Result, second: Result) {
    all.rows == second.rows && all.counts == Plus(first.counts, second.counts)
  }

  lemma {:induction false} EachConcat(s: Schema, t: map<Key, Row>, user: UserId, now: Stamp, a: seq<Wire>, b: seq<Wire>)
    ensures var r := ApplyEach(s, t, user, now, a);
      Joined(ApplyEach(s, t, user, now, a + b), r, ApplyEach(s, r.rows, user, now, b))
  {
    var r := ApplyEach(s, t, user, now, a);
    if b == [] {
      assert a + b == a;
      PlusNothing(r.counts);
    } else {
      var init, e := b[..|b| - 1], b[|b| - 1];
      assert b == init + [e];
      EachConcat(s, t, user, now, a, init);
      ConcatSnoc(s, t, user, now, r, a + init, init, e);
      assert a + b == (a + init) + [e];
    }
  }

  lemma ConcatSnoc(s: Schema, t: map<Key, Row>, user: UserId, now: Stamp, r: Result, ab: seq<Wire>,
                   b: seq<Wire>, e: Wire)
    requires Joined(ApplyEach(s, t, user, now, ab), r, ApplyEach(s, r.rows, user, now, b))
    ensures Joined(ApplyEach(s, t, user, now, ab + [e]), r, ApplyEach(s, r.rows, user, now, b + [e]))
  {
    var x, q := ApplyEach(s, t, user, now, ab), ApplyEach(s, r.rows, user, now, b);
    EachSnoc(s, t, user, now, ab, e);
    EachSnoc(s, r.rows, user, now, b, e);
    JoinedSnoc(x, r, q, Single(s, q.rows, user, now, e));
  }

  lemma JoinedSnoc(x: Result, r: Result, q: Result, one: Result)
    requires Joined(x, r, q)
    ensures Joined(Result(one.rows, Plus(x.counts, one.counts)), r, Result(one.rows, Plus(q.counts, one.counts)))
  {
    PlusAssoc(r.counts, q.counts, one.counts);
  }

  /** The insert phase leaves every entry outside it decided as before. */
  lemma GreedyKeepsDecisions(s: Schema, t: map<Key, Row>, user: UserId, now: Stamp, ins: seq<Wire>, es: seq<Wire>,
                             a: Action)
    requires AllDecided(s, t, user, es, a) && Apart(ins, es)
    ensures AllDecided(s, Greedy(s, t, ToRows(ins, user, now)).rows, user, es, a)
  {
    forall e | e in es { GreedyFrame(s, t, user, now, ins, e.id); }
  }

  lemma UpdateKeepsDecisions(s: Schema, t: map<Key, Row>, user: UserId, now: Stamp, upd: seq<Wire>, es: seq<Wire>,
                             a: Action)
    requires AllDecided(s, t, user, es, a) && Apart(upd, es)
    ensures AllDecided(s, UpdateAll(s, t, user, ToRows(upd, user, now)).rows, user, es, a)
  {
    forall e | e in es { UpdateFrame(s, t, user, now, upd, e.id); }
  }

  // ---- The order in which a batch writes ----

  /** The entries of a batch, new ids first, then changed ones, then stale ones. */
  function WriteOrder(s: Schema, t: map<Key, Row>, user: UserId, es: seq<Wire>): seq<Wire> {
    var p := PlanOf(s, t, user, es);
    p.ins + p.upd + p.skip
  }

  lemma {:induction false} SkipIsDistinct(s: Schema, t: map<Key, Row>, user: UserId, es: seq<Wire>)
    requires DistinctIds(es)
    ensures DistinctIds(PlanOf(s, t, user, es).skip)
  {
    if es != [] {
      var init, e := es[..|es| - 1], es[|es| - 1];
      DistinctInit(es);
      PlanSplits(s, t, user, init);
      SkipIsDistinct(s, t, user, init);
      if Decide(s, t, user, e) == Skip { DistinctSnoc(PlanOf(s, t, user, init).skip, e); }
    }
  }

  lemma DistinctConcat(a: seq<Wire>, b: seq<Wire>)
    requires DistinctIds(a) && DistinctIds(b) && Apart(a, b)
    ensures DistinctIds(a + b)
  {
    forall i, j | 0 <= i < j < |a + b| ensures (a + b)[i].id != (a + b)[j].id {
      if i < |a| && j >= |a| { assert a[i] in a && b[j - |a|] in b; }
    }
  }

  lemma WriteOrderIsTheBatch(s: Schema, t: map<Key, Row>, user: UserId, es: seq<Wire>)
    requires DistinctIds(es)
    ensures DistinctIds(WriteOrder(s, t, user, es)) && forall e :: e in WriteOrder(s, t, user, es) <==> e in es
  {
    var p := PlanOf(s, t, user, es);
    PlanSplits(s, t, user, es);
    SkipIsDistinct(s, t, user, es);
    PlanHolds(s, t, user, es);
    DistinctConcat(p.ins, p.upd);
    DistinctConcat(p.ins + p.upd, p.skip);
  }

  /** For any constraint: a batch with distinct ids is its entries one by one in the order in which it
      writes them; same table, same report. */
  lemma BatchIsInsertsFirst(s: Schema, t: map<Key, Row>, user: UserId, now: Stamp, es: seq<Wire>)
    requires DistinctIds(es)
    ensures ApplyBatch(s, t, user, now, es) == ApplyEach(s, t, user, now, WriteOrder(s, t, user, es))
  {
    var p := PlanOf(s, t, user, es);
    PlanSplits(s, t, user, es);
    PhasesAreSingles(s, t, user, now, p.ins, p.upd, p.skip);
  }

  lemma PhasesAreSingles(s: Schema, t: map<Key, Row>, user: UserId, now: Stamp,
                         ins: seq<Wire>, upd: seq<Wire>, skip: seq<Wire>)
    requires AllDecided(s, t, user, ins, Insert) && AllDecided(s, t, user, upd, Update)
    requires AllDecided(s, t, user, skip, Skip) && DistinctIds(ins) && DistinctIds(upd)
    requires Apart(ins, upd) && Apart(ins, skip) && Apart(upd, skip)
    ensures var g := Greedy(s, t, ToRows(ins, user, now));
      var u := UpdateAll(s, g.rows, user, ToRows(upd, user, now));
      ApplyEach(s, t, user, now, ins + upd + skip)
      == Result(u.rows, Counts(|ins| - |g.failed|, |upd| - |u.failed|, |skip|, g.failed + u.failed))
  {
    var g := Greedy(s, t, ToRows(ins, user, now)).rows;
    EachInsert(s, t, user, now, ins);
    GreedyKeepsDecisions(s, t, user, now, ins, upd, Update);
    GreedyKeepsDecisions(s, t, user, now, ins, skip, Skip);
    UpdatesThenSkips(s, g, user, now, upd, skip);
    assert ins + upd + skip == ins + (upd + skip);
    EachConcat(s, t, user, now, ins, upd + skip);
  }

  lemma UpdatesThenSkips(s: Schema, t: map<Key, Row>, user: UserId, now: Stamp, upd: seq<Wire>, skip: seq<Wire>)
    requires AllDecided(s, t, user, upd, Update) && AllDecided(s, t, user, skip, Skip)
    requires DistinctIds(upd) && Apart(upd, skip)
    ensures var u := UpdateAll(s, t, user, ToRows(upd, user, now));
      ApplyEach(s, t, user, now, upd + skip) == Result(u.rows, Counts(0, |upd| - |u.failed|, |skip|, u.failed))
  {
    var u := UpdateAll(s, t, user, ToRows(upd, user, now));
    EachUpdate(s, t, user, now, upd);
    UpdateKeepsDecisions(s, t, user, now, upd, skip, Skip);
    EachSkip(s, u.rows, user, now, skip);
    EachConcat(s, t, user, now, upd, skip);
    assert u.failed + [] == u.failed;
  }

  // ---- Batches that change nothing ----

  /** The table would not change by this entry: it is stale, refused, or what is stored already. */
  predicate Idle(s: Schema, t: map<Key, Row>, user: UserId, now: Stamp, e: Wire) {
    var k, w := s.At(user, e.id), WireToRow(e, user, now);
    match Decide(s, t, user, e)
    case Skip => true
    case Insert => k in t || !s.legal(t[k := w])
    case Update => k in t && (Patched(t[k], w) == t[k] || !s.legal(t[k := Patched(t[k], w)]))
  }

  lemma SingleIsIdleExactly(s: Schema, t: map<Key, Row>, user: UserId, now: Stamp, e: Wire)
    ensures Single(s, t, user, now, e).rows == t <==> Idle(s, t, user, now, e)
  {
    var k, w := s.At(user, e.id), WireToRow(e, user, now);
    assert s.Of(w) == k;
    assert k !in t ==> t[k := w] != t;
    assert k in t ==> t[k := t[k]] == t;
    assert k in t && Patched(t[k], w) != t[k] ==> t[k := Patched(t[k], w)][k] != t[k];
  }

  ghost predicate Agree(t: map<Key, Row>, m: map<Key, Row>, k: Key) {
    (k in m <==> k in t) && (k in m ==> m[k] == t[k])
  }

  lemma SingleFrame(s: Schema, m: map<Key, Row>, user: UserId, now: Stamp, e: Wire, k: Key)
    requires s.At(user, e.id) != k
    ensures Agree(m, Single(s, m, user, now, e).rows, k)
  {}

  lemma {:induction false} EachFrame(s: Schema, t: map<Key, Row>, user: UserId, now: Stamp, es: seq<Wire>, k: Key)
    requires forall e :: e in es ==> s.At(user, e.id) != k
    ensures Agree(t, ApplyEach(s, t, user, now, es).rows, k)
  {
    if es != [] {
      var init, e := es[..|es| - 1], es[|es| - 1];
      assert es == init + [e];
      assert e in es && forall f :: f in init ==> f in es;
      EachFrame(s, t, user, now, init, k);
      EachSnoc(s, t, user, now, init, e);
      SingleFrame(s, ApplyEach(s, t, user, now, init).rows, user, now, e, k);
    }
  }

  /** Every mention of an id after its first one carries a stamp. Stamped batches and batches with distinct
      ids are such. */
  predicate StampedRepeats(es: seq<Wire>) {
    forall i, j :: 0 <= i < j < |es| && es[i].id == es[j].id ==> es[j].updatedAt.Some?
  }

  lemma RepeatsSnoc(es: seq<Wire>, e: Wire)
    ensures StampedRepeats(es + [e]) <==> StampedRepeats(es) && (Mentions(es, e.id) ==> e.updatedAt.Some?)
  {
    var all := es + [e];
    assert forall i :: 0 <= i < |es| ==> all[i] == es[i];
    if Mentions(es, e.id) {
      var i :| 0 <= i < |es| && es[i].id == e.id;
      assert all[i].id == all[|es|].id;
    }
    if StampedRepeats(es) && (Mentions(es, e.id) ==> e.updatedAt.Some?) {
      forall i, j | 0 <= i < j < |all| && all[i].id == all[j].id ensures all[j].updatedAt.Some? {
        if j == |es| { assert es[i] in es; }
      }
    }
  }

  lemma {:induction false} UpdatesRepeatStamped(s: Schema, t: map<Key, Row>, user: UserId, es: seq<Wire>)
    requires StampedRepeats(es)
    ensures StampedRepeats(PlanOf(s, t, user, es).upd)
  {
    if es != [] {
      var init, e := es[..|es| - 1], es[|es| - 1];
      assert es == init + [e];
      RepeatsSnoc(init, e);
      UpdatesRepeatStamped(s, t, user, init);
      PlanHolds(s, t, user, init);
      RepeatsSnoc(PlanOf(s, t, user, init).upd, e);
    }
  }

  /** Entries decided as inserts leave the table as it is exactly when each of them is idle. */
  lemma {:induction false} InsertsAreIdleExactly(s: Schema, t: map<Key, Row>, user: UserId, now: Stamp, ins: seq<Wire>)
    requires AllDecided(s, t, user, ins, Insert)
    ensures SubMap(t, Greedy(s, t, ToRows(ins, user, now)).rows)
    ensures Greedy(s, t, ToRows(ins, user, now)).rows == t <==> forall e :: e in ins ==> Idle(s, t, user, now, e)
  {
    if ins != [] {
      var init, e := ins[..|ins| - 1], ins[|ins| - 1];
      assert ins == init + [e];
      assert e in ins && forall f :: f in init ==> f in ins;
      InsertsAreIdleExactly(s, t, user, now, init);
      GreedySnoc(s, t, user, now, init, e);
      InsertStep(s, t, Greedy(s, t, ToRows(init, user, now)).rows, user, now, e);
    }
  }

  lemma InsertStep(s: Schema, t: map<Key, Row>, m: map<Key, Row>, user: UserId, now: Stamp, e: Wire)
    requires SubMap(t, m) && Decide(s, t, user, e) == Insert
    ensures var g := InsertOne(s, m, WireToRow(e, user, now)).rows;
      SubMap(t, g) && (g == t <==> m == t && Idle(s, t, user, now, e))
  {
    var g, k := InsertOne(s, m, WireToRow(e, user, now)).rows, s.At(user, e.id);
    InsertOneKeeps(s, m, WireToRow(e, user, now));
    SameKeysSameMap(t, m);
    assert k !in t ==> t[k := WireToRow(e, user, now)] != t;
  }

  /** Entries decided as updates leave the table as it is exactly when each of them is idle. */
  lemma {:induction false} UpdatesAreIdleExactly(s: Schema, t: map<Key, Row>, user: UserId, now: Stamp, upd: seq<Wire>)
    requires AllDecided(s, t, user, upd, Update) && StampedRepeats(upd)
    ensures UpdateAll(s, t, user, ToRows(upd, user, now)).rows == t
      <==> forall e :: e in upd ==> Idle(s, t, user, now, e)
  {
    if upd != [] {
      var init, e := upd[..|upd| - 1], upd[|upd| - 1];
      assert upd == init + [e];
      assert e in upd && forall f :: f in init ==> f in upd;
      RepeatsSnoc(init, e);
      UpdatesAreIdleExactly(s, t, user, now, init);
      UpdateSnoc(s, t, user, now, init, e);
      if !Mentions(init, e.id) { UpdateFrame(s, t, user, now, init, e.id); }
      UpdateStep(s, t, UpdateAll(s, t, user, ToRows(init, user, now)).rows, user, now, e);
    }
  }

  /** `m` is the table after earlier updates; a stamp newer than the table's, or a row they left alone,
      cannot bring the old row back. */
  lemma UpdateStep(s: Schema, t: map<Key, Row>, m: map<Key, Row>, user: UserId, now: Stamp, e: Wire)
    requires Decide(s, t, user, e) == Update
    requires e.updatedAt.Some? || Existing(s, m, user, e.id) == Existing(s, t, user, e.id)
    ensures UpdateOne(s, m, user, WireToRow(e, user, now)).rows == t <==> m == t && Idle(s, t, user, now, e)
  {
    var u, k, w := UpdateOne(s, m, user, WireToRow(e, user, now)).rows, s.At(user, e.id), WireToRow(e, user, now);
    if k in m {
      assert m[k := m[k]] == m && m[k := Patched(m[k], w)][k].updatedAt == w.updatedAt;
    }
    if k in t {
      assert t[k := t[k]] == t && t[k := Patched(t[k], w)][k] == Patched(t[k], w);
    }
  }

  lemma {:induction false} IdleUpdates(s: Schema, t: map<Key, Row>, user: UserId, now: Stamp, upd: seq<Wire>)
    requires AllDecided(s, t, user, upd, Update) && forall e :: e in upd ==> Idle(s, t, user, now, e)
    ensures UpdateAll(s, t, user, ToRows(upd, user, now)).rows == t
  {
    if upd != [] {
      var init, e := upd[..|upd| - 1], upd[|upd| - 1];
      assert upd == init + [e];
      assert e in upd && forall f :: f in init ==> f in upd;
      IdleUpdates(s, t, user, now, init);
      UpdateSnoc(s, t, user, now, init, e);
      UpdateStep(s, t, t, user, now, e);
    }
  }

  /** Entries that would not change the table on their own do not change it as a batch, whatever it repeats. */
  lemma IdleEntriesAreIdle(s: Schema, t: map<Key, Row>, user: UserId, now: Stamp, es: seq<Wire>)
    requires forall e :: e in es ==> Idle(s, t, user, now, e)
    ensures ApplyBatch(s, t, user, now, es).rows == t
  {
    PlanHolds(s, t, user, es);
    InsertsAreIdleExactly(s, t, user, now, PlanOf(s, t, user, es).ins);
    IdleUpdates(s, t, user, now, PlanOf(s, t, user, es).upd);
  }

  /** For any constraint: a batch, new or delivered again, changes nothing if and only if no entry of it
      would on its own. Ids may repeat, as long as repeats are stamped. */
  lemma BatchIsIdleExactly(s: Schema, t: map<Key, Row>, user: UserId, now: Stamp, es: seq<Wire>)
    requires StampedRepeats(es)
    ensures ApplyBatch(s, t, user, now, es).rows == t <==> forall e :: e in es ==> Idle(s, t, user, now, e)
  {
    var p := PlanOf(s, t, user, es);
    var g := Greedy(s, t, ToRows(p.ins, user, now)).rows;
    PlanHolds(s, t, user, es);
    UpdatesRepeatStamped(s, t, user, es);
    InsertsAreIdleExactly(s, t, user, now, p.ins);
    UpdatesAreIdleExactly(s, t, user, now, p.upd);
    if g != t { GrownStaysGrown(s, t, g, user, ToRows(p.upd, user, now)); }
    EntriesOfPlan(s, t, user, now, es);
  }

  lemma EntriesOfPlan(s: Schema, t: map<Key, Row>, user: UserId, now: Stamp, es: seq<Wire>)
    ensures var p := PlanOf(s, t, user, es);
      (forall e :: e in es ==> Idle(s, t, user, now, e))
      <==> (forall e :: e in p.ins ==> Idle(s, t, user, now, e)) && forall e :: e in p.upd ==> Idle(s, t, user, now, e)
  {
    PlanHolds(s, t, user, es);
    assert forall e :: Decide(s, t, user, e) == Skip ==> Idle(s, t, user, now, e);
  }

  /** Updates do not take an inserted row away. */
  lemma GrownStaysGrown(s: Schema, t: map<Key, Row>, g: map<Key, Row>, user: UserId, ws: seq<Row>)
    requires SubMap(t, g) && g != t
    ensures UpdateAll(s, g, user, ws).rows != t
  {
    UpdatesKeepKeys(s, g, user, ws);
    SameKeysSameMap(t, g);
  }

  lemma SameKeysSameMap(t: map<Key, Row>, g: map<Key, Row>)
    requires SubMap(t, g)
    ensures g.Keys == t.Keys ==> g == t
  {
    if g.Keys == t.Keys {
      forall k: Key ensures (k in g <==> k in t) && (k in g ==> g[k] == t[k]) {}
    }
  }

  lemma {:induction false} UpdatesKeepKeys(s: Schema, t: map<Key, Row>, user: UserId, ws: seq<Row>)
    ensures UpdateAll(s, t, user, ws).rows.Keys == t.Keys
  {
    if ws != [] { UpdatesKeepKeys(s, t, user, ws[..|ws| - 1]); }
  }
}
