/** Batches the schema lets through that repeat an id, and constraints that make order matter. */
module Duplicates {
  import opened Rows
  import opened Tables
  import opened Apply
  import opened Batches
  import opened Lww

  function FirstOf(es: seq<Wire>, id: Id): Option<Wire> {
    if es == [] then None
    else
      var f := FirstOf(es[..|es| - 1], id);
      if f.Some? then f else if es[|es| - 1].id == id then Some(es[|es| - 1]) else None
  }

  function LastOf(es: seq<Wire>, id: Id): Option<Wire> {
    if es == [] then None
    else if es[|es| - 1].id == id then Some(es[|es| - 1])
    else LastOf(es[..|es| - 1], id)
  }

  lemma {:induction false} FirstAndLastAreMembers(es: seq<Wire>, id: Id)
    ensures FirstOf(es, id).Some? ==> FirstOf(es, id).value in es && FirstOf(es, id).value.id == id
    ensures LastOf(es, id).Some? ==> LastOf(es, id).value in es && LastOf(es, id).value.id == id
    ensures Mentions(es, id) ==> FirstOf(es, id).Some? && LastOf(es, id).Some?
  {
    if es != [] {
      FirstAndLastAreMembers(es[..|es| - 1], id);
      assert es == es[..|es| - 1] + [es[|es| - 1]];
    }
  }

  lemma FirstSnoc(es: seq<Wire>, e: Wire, id: Id)
    ensures FirstOf(es + [e], id) ==
      if FirstOf(es, id).Some? then FirstOf(es, id) else if e.id == id then Some(e) else None
  {
    assert (es + [e])[..|es|] == es;
  }

  lemma PlanSnoc(s: Schema, t: map<Key, Row>, user: UserId, es: seq<Wire>, e: Wire)
    ensures var p := PlanOf(s, t, user, es);
      PlanOf(s, t, user, es + [e]) ==
        match Decide(s, t, user, e)
        case Insert => p.(ins := p.ins + [e])
        case Update => p.(upd := p.upd + [e])
        case Skip => p.(skip := p.skip + [e])
  {
    assert (es + [e])[..|es|] == es;
  }

  /** Where the key is new every mention is planned as an insert. */
  lemma {:induction false} PlanKeepsFirst(s: Schema, t: map<Key, Row>, user: UserId, es: seq<Wire>, id: Id)
    requires Existing(s, t, user, id).None?
    ensures FirstOf(PlanOf(s, t, user, es).ins, id) == FirstOf(es, id)
  {
    if es != [] {
      var init, e := es[..|es| - 1], es[|es| - 1];
      PlanKeepsFirst(s, t, user, init, id);
      assert es == init + [e];
      FirstSnoc(init, e, id);
      FirstSnoc(PlanOf(s, t, user, init).ins, e, id);
      PlanSnoc(s, t, user, init, e);
      assert e.id == id ==> Decide(s, t, user, e) == Insert;
    }
  }

  /** The constraint refuses no insert; the key may. */
  ghost predicate InsertsSmooth(s: Schema, t: map<Key, Row>, user: UserId, now: Stamp, ins: seq<Wire>) {
    ins == [] ||
      (InsertsSmooth(s, t, user, now, ins[..|ins| - 1])
       && InsertAdmitted(s, Greedy(s, t, ToRows(ins[..|ins| - 1], user, now)).rows, user, now, ins[|ins| - 1]))
  }

  ghost predicate InsertAdmitted(s: Schema, t: map<Key, Row>, user: UserId, now: Stamp, e: Wire) {
    s.At(user, e.id) in t || s.legal(t[s.At(user, e.id) := WireToRow(e, user, now)])
  }

  /** The constraint refuses no update. */
  ghost predicate UpdatesSmooth(s: Schema, t: map<Key, Row>, user: UserId, now: Stamp, upd: seq<Wire>) {
    upd == [] ||
      (UpdatesSmooth(s, t, user, now, upd[..|upd| - 1])
       && UpdateAdmitted(s, UpdateAll(s, t, user, ToRows(upd[..|upd| - 1], user, now)).rows, user, now, upd[|upd| - 1]))
  }

  ghost predicate UpdateAdmitted(s: Schema, t: map<Key, Row>, user: UserId, now: Stamp, e: Wire) {
    Existing(s, t, user, e.id).Some? ==>
      s.legal(t[s.At(user, e.id) := Patched(t[s.At(user, e.id)], WireToRow(e, user, now))])
  }

  /** The constraint refuses nothing where the batch writes it. */
  ghost predicate PhasesSmooth(s: Schema, t: map<Key, Row>, user: UserId, now: Stamp, es: seq<Wire>) {
    var p := PlanOf(s, t, user, es);
    && InsertsSmooth(s, t, user, now, p.ins)
    && UpdatesSmooth(s, Greedy(s, t, ToRows(p.ins, user, now)).rows, user, now, p.upd)
  }

  lemma {:induction false} HarmlessInserts(s: Schema, t: map<Key, Row>, user: UserId, now: Stamp, ins: seq<Wire>)
    requires TableOk(s, t) && Harmless(s, user, now, ins)
    ensures InsertsSmooth(s, t, user, now, ins) && TableOk(s, Greedy(s, t, ToRows(ins, user, now)).rows)
  {
    if ins != [] {
      var init, e := ins[..|ins| - 1], ins[|ins| - 1];
      assert ins == init + [e];
      assert e in ins && forall f :: f in init ==> f in ins;
      HarmlessInserts(s, t, user, now, init);
      GreedySnoc(s, t, user, now, init, e);
      assert LegalWrite(s, Greedy(s, t, ToRows(init, user, now)).rows, user, WireToRow(e, user, now));
    }
  }

  lemma {:induction false} HarmlessUpdates(s: Schema, t: map<Key, Row>, user: UserId, now: Stamp, upd: seq<Wire>)
    requires TableOk(s, t) && Harmless(s, user, now, upd)
    ensures UpdatesSmooth(s, t, user, now, upd) && TableOk(s, UpdateAll(s, t, user, ToRows(upd, user, now)).rows)
  {
    if upd != [] {
      var init, e := upd[..|upd| - 1], upd[|upd| - 1];
      assert upd == init + [e];
      assert e in upd && forall f :: f in init ==> f in upd;
      HarmlessUpdates(s, t, user, now, init);
      UpdateSnoc(s, t, user, now, init, e);
      assert LegalWrite(s, UpdateAll(s, t, user, ToRows(init, user, now)).rows, user, WireToRow(e, user, now));
    }
  }

  /** Entries no table refuses are refused in neither phase, repeated ids or not. */
  lemma HarmlessIsPhasesSmooth(s: Schema, t: map<Key, Row>, user: UserId, now: Stamp, es: seq<Wire>)
    requires TableOk(s, t) && Harmless(s, user, now, es)
    ensures PhasesSmooth(s, t, user, now, es)
  {
    var p := PlanOf(s, t, user, es);
    PlanHolds(s, t, user, es);
    HarmlessInserts(s, t, user, now, p.ins);
    HarmlessUpdates(s, Greedy(s, t, ToRows(p.ins, user, now)).rows, user, now, p.upd);
  }

  lemma {:induction false} GreedyTakesFirst(s: Schema, t: map<Key, Row>, user: UserId, now: Stamp, es: seq<Wire>,
                                            id: Id)
    requires InsertsSmooth(s, t, user, now, es)
    ensures var g, k := Greedy(s, t, ToRows(es, user, now)).rows, s.At(user, id);
      && (k in t ==> k in g && g[k] == t[k])
      && (k !in t ==> (k in g <==> FirstOf(es, id).Some?)
                      && (k in g ==> g[k] == WireToRow(FirstOf(es, id).value, user, now)))
  {
    if es != [] {
      var init, e := es[..|es| - 1], es[|es| - 1];
      assert es == init + [e];
      GreedyTakesFirst(s, t, user, now, init, id);
      GreedySnoc(s, t, user, now, init, e);
    }
  }

  /** An admitted update replaces the patched columns of its own user's row and nothing else. */
  lemma UpdateOneWrites(s: Schema, t: map<Key, Row>, user: UserId, now: Stamp, e: Wire)
    requires UpdateAdmitted(s, t, user, now, e)
    ensures var k, w := s.At(user, e.id), WireToRow(e, user, now);
      var u := UpdateOne(s, t, user, w).rows;
      u == if Existing(s, t, user, e.id).Some? then t[k := Patched(t[k], w)] else t
  {}

  lemma {:induction false} UpdateTakesLast(s: Schema, t: map<Key, Row>, user: UserId, now: Stamp, es: seq<Wire>, id: Id)
    requires UpdatesSmooth(s, t, user, now, es)
    ensures var u, k := UpdateAll(s, t, user, ToRows(es, user, now)).rows, s.At(user, id);
      && u.Keys == t.Keys
      && (k in t ==> u[k] == if LastOf(es, id).Some? && t[k].user == user
                             then Patched(t[k], WireToRow(LastOf(es, id).value, user, now)) else t[k])
  {
    if es != [] {
      var init, e := es[..|es| - 1], es[|es| - 1];
      assert es == init + [e];
      UpdateTakesLast(s, t, user, now, init, id);
      UpdateSnoc(s, t, user, now, init, e);
      UpdateOneWrites(s, UpdateAll(s, t, user, ToRows(init, user, now)).rows, user, now, e);
    }
  }

  /** What a batch stores under one id, repeated or not: for a new id its first
      mention, for a known id its last accepted one. */
  lemma BatchStores(s: Schema, t: map<Key, Row>, user: UserId, now: Stamp, es: seq<Wire>, id: Id)
    requires PhasesSmooth(s, t, user, now, es)
    ensures var r, k := ApplyBatch(s, t, user, now, es).rows, s.At(user, id);
      match Existing(s, t, user, id)
      case None =>
        if k in t then k in r && r[k] == t[k]
        else (k in r <==> FirstOf(es, id).Some?)
             && (k in r ==> r[k] == WireToRow(FirstOf(es, id).value, user, now))
      case Some(known) =>
        var last := LastOf(PlanOf(s, t, user, es).upd, id);
        k in r && r[k] == if last.Some? then Patched(known, WireToRow(last.value, user, now)) else known
  {
    var p := PlanOf(s, t, user, es);
    PlanHolds(s, t, user, es);
    if Existing(s, t, user, id).None? { PlanKeepsFirst(s, t, user, es, id); }
    GreedyTakesFirst(s, t, user, now, p.ins, id);
    FirstAndLastAreMembers(p.upd, id);
    UpdateTakesLast(s, Greedy(s, t, ToRows(p.ins, user, now)).rows, user, now, p.upd, id);
  }

  /** For a new id the first mention is the newest; for a known id the last mention
      newer than the table is the newest. */
  ghost predicate NewestIsKept(s: Schema, t: map<Key, Row>, user: UserId, es: seq<Wire>, id: Id) {
    var k := s.At(user, id);
    if k !in t then FirstOf(es, id).Some? ==> Newest(es, FirstOf(es, id).value)
    else if t[k].user != user then true
    else var last := LastOf(PlanOf(s, t, user, es).upd, id);
         last.Some? ==> Newest(es, last.value)
  }

  lemma NewestIsKeptNew(s: Schema, t: map<Key, Row>, user: UserId, now: Stamp, es: seq<Wire>, id: Id,
                        a: map<Key, Row>, b: map<Key, Row>)
    requires s.At(user, id) !in t && Stamped(es) && Coherent(es) && WonAt(s, t, user, now, es, b, s.At(user, id))
    requires s.At(user, id) in a <==> FirstOf(es, id).Some?
    requires s.At(user, id) in a ==> a[s.At(user, id)] == WireToRow(FirstOf(es, id).value, user, now)
    ensures var k := s.At(user, id);
      (k in a <==> k in b) && (NewestIsKept(s, t, user, es, id) <==> (k in a ==> a[k] == b[k]))
  {
    var k := s.At(user, id);
    FirstAndLastAreMembers(es, id);
    if e :| e in es && s.At(user, e.id) == k {
      assert Beats(s, t, user, e) && Mentions(es, id);
    }
  }

  lemma NewestIsKeptKnown(s: Schema, t: map<Key, Row>, user: UserId, now: Stamp, es: seq<Wire>, id: Id)
    requires Stamped(es) && Coherent(es) && PhasesSmooth(s, t, user, now, es) && Smooth(s, t, user, now, es)
    requires Existing(s, t, user, id).Some?
    requires WonAt(s, t, user, now, es, ApplyEach(s, t, user, now, es).rows, s.At(user, id))
    ensures var k, a, b := s.At(user, id), ApplyBatch(s, t, user, now, es).rows, ApplyEach(s, t, user, now, es).rows;
      (k in a <==> k in b) && (NewestIsKept(s, t, user, es, id) <==> (k in a ==> a[k] == b[k]))
  {
    var k, upd := s.At(user, id), PlanOf(s, t, user, es).upd;
    BatchStores(s, t, user, now, es, id);
    FirstAndLastAreMembers(upd, id);
    PlanHolds(s, t, user, es);
    assert forall e :: e in es && e.id == id && Beats(s, t, user, e) <==> e in upd && e.id == id by {
      forall i | 0 <= i < |es| ensures es[i].updatedAt.Some? {}
    }
    if e :| e in es && s.At(user, e.id) == k && Beats(s, t, user, e) {
      assert e in upd && Mentions(upd, id);
    }
  }

  lemma NewestIsKeptHere(s: Schema, t: map<Key, Row>, user: UserId, now: Stamp, es: seq<Wire>, id: Id)
    requires Stamped(es) && Coherent(es) && PhasesSmooth(s, t, user, now, es) && Smooth(s, t, user, now, es)
    ensures var k, a, b := s.At(user, id), ApplyBatch(s, t, user, now, es).rows, ApplyEach(s, t, user, now, es).rows;
      (k in a <==> k in b) && (NewestIsKept(s, t, user, es, id) <==> (k in a ==> a[k] == b[k]))
  {
    var k, b := s.At(user, id), ApplyEach(s, t, user, now, es).rows;
    EachWon(s, t, user, now, es);
    assert WonAt(s, t, user, now, es, b, k);
    if k in t && t[k].user == user {
      NewestIsKeptKnown(s, t, user, now, es, id);
    } else {
      BatchStores(s, t, user, now, es, id);
      if k !in t { NewestIsKeptNew(s, t, user, now, es, id, ApplyBatch(s, t, user, now, es).rows, b); }
    }
  }

  /** A batch that may repeat ids, and of which the constraint refuses nothing either way, agrees with its
      entries one at a time exactly when, under every id it names, the mention it keeps is the newest one. */
  lemma RepeatedIdsExactly(s: Schema, t: map<Key, Row>, user: UserId, now: Stamp, es: seq<Wire>)
    requires Stamped(es) && Coherent(es) && PhasesSmooth(s, t, user, now, es) && Smooth(s, t, user, now, es)
    ensures ApplyBatch(s, t, user, now, es).rows == ApplyEach(s, t, user, now, es).rows
      <==> NewestAreKept(s, t, user, es)
  {
    if NewestAreKept(s, t, user, es) {
      SameRows(s, t, user, now, es);
    } else {
      var id :| !NewestIsKept(s, t, user, es, id);
      NewestIsKeptHere(s, t, user, now, es, id);
    }
  }

  ghost predicate NewestAreKept(s: Schema, t: map<Key, Row>, user: UserId, es: seq<Wire>) {
    forall id :: NewestIsKept(s, t, user, es, id)
  }

  lemma SameRows(s: Schema, t: map<Key, Row>, user: UserId, now: Stamp, es: seq<Wire>)
    requires Stamped(es) && Coherent(es) && PhasesSmooth(s, t, user, now, es) && Smooth(s, t, user, now, es)
    requires NewestAreKept(s, t, user, es)
    ensures ApplyBatch(s, t, user, now, es).rows == ApplyEach(s, t, user, now, es).rows
  {
    var a, b := ApplyBatch(s, t, user, now, es).rows, ApplyEach(s, t, user, now, es).rows;
    forall k: Key ensures (k in a <==> k in b) && (k in a ==> a[k] == b[k]) {
      SameRow(s, t, user, now, es, k);
    }
  }

  lemma SameRow(s: Schema, t: map<Key, Row>, user: UserId, now: Stamp, es: seq<Wire>, k: Key)
    requires Stamped(es) && Coherent(es) && PhasesSmooth(s, t, user, now, es) && Smooth(s, t, user, now, es)
    requires NewestAreKept(s, t, user, es)
    ensures var a, b := ApplyBatch(s, t, user, now, es).rows, ApplyEach(s, t, user, now, es).rows;
      (k in a <==> k in b) && (k in a ==> a[k] == b[k])
  {
    if k == s.At(user, k.id) {
      assert NewestIsKept(s, t, user, es, k.id);
      NewestIsKeptHere(s, t, user, now, es, k.id);
    } else {
      OthersAgree(s, t, user, now, es, k);
    }
  }

  lemma OthersAgree(s: Schema, t: map<Key, Row>, user: UserId, now: Stamp, es: seq<Wire>, k: Key)
    requires k != s.At(user, k.id)
    ensures var a, b := ApplyBatch(s, t, user, now, es).rows, ApplyEach(s, t, user, now, es).rows;
      (k in a <==> k in b) && (k in a ==> a[k] == b[k])
  {
    BatchTouches(s, t, user, now, es);
    EachFrame(s, t, user, now, es, k);
    assert Agree(t, ApplyEach(s, t, user, now, es).rows, k);
  }

  /** A batch leaves alone every key that is not one of its user's. */
  lemma BatchTouches(s: Schema, t: map<Key, Row>, user: UserId, now: Stamp, es: seq<Wire>)
    ensures var r := ApplyBatch(s, t, user, now, es).rows;
      forall k: Key :: k != s.At(user, k.id) ==> (k in r <==> k in t) && (k in r ==> r[k] == t[k])
  {
    var p := PlanOf(s, t, user, es);
    OtherKeysStay(s, t, user, now, p.ins);
    OtherKeysStayUpdated(s, Greedy(s, t, ToRows(p.ins, user, now)).rows, user, now, p.upd);
  }

  lemma {:induction false} OtherKeysStay(s: Schema, t: map<Key, Row>, user: UserId, now: Stamp, es: seq<Wire>)
    ensures var g := Greedy(s, t, ToRows(es, user, now)).rows;
      forall k: Key :: k != s.At(user, k.id) ==> (k in g <==> k in t) && (k in g ==> g[k] == t[k])
  {
    if es != [] {
      assert es == es[..|es| - 1] + [es[|es| - 1]];
      OtherKeysStay(s, t, user, now, es[..|es| - 1]);
      GreedySnoc(s, t, user, now, es[..|es| - 1], es[|es| - 1]);
    }
  }

  lemma {:induction false} OtherKeysStayUpdated(s: Schema, t: map<Key, Row>, user: UserId, now: Stamp, es: seq<Wire>)
    ensures var u := UpdateAll(s, t, user, ToRows(es, user, now)).rows;
      forall k: Key :: k != s.At(user, k.id) ==> (k in u <==> k in t) && (k in u ==> u[k] == t[k])
  {
    if es != [] {
      assert es == es[..|es| - 1] + [es[|es| - 1]];
      OtherKeysStayUpdated(s, t, user, now, es[..|es| - 1]);
      UpdateSnoc(s, t, user, now, es[..|es| - 1], es[|es| - 1]);
    }
  }

  // ---- Inputs on which the simple statements fail ----

  const Plain := Body(None, "", 0, Some(60_000_000), None, None, None, "", false)

  function Note(id: Id, ms: int): Wire { Wire(id, Plain, Some(ms * 1000), None) }

  lemma PlanOfTwo(s: Schema, t: map<Key, Row>, user: UserId, a: Wire, b: Wire)
    ensures var p := PlanOf(s, t, user, [a, b]);
      match (Decide(s, t, user, a), Decide(s, t, user, b))
      case (Update, Update) => p == Plan([], [a, b], [])
      case (Update, Insert) => p == Plan([b], [a], [])
      case _ => true
  {
    assert [] + [a] == [a] && [] + [b] == [b] && [a] + [b] == [a, b];
    PlanSnoc(s, t, user, [], a);
    PlanSnoc(s, t, user, [a], b);
  }

  /** Two versions of one stored note in one batch, newest first: the older one is kept. */
  lemma OlderVersionWins()
    ensures var stored := map[Notes.At(7, 1) := WireToRow(Note(1, 1), 7, 0)];
      var r := ApplyBatch(Notes, stored, 7, 0, [Note(1, 3), Note(1, 2)]).rows;
      Notes.At(7, 1) in r && r[Notes.At(7, 1)].updatedAt == 2000
  {
    var es := [Note(1, 3), Note(1, 2)];
    var stored := map[Notes.At(7, 1) := WireToRow(Note(1, 1), 7, 0)];
    PlanOfTwo(Notes, stored, 7, Note(1, 3), Note(1, 2));
    HarmlessEntries(7, 0, es);
    HarmlessIsPhasesSmooth(Notes, stored, 7, 0, es);
    BatchStores(Notes, stored, 7, 0, es, 1);
  }

  function Timer(id: Id, start: int, end: Option<Stamp>, ms: int): Wire {
    Wire(id, Plain.(startAt := start, endAt := end), Some(ms * 1000), None)
  }

  const RunningTimer := Timer(1, 0, None, 1)
  const StopIt := Timer(1, 0, Some(50_000_000), 2)
  const StartNext := Timer(2, 50_000_000, None, 2)
  const WithTimer: map<Key, Row> := map[ClockEntries.At(7, 1) := WireToRow(RunningTimer, 7, 0)]

  lemma StartIsRefusedWhileRunning()
    ensures Single(ClockEntries, WithTimer, 7, 0, StartNext) == Result(WithTimer, Counts(0, 0, 0, [2]))
  {
    var k1, k2 := ClockEntries.At(7, 1), ClockEntries.At(7, 2);
    var both := WithTimer[k2 := WireToRow(StartNext, 7, 0)];
    assert k1 in both && k2 in both && Running(both[k1]) && Running(both[k2]) && both[k1].user == both[k2].user;
  }

  lemma StopDecided()
    ensures Decide(ClockEntries, WithTimer, 7, StopIt) == Update
    ensures Decide(ClockEntries, WithTimer, 7, StartNext) == Insert
  {}

  lemma StopPlanned()
    ensures PlanOf(ClockEntries, WithTimer, 7, [StopIt, StartNext]) == Plan([StartNext], [StopIt], [])
  {
    StopDecided();
    PlanOfTwo(ClockEntries, WithTimer, 7, StopIt, StartNext);
  }

  const TimerStopped: map<Key, Row> := map[ClockEntries.At(7, 1) := WireToRow(StopIt, 7, 0)]

  lemma StopSucceeds()
    ensures Single(ClockEntries, WithTimer, 7, 0, StopIt) == Result(TimerStopped, Counts(0, 1, 0, []))
  {
    var k := ClockEntries.At(7, 1);
    assert WithTimer[k := Patched(WithTimer[k], WireToRow(StopIt, 7, 0))] == TimerStopped;
  }

  lemma StartSucceeds()
    ensures Single(ClockEntries, TimerStopped, 7, 0, StartNext)
         == Result(TimerStopped[ClockEntries.At(7, 2) := WireToRow(StartNext, 7, 0)], Counts(1, 0, 0, []))
  {}

  lemma BatchOfTwo(t: map<Key, Row>, es: seq<Wire>, ins: Wire, upd: Wire)
    requires DistinctIds(es) && PlanOf(ClockEntries, t, 7, es) == Plan([ins], [upd], [])
    ensures var first := Single(ClockEntries, t, 7, 0, ins);
      var second, r := Single(ClockEntries, first.rows, 7, 0, upd), ApplyBatch(ClockEntries, t, 7, 0, es);
      && r.rows == second.rows && r.counts.errors == first.counts.errors + second.counts.errors
      && r.counts.inserted == first.counts.inserted + second.counts.inserted
      && r.counts.updated == first.counts.updated + second.counts.updated
      && r.counts.skipped == first.counts.skipped + second.counts.skipped
  {
    BatchIsInsertsFirst(ClockEntries, t, 7, 0, es);
    assert [ins] + [upd] + [] == [ins, upd];
    TwoByTwo(t, ins, upd);
  }

  /** One batch that stops the running timer and starts another, on clock_entries: the
      insert is tried first, meets the running timer and is refused. */
  lemma StopThenStartInOneBatch()
    ensures var r := ApplyBatch(ClockEntries, WithTimer, 7, 0, [StopIt, StartNext]);
      && r.rows == TimerStopped && r.counts.errors == [2]
      && r.counts.inserted == 0 && r.counts.updated == 1 && r.counts.skipped == 0
    ensures ClockEntries.At(7, 2) !in TimerStopped
  {
    StopPlanned();
    BatchOfTwo(WithTimer, [StopIt, StartNext], StartNext, StopIt);
    StartIsRefusedWhileRunning();
    StopSucceeds();
  }

  /** One request each, in the same order, both entries are stored. */
  lemma StopThenStartOneByOne()
    ensures var each := ApplyEach(ClockEntries, WithTimer, 7, 0, [StopIt, StartNext]);
      each.counts.errors == [] && ClockEntries.At(7, 2) in each.rows
  {
    TwoByTwo(WithTimer, StopIt, StartNext);
    StopSucceeds();
    StartSucceeds();
  }

  lemma TwoByTwo(t: map<Key, Row>, a: Wire, b: Wire)
    ensures var first := Single(ClockEntries, t, 7, 0, a);
      var second := Single(ClockEntries, first.rows, 7, 0, b);
      ApplyEach(ClockEntries, t, 7, 0, [a, b]) == Result(second.rows, Plus(first.counts, second.counts))
  {
    assert [] + [a] == [a] && [a] + [b] == [a, b];
    EachSnoc(ClockEntries, t, 7, 0, [], a);
    EachSnoc(ClockEntries, t, 7, 0, [a], b);
    var first := Single(ClockEntries, t, 7, 0, a);
    assert Plus(Counts(0, 0, 0, []), first.counts) == first.counts;
  }

  /** Two mentions of one new id in a batch: the first is inserted, the second refused on the key. */
  lemma NewTwice(s: Schema, t: map<Key, Row>, user: UserId, now: Stamp, a: Wire, b: Wire)
    requires a.id == b.id && s.At(user, a.id) !in t
    requires s.legal(t[s.At(user, a.id) := WireToRow(a, user, now)])
    ensures ApplyBatch(s, t, user, now, [a, b]).rows == t[s.At(user, a.id) := WireToRow(a, user, now)]
  {
    assert [] + [a] == [a] && [a] + [b] == [a, b];
    PlanSnoc(s, t, user, [], a);
    PlanSnoc(s, t, user, [a], b);
    GreedySnoc(s, t, user, now, [], a);
    GreedySnoc(s, t, user, now, [a], b);
    assert ToRows([], user, now) == [];
  }

  const Undated := Note(1, 0).(updatedAt := None)

  /** A second mention without a stamp can take back the first: the batch changes nothing, though its first
      entry alone would. */
  lemma UnstampedRepeatCancels()
    ensures var t := map[Notes.At(7, 1) := WireToRow(Undated, 7, 5)];
      var e := Undated.(body := Plain.(description := "x"));
      ApplyBatch(Notes, t, 7, 5, [e, Undated]).rows == t && !Idle(Notes, t, 7, 5, e)
  {
    var k, t := Notes.At(7, 1), map[Notes.At(7, 1) := WireToRow(Undated, 7, 5)];
    var e := Undated.(body := Plain.(description := "x"));
    assert Plain.description == "" && |"x"| == 1;
    PlanOfTwo(Notes, t, 7, e, Undated);
    assert [] + [e] == [e] && [e] + [Undated] == [e, Undated];
    UpdateSnoc(Notes, t, 7, 5, [], e);
    UpdateSnoc(Notes, t, 7, 5, [e], Undated);
    assert ToRows([], 7, 5) == [];
  }

  /** An entry without a stamp may carry a stored row back in time. */
  lemma UnstampedEntryGoesBack()
    ensures var t := map[Notes.At(7, 1) := WireToRow(Note(1, 9), 7, 0)];
      var e := Note(1, 0).(updatedAt := None);
      var r := ApplyBatch(Notes, t, 7, 5000, [e]).rows;
      Notes.At(7, 1) in r && r[Notes.At(7, 1)].updatedAt < t[Notes.At(7, 1)].updatedAt
  {
    var t := map[Notes.At(7, 1) := WireToRow(Note(1, 9), 7, 0)];
    SingleIsRequest(Notes, t, 7, 5000, Note(1, 0).(updatedAt := None));
  }

  ghost predicate GoesBack(t: map<Key, Row>, r: map<Key, Row>) {
    exists k :: k in t && k in r && r[k].updatedAt < t[k].updatedAt
  }

  /** An entry decided on snapshot `seen` and written to table `t`, which other requests may have changed in
      between. */
  function WrittenLater(s: Schema, seen: map<Key, Row>, t: map<Key, Row>, user: UserId, now: Stamp, e: Wire)
    : map<Key, Row>
  {
    match Decide(s, seen, user, e)
    case Insert => InsertOne(s, t, WireToRow(e, user, now)).rows
    case Update => UpdateOne(s, t, user, WireToRow(e, user, now)).rows
    case Skip => t
  }

  /** With requests overlapping, an entry, stamped or not, makes a stored row older if and only if it was taken
      for an update, its stamp is older than that of the row it now meets, and the constraint admits the write. */
  lemma OverlapGoesBackExactly(s: Schema, seen: map<Key, Row>, t: map<Key, Row>, user: UserId, now: Stamp, e: Wire)
    ensures GoesBack(t, WrittenLater(s, seen, t, user, now, e)) <==>
      && Decide(s, seen, user, e) == Update && Existing(s, t, user, e.id).Some?
      && WireToRow(e, user, now).updatedAt < t[s.At(user, e.id)].updatedAt
      && s.legal(t[s.At(user, e.id) := Patched(t[s.At(user, e.id)], WireToRow(e, user, now))])
  {
    var k, r := s.At(user, e.id), WrittenLater(s, seen, t, user, now, e);
    assert WireToRow(e, user, now).id == e.id;
    if k in t && k in r && r[k].updatedAt < t[k].updatedAt { assert GoesBack(t, r); }
  }

  /** An entry without a stamp that the server clock puts below the row it meets. */
  predicate CarriesBack(s: Schema, t: map<Key, Row>, user: UserId, now: Stamp, e: Wire) {
    match Existing(s, t, user, e.id)
    case None => false
    case Some(known) =>
      e.updatedAt.None? && now < known.updatedAt
      && s.legal(t[s.At(user, e.id) := Patched(known, WireToRow(e, user, now))])
  }

  /** In any table: one entry on its own makes a stored row older if and only if it carries it back. */
  lemma OneEntryGoesBackExactly(s: Schema, t: map<Key, Row>, user: UserId, now: Stamp, e: Wire)
    ensures GoesBack(t, ApplyBatch(s, t, user, now, [e]).rows) <==> CarriesBack(s, t, user, now, e)
  {
    SingleIsRequest(s, t, user, now, e);
    OverlapGoesBackExactly(s, t, t, user, now, e);
  }

  /** Version 2, decided against the stored version 1, is written over version 3. */
  lemma OlderVersionOverlaps()
    ensures var seen := map[Notes.At(7, 1) := WireToRow(Note(1, 1), 7, 0)];
      var t := map[Notes.At(7, 1) := WireToRow(Note(1, 3), 7, 0)];
      GoesBack(t, WrittenLater(Notes, seen, t, 7, 0, Note(1, 2)))
  {
    var seen := map[Notes.At(7, 1) := WireToRow(Note(1, 1), 7, 0)];
    var t := map[Notes.At(7, 1) := WireToRow(Note(1, 3), 7, 0)];
    OverlapGoesBackExactly(Notes, seen, t, 7, 0, Note(1, 2));
  }
}
