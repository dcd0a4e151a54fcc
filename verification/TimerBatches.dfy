/** Running timers inside a batch (POST /sync/apply on clock_entries): inserts are written before updates,
    so an entry that starts a timer can meet the one that its own batch stops. */
module TimerBatches {
  import opened Rows
  import opened Tables
  import opened Apply
  import opened Batches
  import opened Lww
  import Timer

  predicate Runs(e: Wire) { e.body.endAt.None? && e.deletedAt.None? }

  ghost predicate Runner(t: map<Key, Row>, user: UserId, e: Wire) { Timer.IsActive(t, user, Timer.At(e.id)) }

  /** The entry wants to start a timer that does not run in `t`, and only `idx_one_active` may refuse it. */
  ghost predicate Opens(t: map<Key, Row>, user: UserId, e: Wire) {
    && Runs(e) && !Runner(t, user, e)
    && match Decide(ClockEntries, t, user, e)
       case Insert => Timer.At(e.id) !in t
       case Update => true
       case Skip => false
  }

  /** The entry stops the timer that runs in `t`. */
  ghost predicate Closes(t: map<Key, Row>, user: UserId, e: Wire) {
    !Runs(e) && Runner(t, user, e) && Decide(ClockEntries, t, user, e) == Update
  }

  ghost function ActiveId(t: map<Key, Row>, user: UserId): Option<Id> {
    match Timer.Active(t, user) case None => None case Some(a) => Some(a.id)
  }

  lemma ActiveIdIs(t: map<Key, Row>, user: UserId, id: Id)
    requires Timer.Clock(t)
    ensures ActiveId(t, user) == Some(id) <==> Timer.IsActive(t, user, Timer.At(id))
  {}

  lemma NoneActive(t: map<Key, Row>, user: UserId)
    ensures ActiveId(t, user) == None <==> forall k :: !Timer.IsActive(t, user, k)
  {}

  /** Whose timer runs after the entries, one at a time. */
  ghost function Slot(t: map<Key, Row>, user: UserId, es: seq<Wire>): Option<Id> {
    if es == [] then ActiveId(t, user)
    else
      var s, e := Slot(t, user, es[..|es| - 1]), es[|es| - 1];
      if Closes(t, user, e) then None else if Opens(t, user, e) && s.None? then Some(e.id) else s
  }

  /** An entry that gets written, if the timer that runs in the end is `slot`. */
  ghost predicate Goes(t: map<Key, Row>, user: UserId, slot: Option<Id>, e: Wire) {
    && (match Decide(ClockEntries, t, user, e)
        case Insert => Timer.At(e.id) !in t
        case Update => true
        case Skip => false)
    && (Opens(t, user, e) ==> slot == Some(e.id))
  }

  /** `m` is `t` with exactly the entries written that go. */
  ghost predicate Stored(t: map<Key, Row>, user: UserId, now: Stamp, es: seq<Wire>, slot: Option<Id>,
                         m: map<Key, Row>) {
    && (forall e :: e in es && Goes(t, user, slot, e) ==>
          Timer.At(e.id) in m && m[Timer.At(e.id)] == Written(ClockEntries, t, user, now, e))
    && (forall k :: (forall e :: e in es && Timer.At(e.id) == k ==> !Goes(t, user, slot, e)) ==> Agree(t, m, k))
  }

  lemma {:induction false} StillRunning(t: map<Key, Row>, user: UserId, es: seq<Wire>)
    requires forall e :: e in es ==> !Closes(t, user, e)
    ensures ActiveId(t, user).Some? ==> Slot(t, user, es) == ActiveId(t, user)
  {
    if es != [] {
      assert es == es[..|es| - 1] + [es[|es| - 1]];
      StillRunning(t, user, es[..|es| - 1]);
    }
  }

  /** One entry on a table `m` that holds its key as `t` does. */
  lemma SingleStores(t: map<Key, Row>, m: map<Key, Row>, user: UserId, now: Stamp, e: Wire)
    requires Timer.Clock(m) && Agree(t, m, Timer.At(e.id))
    ensures var s, r := ActiveId(m, user), Single(ClockEntries, m, user, now, e).rows;
      r == if Goes(t, user, if s.None? then Some(e.id) else None, e)
           then m[Timer.At(e.id) := Written(ClockEntries, t, user, now, e)] else m
  {
    var k := Timer.At(e.id);
    NoneActive(m, user);
    assert Timer.IsActive(m, user, k) <==> Timer.IsActive(t, user, k);
    var m' := m[k := Written(ClockEntries, t, user, now, e)];
    if Opens(t, user, e) && ActiveId(m, user).Some? {
      var l :| Timer.IsActive(m, user, l);
      assert l in m' && k in m' && Running(m'[l]) && Running(m'[k]) && l != k;
    } else if Goes(t, user, if ActiveId(m, user).None? then Some(e.id) else None, e) {
      assert Runs(e) && !Runner(t, user, e) ==> Opens(t, user, e);
      StaysLegal(m, user, k, Written(ClockEntries, t, user, now, e));
    }
  }

  lemma StaysLegal(m: map<Key, Row>, user: UserId, k: Key, r: Row)
    requires OneActive(m) && r.user == user
    requires Running(r) ==> Timer.IsActive(m, user, k) || forall l :: !Timer.IsActive(m, user, l)
    ensures OneActive(m[k := r])
  {
    var m' := m[k := r];
    forall a, b | a in m' && b in m' && Running(m'[a]) && Running(m'[b]) && m'[a].user == m'[b].user ensures a == b {
      if a != k && b == k {
        assert Timer.IsActive(m, user, a);
      } else if a == k && b != k {
        assert Timer.IsActive(m, user, b);
      }
    }
  }

  lemma SameActive(m: map<Key, Row>, m': map<Key, Row>, user: UserId)
    requires Timer.Clock(m) && Timer.Clock(m')
    requires forall k :: Timer.IsActive(m', user, k) <==> Timer.IsActive(m, user, k)
    ensures ActiveId(m', user) == ActiveId(m, user)
  {
    NoneActive(m, user);
    NoneActive(m', user);
    if ActiveId(m, user).Some? {
      ActiveIdIs(m, user, ActiveId(m, user).value);
      ActiveIdIs(m', user, ActiveId(m, user).value);
    }
  }

  /** The timer that runs after one entry. */
  lemma SlotStep(t: map<Key, Row>, m: map<Key, Row>, user: UserId, now: Stamp, e: Wire, m': map<Key, Row>)
    requires Timer.Clock(m) && Timer.Clock(m') && Agree(t, m, Timer.At(e.id))
    requires m' == if Goes(t, user, if ActiveId(m, user).None? then Some(e.id) else None, e)
                   then m[Timer.At(e.id) := Written(ClockEntries, t, user, now, e)] else m
    ensures var s := ActiveId(m, user);
      ActiveId(m', user) ==
        if Closes(t, user, e) then None else if Opens(t, user, e) && s.None? then Some(e.id) else s
    ensures Closes(t, user, e) ==> ActiveId(m, user) == Some(e.id)
  {
    var k := Timer.At(e.id);
    ActiveIdIs(m, user, e.id);
    ActiveIdIs(m', user, e.id);
    NoneActive(m', user);
    NoneActive(m, user);
    if Closes(t, user, e) {
      assert forall l :: Timer.IsActive(m, user, l) ==> l == k;
      assert forall l :: Timer.IsActive(m', user, l) ==> Timer.IsActive(m, user, l) && l != k;
    } else if Opens(t, user, e) {
      assert ActiveId(m, user).None? ==> Timer.IsActive(m', user, k);
    } else {
      forall l ensures Timer.IsActive(m', user, l) <==> Timer.IsActive(m, user, l) {}
      SameActive(m, m', user);
    }
  }

  /** An entry goes with the timer that runs before another entry exactly when it goes with the
      timer that runs after it. */
  lemma GoesStays(t: map<Key, Row>, user: UserId, init: seq<Wire>, e: Wire, f: Wire)
    requires DistinctIds(init) && !Mentions(init, e.id) && f in init
    requires Timer.Clock(t)
    ensures Goes(t, user, Slot(t, user, init + [e]), f) <==> Goes(t, user, Slot(t, user, init), f)
  {
    assert (init + [e])[..|init|] == init;
    if Opens(t, user, f) && Closes(t, user, e) {
      ActiveIdIs(t, user, e.id);
      forall g | g in init ensures !Closes(t, user, g) { ActiveIdIs(t, user, g.id); }
      StillRunning(t, user, init);
    }
  }

  /** One at a time, on clock_entries: exactly the entries that go are written, and an entry that
      starts a timer goes if it is the one that runs in the end. */
  lemma {:induction false} EachStores(t: map<Key, Row>, user: UserId, now: Stamp, es: seq<Wire>)
    requires Timer.Clock(t) && DistinctIds(es)
    ensures var m, slot := ApplyEach(ClockEntries, t, user, now, es).rows, Slot(t, user, es);
      Timer.Clock(m) && ActiveId(m, user) == slot && Stored(t, user, now, es, slot, m)
  {
    if es != [] {
      var init, e := es[..|es| - 1], es[|es| - 1];
      assert es == init + [e];
      DistinctInit(es);
      EachStores(t, user, now, init);
      EachSnoc(ClockEntries, t, user, now, init, e);
      var m := ApplyEach(ClockEntries, t, user, now, init).rows;
      var m' := ApplyEach(ClockEntries, t, user, now, es).rows;
      assert Agree(t, m, Timer.At(e.id));
      SingleStores(t, m, user, now, e);
      SingleStaysOk(ClockEntries, m, user, now, e);
      SlotStep(t, m, user, now, e, m');
      forall f | f in init ensures Goes(t, user, Slot(t, user, init), f) <==> Goes(t, user, Slot(t, user, es), f) {
        GoesStays(t, user, init, e, f);
      }
      StoredStep(t, m, m', user, now, init, e, Slot(t, user, init), Slot(t, user, es));
    }
  }

  /** The same entries go with either timer. */
  ghost predicate GoAlike(t: map<Key, Row>, user: UserId, es: seq<Wire>, a: Option<Id>, b: Option<Id>) {
    forall e :: e in es ==> (Goes(t, user, a, e) <==> Goes(t, user, b, e))
  }

  lemma StoredStep(t: map<Key, Row>, m: map<Key, Row>, m': map<Key, Row>, user: UserId, now: Stamp, init: seq<Wire>,
                   e: Wire, slot: Option<Id>, slot': Option<Id>)
    requires !Mentions(init, e.id) && Stored(t, user, now, init, slot, m) && GoAlike(t, user, init, slot, slot')
    requires m' == if Goes(t, user, slot', e) then m[Timer.At(e.id) := Written(ClockEntries, t, user, now, e)] else m
    ensures Stored(t, user, now, init + [e], slot', m')
  {
    var es := init + [e];
    assert forall f :: f in es <==> f in init || f == e;
    assert e in es;
    forall k | forall f :: f in es && Timer.At(f.id) == k ==> !Goes(t, user, slot', f) ensures Agree(t, m', k) {
      assert forall f :: f in init && Timer.At(f.id) == k ==> !Goes(t, user, slot, f);
      assert Agree(t, m, k);
    }
  }

  // ---- The batch against its entries one at a time ----

  ghost function FirstOpen(t: map<Key, Row>, user: UserId, es: seq<Wire>): Option<Wire> {
    if es == [] then None
    else
      var f := FirstOpen(t, user, es[..|es| - 1]);
      if f.None? && Opens(t, user, es[|es| - 1]) then Some(es[|es| - 1]) else f
  }

  function IdOf(f: Option<Wire>): Option<Id> { match f case None => None case Some(e) => Some(e.id) }

  ghost predicate NoClose(t: map<Key, Row>, user: UserId, es: seq<Wire>) { forall e :: e in es ==> !Closes(t, user, e) }

  /** Once no timer runs, the first entry that starts one has it. */
  lemma {:induction false} SlotFrom(t: map<Key, Row>, user: UserId, x: seq<Wire>, y: seq<Wire>)
    requires Slot(t, user, x) == None && NoClose(t, user, y)
    ensures Slot(t, user, x + y) == IdOf(FirstOpen(t, user, y))
  {
    if y == [] {
      assert x + y == x;
    } else {
      var init, e := y[..|y| - 1], y[|y| - 1];
      assert y == init + [e];
      SlotFrom(t, user, x, init);
      assert (x + y)[..|x + y| - 1] == x + init && (x + y)[|x + y| - 1] == e;
    }
  }

  lemma SlotAfterClose(t: map<Key, Row>, user: UserId, x: seq<Wire>, c: Wire, y: seq<Wire>)
    requires Closes(t, user, c) && NoClose(t, user, y)
    ensures Slot(t, user, x + [c] + y) == IdOf(FirstOpen(t, user, y))
  {
    assert (x + [c])[..|x|] == x;
    SlotFrom(t, user, x + [c], y);
  }

  lemma {:induction false} FirstOpenConcat(t: map<Key, Row>, user: UserId, a: seq<Wire>, b: seq<Wire>)
    ensures FirstOpen(t, user, a + b) ==
      if FirstOpen(t, user, a).Some? then FirstOpen(t, user, a) else FirstOpen(t, user, b)
  {
    if b == [] {
      assert a + b == a;
    } else {
      assert (a + b)[..|a + b| - 1] == a + b[..|b| - 1] && (a + b)[|a + b| - 1] == b[|b| - 1];
      FirstOpenConcat(t, user, a, b[..|b| - 1]);
    }
  }

  lemma {:induction false} FirstOpenIsMember(t: map<Key, Row>, user: UserId, es: seq<Wire>)
    ensures match FirstOpen(t, user, es)
      case None => forall e :: e in es ==> !Opens(t, user, e)
      case Some(f) => f in es && Opens(t, user, f)
  {
    if es != [] {
      assert es == es[..|es| - 1] + [es[|es| - 1]];
      FirstOpenIsMember(t, user, es[..|es| - 1]);
    }
  }

  /** The first start of a batch is the first of its own kind, new or known id. */
  lemma {:induction false} FirstOpenInPlan(t: map<Key, Row>, user: UserId, es: seq<Wire>)
    ensures FirstOpenIn(t, user, PlanOf(ClockEntries, t, user, es), FirstOpen(t, user, es))
  {
    if es != [] {
      var init, e := es[..|es| - 1], es[|es| - 1];
      FirstOpenInPlan(t, user, init);
      FirstOpenInSnoc(t, user, PlanOf(ClockEntries, t, user, init), FirstOpen(t, user, init), e);
    }
  }

  ghost predicate FirstOpenIn(t: map<Key, Row>, user: UserId, p: Plan, f: Option<Wire>) {
    match f
    case None => FirstOpen(t, user, p.ins) == None && FirstOpen(t, user, p.upd) == None
    case Some(e) =>
      if Decide(ClockEntries, t, user, e) == Insert then FirstOpen(t, user, p.ins) == f
      else FirstOpen(t, user, p.upd) == f
  }

  lemma FirstOpenInSnoc(t: map<Key, Row>, user: UserId, p: Plan, f: Option<Wire>, e: Wire)
    requires FirstOpenIn(t, user, p, f)
    ensures FirstOpenIn(t, user, match Decide(ClockEntries, t, user, e)
        case Insert => p.(ins := p.ins + [e])
        case Update => p.(upd := p.upd + [e])
        case Skip => p.(skip := p.skip + [e]),
      if f.None? && Opens(t, user, e) then Some(e) else f)
  {
    FirstOpenSnoc(t, user, p.ins, e);
    FirstOpenSnoc(t, user, p.upd, e);
  }

  lemma FirstOpenSnoc(t: map<Key, Row>, user: UserId, es: seq<Wire>, e: Wire)
    ensures FirstOpen(t, user, es + [e]) ==
      if FirstOpen(t, user, es).None? && Opens(t, user, e) then Some(e) else FirstOpen(t, user, es)
  {
    assert (es + [e])[..|es|] == es;
  }

  lemma {:induction false} PlanConcat(s: Schema, t: map<Key, Row>, user: UserId, a: seq<Wire>, b: seq<Wire>)
    ensures var p, q, r := PlanOf(s, t, user, a), PlanOf(s, t, user, b), PlanOf(s, t, user, a + b);
      r == Plan(p.ins + q.ins, p.upd + q.upd, p.skip + q.skip)
  {
    if b == [] {
      assert a + b == a;
      var p := PlanOf(s, t, user, a);
      assert p.ins + [] == p.ins && p.upd + [] == p.upd && p.skip + [] == p.skip;
    } else {
      assert (a + b)[..|a + b| - 1] == a + b[..|b| - 1] && (a + b)[|a + b| - 1] == b[|b| - 1];
      PlanConcat(s, t, user, a, b[..|b| - 1]);
    }
  }

  /** The same entries with the same timer at the end leave the same table. */
  lemma SlotDecides(t: map<Key, Row>, user: UserId, now: Stamp, es: seq<Wire>, fs: seq<Wire>)
    requires Timer.Clock(t) && DistinctIds(es) && DistinctIds(fs) && forall e :: e in es <==> e in fs
    ensures ApplyEach(ClockEntries, t, user, now, es).rows == ApplyEach(ClockEntries, t, user, now, fs).rows
      <==> Slot(t, user, es) == Slot(t, user, fs)
  {
    EachStores(t, user, now, es);
    EachStores(t, user, now, fs);
    if Slot(t, user, es) == Slot(t, user, fs) {
      StoredIsUnique(t, user, now, es, fs, Slot(t, user, es),
                     ApplyEach(ClockEntries, t, user, now, es).rows, ApplyEach(ClockEntries, t, user, now, fs).rows);
    }
  }

  lemma StoredIsUnique(t: map<Key, Row>, user: UserId, now: Stamp, es: seq<Wire>, fs: seq<Wire>, slot: Option<Id>,
                       a: map<Key, Row>, b: map<Key, Row>)
    requires forall e :: e in es <==> e in fs
    requires Stored(t, user, now, es, slot, a) && Stored(t, user, now, fs, slot, b)
    ensures a == b
  {
    forall k: Key ensures (k in a <==> k in b) && (k in a && k in b ==> a[k] == b[k]) {
      if e :| e in es && Timer.At(e.id) == k && Goes(t, user, slot, e) {
        assert e in fs;
      } else {
        assert Agree(t, a, k) && Agree(t, b, k);
      }
    }
  }

  /** The order of writing inserts before updates does not show. With no timer running in `t`: the first
      entry that starts one has a new id, unless none with a new id does. With a timer running that the
      batch stops: the first entry after the stop that starts one, if any, has a known id. */
  ghost predicate OrderDoesNotShow(t: map<Key, Row>, user: UserId, es: seq<Wire>) {
    && (ActiveId(t, user) == None ==>
          match FirstOpen(t, user, es)
          case None => true
          case Some(f) => Decide(ClockEntries, t, user, f) == Insert
                          || forall e :: e in es && Opens(t, user, e) ==> Decide(ClockEntries, t, user, e) == Update)
    && (forall i :: 0 <= i < |es| && Closes(t, user, es[i]) ==> StopThenKnown(t, user, es, i))
  }

  ghost predicate StopThenKnown(t: map<Key, Row>, user: UserId, es: seq<Wire>, i: nat)
    requires i < |es|
  {
    match FirstOpen(t, user, es[i + 1..])
    case None => true
    case Some(f) => Decide(ClockEntries, t, user, f) == Update
  }

  lemma SkippedNeverOpens(t: map<Key, Row>, user: UserId, es: seq<Wire>)
    requires AllDecided(ClockEntries, t, user, es, Skip)
    ensures FirstOpen(t, user, es) == None
  {
    FirstOpenIsMember(t, user, es);
  }

  lemma SlotWhereNoneRuns(t: map<Key, Row>, user: UserId, es: seq<Wire>)
    requires ActiveId(t, user) == None
    ensures Slot(t, user, es) == IdOf(FirstOpen(t, user, es))
  {
    NoneActive(t, user);
    assert [] + es == es;
    SlotFrom(t, user, [], es);
  }

  lemma FirstOpenWritten(t: map<Key, Row>, user: UserId, es: seq<Wire>)
    requires DistinctIds(es)
    ensures var p := PlanOf(ClockEntries, t, user, es);
      FirstOpen(t, user, WriteOrder(ClockEntries, t, user, es)) ==
        if FirstOpen(t, user, p.ins).Some? then FirstOpen(t, user, p.ins) else FirstOpen(t, user, p.upd)
  {
    var p := PlanOf(ClockEntries, t, user, es);
    PlanSplits(ClockEntries, t, user, es);
    FirstOpenConcat(t, user, p.ins + p.upd, p.skip);
    FirstOpenConcat(t, user, p.ins, p.upd);
    SkippedNeverOpens(t, user, p.skip);
  }

  /** Whether an entry with a new id starts a timer. */
  lemma FirstInsertOpens(t: map<Key, Row>, user: UserId, es: seq<Wire>)
    requires DistinctIds(es)
    ensures FirstOpen(t, user, PlanOf(ClockEntries, t, user, es).ins) == None
      <==> forall e :: e in es && Opens(t, user, e) ==> Decide(ClockEntries, t, user, e) == Update
  {
    var p := PlanOf(ClockEntries, t, user, es);
    PlanSplits(ClockEntries, t, user, es);
    PlanHolds(ClockEntries, t, user, es);
    FirstOpenIsMember(t, user, p.ins);
  }

  lemma OrderWhereNoneRuns(t: map<Key, Row>, user: UserId, es: seq<Wire>)
    requires DistinctIds(es) && ActiveId(t, user) == None
    ensures Slot(t, user, es) == Slot(t, user, WriteOrder(ClockEntries, t, user, es))
      <==> OrderDoesNotShow(t, user, es)
  {
    var p := PlanOf(ClockEntries, t, user, es);
    NoneActive(t, user);
    SlotWhereNoneRuns(t, user, es);
    SlotWhereNoneRuns(t, user, WriteOrder(ClockEntries, t, user, es));
    FirstOpenWritten(t, user, es);
    FirstInsertOpens(t, user, es);
    FirstOpenInPlan(t, user, es);
    FirstOpenIsMember(t, user, es);
    PlanSplits(ClockEntries, t, user, es);
    FirstOpenIsMember(t, user, p.ins);
    NewIdsAreNotKnown(t, user, p.ins, es);
  }

  /** An entry decided as an insert and one decided as an update have different ids. */
  lemma NewIdsAreNotKnown(t: map<Key, Row>, user: UserId, ins: seq<Wire>, es: seq<Wire>)
    requires AllDecided(ClockEntries, t, user, ins, Insert)
    ensures forall e, f :: e in ins && f in es && Decide(ClockEntries, t, user, f) == Update ==> e.id != f.id
  {}

  /** Written inserts first, a timer runs after the batch if a known id starts one after the stop. */
  lemma SlotOfReordered(t: map<Key, Row>, user: UserId, x: seq<Wire>, c: Wire, y: seq<Wire>)
    requires DistinctIds(x + [c] + y) && Closes(t, user, c) && NoClose(t, user, y)
    ensures Slot(t, user, WriteOrder(ClockEntries, t, user, x + [c] + y))
         == IdOf(FirstOpen(t, user, PlanOf(ClockEntries, t, user, y).upd))
  {
    var px, py := PlanOf(ClockEntries, t, user, x).upd, PlanOf(ClockEntries, t, user, y).upd;
    var p := PlanOf(ClockEntries, t, user, x + [c] + y);
    PlanWithStop(t, user, x, c, y);
    PlanSplits(ClockEntries, t, user, x + [c] + y);
    PlanHolds(ClockEntries, t, user, y);
    SlotOfParts(t, user, p.ins, px, c, py, p.skip);
  }

  lemma SlotOfParts(t: map<Key, Row>, user: UserId, ins: seq<Wire>, before: seq<Wire>, c: Wire, after: seq<Wire>,
                    skip: seq<Wire>)
    requires Closes(t, user, c) && NoClose(t, user, after) && AllDecided(ClockEntries, t, user, skip, Skip)
    ensures Slot(t, user, ins + (before + [c] + after) + skip) == IdOf(FirstOpen(t, user, after))
  {
    SlotAfterClose(t, user, ins + before, c, after + skip);
    assert ins + (before + [c] + after) + skip == (ins + before) + [c] + (after + skip);
    FirstOpenConcat(t, user, after, skip);
    SkippedNeverOpens(t, user, skip);
  }

  lemma OrderWhereOneStops(t: map<Key, Row>, user: UserId, x: seq<Wire>, c: Wire, y: seq<Wire>)
    requires DistinctIds(x + [c] + y) && Closes(t, user, c) && NoClose(t, user, y)
    ensures var es := x + [c] + y;
      Slot(t, user, es) == Slot(t, user, WriteOrder(ClockEntries, t, user, es)) <==> StopThenKnown(t, user, es, |x|)
  {
    assert (x + [c] + y)[|x| + 1..] == y;
    SlotAfterClose(t, user, x, c, y);
    SlotOfReordered(t, user, x, c, y);
    FirstOpenInPlan(t, user, y);
    FirstOpenIsMember(t, user, y);
    FirstOpenIsMember(t, user, PlanOf(ClockEntries, t, user, y).upd);
    PlanHolds(ClockEntries, t, user, y);
  }

  lemma PlanWithStop(t: map<Key, Row>, user: UserId, x: seq<Wire>, c: Wire, y: seq<Wire>)
    requires Decide(ClockEntries, t, user, c) == Update
    ensures PlanOf(ClockEntries, t, user, x + [c] + y).upd ==
      PlanOf(ClockEntries, t, user, x).upd + [c] + PlanOf(ClockEntries, t, user, y).upd
  {
    PlanConcat(ClockEntries, t, user, x + [c], y);
    assert (x + [c])[..|x|] == x;
  }

  /** On clock_entries, a batch with distinct ids leaves the table its entries leave one at a time,
      in batch order, exactly when the order of writing does not show in which timer runs. */
  lemma BatchIsSinglesExactly(t: map<Key, Row>, user: UserId, now: Stamp, es: seq<Wire>)
    requires Timer.Clock(t) && DistinctIds(es)
    ensures ApplyBatch(ClockEntries, t, user, now, es).rows == ApplyEach(ClockEntries, t, user, now, es).rows
      <==> OrderDoesNotShow(t, user, es)
  {
    BatchIsInsertsFirst(ClockEntries, t, user, now, es);
    WriteOrderIsTheBatch(ClockEntries, t, user, es);
    SlotDecides(t, user, now, es, WriteOrder(ClockEntries, t, user, es));
    OrderShowsInSlot(t, user, es);
  }

  lemma OrderShowsInSlot(t: map<Key, Row>, user: UserId, es: seq<Wire>)
    requires Timer.Clock(t) && DistinctIds(es)
    ensures Slot(t, user, es) == Slot(t, user, WriteOrder(ClockEntries, t, user, es)) <==> OrderDoesNotShow(t, user, es)
  {
    if ActiveId(t, user) == None {
      OrderWhereNoneRuns(t, user, es);
    } else if i :| 0 <= i < |es| && Closes(t, user, es[i]) {
      OnlyOneStops(t, user, es, i);
      OrderWhereOneStops(t, user, es[..i], es[i], es[i + 1..]);
      assert es[..i] + [es[i]] + es[i + 1..] == es;
    } else {
      WriteOrderIsTheBatch(ClockEntries, t, user, es);
      assert forall e :: e in es ==> !Closes(t, user, e);
      StillRunning(t, user, es);
      StillRunning(t, user, WriteOrder(ClockEntries, t, user, es));
    }
  }

  lemma OnlyOneStops(t: map<Key, Row>, user: UserId, es: seq<Wire>, i: nat)
    requires Timer.Clock(t) && DistinctIds(es) && i < |es| && Closes(t, user, es[i])
    ensures forall j :: 0 <= j < |es| && j != i ==> !Closes(t, user, es[j])
    ensures NoClose(t, user, es[..i]) && NoClose(t, user, es[i + 1..])
    ensures ActiveId(t, user) != None
  {
    ActiveIdIs(t, user, es[i].id);
    forall j | 0 <= j < |es| && j != i ensures !Closes(t, user, es[j]) {
      ActiveIdIs(t, user, es[j].id);
    }
  }

  // ---- Batches that change nothing ----

  /** A stale entry, an entry under another user's key, or the start of a timer while one runs. */
  ghost predicate Blocked(t: map<Key, Row>, user: UserId, e: Wire) {
    match Decide(ClockEntries, t, user, e)
    case Skip => true
    case Insert => Timer.At(e.id) in t || (Runs(e) && ActiveId(t, user).Some?)
    case Update => Runs(e) && !Runner(t, user, e) && ActiveId(t, user).Some?
  }

  /** A stamped entry changes nothing on its own if and only if it is blocked. */
  lemma BlockedIsIdle(t: map<Key, Row>, user: UserId, now: Stamp, e: Wire)
    requires Timer.Clock(t) && e.updatedAt.Some?
    ensures Idle(ClockEntries, t, user, now, e) <==> Blocked(t, user, e)
  {
    var k, slot := Timer.At(e.id), if ActiveId(t, user).None? then Some(e.id) else None;
    SingleIsIdleExactly(ClockEntries, t, user, now, e);
    SingleStores(t, t, user, now, e);
    ActiveIdIs(t, user, e.id);
    assert Goes(t, user, slot, e) <==> !Blocked(t, user, e);
    if Goes(t, user, slot, e) && k in t {
      assert Written(ClockEntries, t, user, now, e).updatedAt != t[k].updatedAt;
      assert t[k := Written(ClockEntries, t, user, now, e)][k] != t[k];
    }
  }

  /** On clock_entries a batch, new or delivered again, changes nothing if and only if each of its entries
      is blocked. */
  lemma BatchIsIdleExactly(t: map<Key, Row>, user: UserId, now: Stamp, es: seq<Wire>)
    requires Timer.Clock(t) && Stamped(es)
    ensures ApplyBatch(ClockEntries, t, user, now, es).rows == t <==> forall e :: e in es ==> Blocked(t, user, e)
  {
    Batches.BatchIsIdleExactly(ClockEntries, t, user, now, es);
    forall e | e in es ensures Idle(ClockEntries, t, user, now, e) <==> Blocked(t, user, e) {
      assert forall i :: 0 <= i < |es| ==> es[i].updatedAt.Some?;
      BlockedIsIdle(t, user, now, e);
    }
  }
}
