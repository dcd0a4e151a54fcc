/** The one running timer: "later start wins" (api/routes/sync.js `/active/start`, `/active/stop`). */
module Timer {
  import opened Rows
  import opened Tables
  import Paging

  datatype StartReq = StartReq(
    id: Id, start: Stamp,
    customer: Option<string>, description: string, taskId: Option<string>, contract: Option<string>,
    now: Stamp)

  datatype Reply = Existing(row: Row) | Incoming(row: Row) | Failed

  function StartRow(user: UserId, q: StartReq): Row {
    Row(user, q.id,
        Body(OrNull(q.customer), q.description, q.start, None, OrNull(q.taskId), None, OrNull(q.contract), "", false),
        q.now, None, None)
  }

  function At(id: Id): Key { Key(None, id) }

  ghost predicate Clock(t: map<Key, Row>) { TableOk(ClockEntries, t) }

  ghost predicate IsActive(t: map<Key, Row>, user: UserId, k: Key) {
    k in t && t[k].user == user && Running(t[k])
  }

  /** The running timer; `idx_one_active` leaves at most one. */
  ghost function Active(t: map<Key, Row>, user: UserId): (a: Option<Row>)
    ensures a.Some? ==> exists k :: IsActive(t, user, k) && t[k] == a.value
    ensures a.None? ==> forall k :: !IsActive(t, user, k)
  {
    if exists k :: IsActive(t, user, k) then var k :| IsActive(t, user, k); Some(t[k]) else None
  }

  lemma ActiveIs(t: map<Key, Row>, user: UserId, id: Id)
    requires Clock(t) && IsActive(t, user, At(id))
    ensures Active(t, user) == Some(t[At(id)])
  {}

  function Stopped(a: Row, end: Stamp, now: Stamp): Row {
    a.(body := a.body.(endAt := Some(end)), updatedAt := now)
  }

  /** Does the incoming start stand back for timer `a`? */
  predicate Keeps(a: Row, q: StartReq) { a.id == q.id || Ms(q.start) <= Ms(a.body.startAt) }

  datatype Outcome = Outcome(rows: map<Key, Row>, reply: Reply)

  function Insert(t: map<Key, Row>, user: UserId, q: StartReq): Outcome {
    var r := StartRow(user, q);
    var i := InsertOne(ClockEntries, t, r);
    Outcome(i.rows, if i.failed == [] then Incoming(r) else Failed)
  }

  ghost function StartOn(t: map<Key, Row>, user: UserId, q: StartReq): Outcome {
    match Active(t, user)
    case None => Insert(t, user, q)
    case Some(a) =>
      if Keeps(a, q) then Outcome(t, Existing(a))
      else Insert(t[At(a.id) := Stopped(a, q.start, q.now)], user, q)
  }

  ghost function StopOn(t: map<Key, Row>, user: UserId, id: Option<Id>, end: Option<Stamp>, now: Stamp): Outcome {
    match Active(t, user)
    case None => Outcome(t, Failed)
    case Some(a) =>
      if id.Some? && id.value != a.id then Outcome(t, Failed)
      else
        var r := Stopped(a, if end.Some? then end.value else now, now);
        Outcome(t[At(a.id) := r], Existing(r))
  }

  method FindActive(t: Table, user: UserId) returns (active: Option<Row>)
    requires t.Valid() && t.schema == ClockEntries
    ensures active == Active(t.rows, user)
  {
    if exists k :: k in t.rows && t.rows[k].user == user && Running(t.rows[k]) {
      var k :| k in t.rows && t.rows[k].user == user && Running(t.rows[k]);
      assert IsActive(t.rows, user, k);
      active := Some(t.rows[k]);
    } else {
      assert forall k :: !IsActive(t.rows, user, k);
      active := None;
    }
  }

  /** Setting the end of the running timer leaves a legal table without a running timer. */
  lemma StopLeavesNone(t: map<Key, Row>, user: UserId, end: Stamp, now: Stamp)
    requires Clock(t) && Active(t, user).Some?
    ensures var a := Active(t, user).value; var t' := t[At(a.id) := Stopped(a, end, now)];
      && IsActive(t, user, At(a.id)) && Clock(t') && Active(t', user) == None
      && Patched(a, Stopped(a, end, now)) == Stopped(a, end, now)
  {
    var a := Active(t, user).value;
    var k :| IsActive(t, user, k) && t[k] == a;
    assert k == At(a.id);
    var t' := t[k := Stopped(a, end, now)];
    assert forall l :: IsActive(t', user, l) ==> IsActive(t, user, l) && l != k;
  }

  /** Starting where nothing runs works exactly when the id is new. */
  lemma StartWhereNoneRuns(t: map<Key, Row>, user: UserId, q: StartReq)
    requires Clock(t) && Active(t, user) == None
    ensures var r, o := StartRow(user, q), Insert(t, user, q);
      && o == (if At(q.id) in t then Outcome(t, Failed) else Outcome(t[At(q.id) := r], Incoming(r)))
      && Clock(o.rows)
      && Active(o.rows, user) == if At(q.id) in t then None else Some(r)
  {
    var t' := t[At(q.id) := StartRow(user, q)];
    if At(q.id) !in t {
      forall k, l | k in t' && l in t' && Running(t'[k]) && Running(t'[l]) && t'[k].user == t'[l].user ensures k == l {
        assert !IsActive(t, user, k) && !IsActive(t, user, l);
      }
      assert IsActive(t', user, At(q.id));
      ActiveIs(t', user, q.id);
    }
  }

  method ActiveStart(t: Table, user: UserId, incoming: StartReq) returns (reply: Reply)
    requires t.Valid() && t.schema == ClockEntries
    modifies t
    ensures t.Valid()
    ensures Outcome(t.rows, reply) == StartOn(old(t.rows), user, incoming)
  {
    var active := FindActive(t, user);
    if active.Some? {
      var a := active.value;
      if a.id == incoming.id { return Existing(a); }
      if Ms(incoming.start) <= Ms(a.body.startAt) { return Existing(a); }
      StopLeavesNone(t.rows, user, incoming.start, incoming.now);
      var _ := t.Update(user, Stopped(a, incoming.start, incoming.now));
    }
    StartWhereNoneRuns(t.rows, user, incoming);
    var row := StartRow(user, incoming);
    SingleInsert(t.schema, t.rows, row);
    var ok := t.Insert([row]);
    reply := if ok then Incoming(row) else Failed;
  }

  method ActiveStop(t: Table, user: UserId, id: Option<Id>, end: Option<Stamp>, now: Stamp) returns (reply: Reply)
    requires t.Valid() && t.schema == ClockEntries
    modifies t
    ensures t.Valid()
    ensures Outcome(t.rows, reply) == StopOn(old(t.rows), user, id, end, now)
  {
    var endAt := if end.Some? then end.value else now;
    var active := FindActive(t, user);
    if active.None? || (id.Some? && id.value != active.value.id) { return Failed; }
    var a := active.value;
    StopLeavesNone(t.rows, user, endAt, now);
    var _ := t.Update(user, Stopped(a, endAt, now));
    reply := Existing(Stopped(a, endAt, now));
  }

  /** A start leaves the user without any timer exactly when its id is already taken, by
      something other than the running timer, and no running timer stands in its way. */
  lemma StartLeavesNoneExactly(t: map<Key, Row>, user: UserId, q: StartReq)
    requires Clock(t)
    ensures var o := StartOn(t, user, q);
      && Clock(o.rows)
      && (Active(o.rows, user) == None <==>
            At(q.id) in t && (Active(t, user).Some? ==> !Keeps(Active(t, user).value, q)))
      && (o.reply == Failed <==> Active(o.rows, user) == None)
  {
    match Active(t, user)
    case None => StartWhereNoneRuns(t, user, q);
    case Some(a) =>
      if !Keeps(a, q) {
        StopLeavesNone(t, user, q.start, q.now);
        StartWhereNoneRuns(t[At(a.id) := Stopped(a, q.start, q.now)], user, q);
      }
  }

  // ---- What the requests write ----

  /** Every row that `t'` does not share with `t` is the user's and stamped `now`. */
  ghost predicate ChangesAreStamped(t: map<Key, Row>, t': map<Key, Row>, user: UserId, now: Stamp) {
    forall k :: k in t' && !(k in t && t[k] == t'[k]) ==> t'[k].updatedAt == now && t'[k].user == user
  }

  /** Starting or stopping a timer drops no row and stamps every row it changes. */
  lemma TimersAreStamped(t: map<Key, Row>, user: UserId, q: StartReq, id: Option<Id>, end: Option<Stamp>, now: Stamp)
    ensures var o := StartOn(t, user, q); t.Keys <= o.rows.Keys || !Clock(t)
    ensures Clock(t) ==> ChangesAreStamped(t, StartOn(t, user, q).rows, user, q.now)
    ensures Clock(t) ==> ChangesAreStamped(t, StopOn(t, user, id, end, now).rows, user, now)
  {
    if Clock(t) && Active(t, user).Some? { StopLeavesNone(t, user, q.start, q.now); }
  }

  /** So a client that pulls from a cursor below `now` is served every row a start or a stop changed. */
  lemma ChangesArePulled(t: map<Key, Row>, t': map<Key, Row>, user: UserId, now: Stamp, cursor: Stamp)
    ensures ChangesAreStamped(t, t', user, now) && cursor < now ==>
      forall k :: k in t' && !(k in t && t[k] == t'[k]) ==> t'[k] in Paging.RowsAfter(t', user, cursor)
  {}

  /** A stop ends the running timer at the time asked for, or now; it keeps everything else of the entry. */
  lemma StopWrites(t: map<Key, Row>, user: UserId, id: Option<Id>, end: Option<Stamp>, now: Stamp)
    ensures Clock(t) ==> match (StopOn(t, user, id, end, now).reply, Active(t, user))
      case (Existing(r), Some(a)) =>
        && At(a.id) in StopOn(t, user, id, end, now).rows && StopOn(t, user, id, end, now).rows[At(a.id)] == r
        && (id.Some? ==> id.value == a.id) && r.body.endAt == Some(if end.Some? then end.value else now)
        && r.updatedAt == now && r.(body := r.body.(endAt := None), updatedAt := a.updatedAt) == a
      case (Failed, Some(a)) => id.Some? && id.value != a.id
      case (reply, _) => reply == Failed
  {
    if Clock(t) && Active(t, user).Some? { StopLeavesNone(t, user, now, now); }
  }

  /** An optional text of the request, as it is stored: an empty one as absent. */
  predicate StoresText(asked: Option<string>, stored: Option<string>) {
    stored == if asked == None || asked == Some("") then None else asked
  }

  /** A start that wins stores what was asked for, running and not deleted, and replies with it. */
  lemma StartWrites(t: map<Key, Row>, user: UserId, q: StartReq)
    ensures var o := StartOn(t, user, q); o.reply.Incoming? ==>
      && At(q.id) in o.rows && o.rows[At(q.id)] == o.reply.row
      && var r := o.reply.row;
         && r.user == user && r.id == q.id && r.body.startAt == q.start && r.body.description == q.description
         && StoresText(q.customer, r.body.customer) && StoresText(q.taskId, r.body.taskId)
         && StoresText(q.contract, r.body.contract) && r.body.project == None && r.body.notes == ""
         && !r.body.invoiced && r.body.endAt == None && r.deletedAt == None && r.syncedAt == None
  {}

  // ---- Runs of start requests ----

  ghost function Serve(t: map<Key, Row>, user: UserId, qs: seq<StartReq>): map<Key, Row> {
    if qs == [] then t else StartOn(Serve(t, user, qs[..|qs| - 1]), user, qs[|qs| - 1]).rows
  }

  /** The requests that start later than every request before them. */
  function Accepted(qs: seq<StartReq>): seq<StartReq> {
    if qs == [] then []
    else
      var acc, q := Accepted(qs[..|qs| - 1]), qs[|qs| - 1];
      if acc == [] || Ms(acc[|acc| - 1].start) < Ms(q.start) then acc + [q] else acc
  }

  predicate OwnIds(qs: seq<StartReq>) { forall i, j :: 0 <= i < j < |qs| ==> qs[i].id != qs[j].id }

  predicate FreshIds(t: map<Key, Row>, qs: seq<StartReq>) {
    && (forall i :: 0 <= i < |qs| ==> At(qs[i].id) !in t)
    && OwnIds(qs)
  }

  /** The entry that the i-th accepted request ends up as: closed where the next one starts. */
  function Link(user: UserId, acc: seq<StartReq>, i: nat): Row
    requires i < |acc|
  {
    if i == |acc| - 1 then StartRow(user, acc[i])
    else Stopped(StartRow(user, acc[i]), acc[i + 1].start, acc[i + 1].now)
  }

  ghost predicate Linked(t: map<Key, Row>, user: UserId, acc: seq<StartReq>) {
    forall i {:trigger Link(user, acc, i)} ::
      0 <= i < |acc| ==> At(acc[i].id) in t && t[At(acc[i].id)] == Link(user, acc, i)
  }

  /** `t` is `t0` and one entry per accepted request, linked end to start. */
  ghost predicate Chain(t0: map<Key, Row>, t: map<Key, Row>, user: UserId, acc: seq<StartReq>) {
    && (forall k :: k in t <==> k in t0 || exists i :: 0 <= i < |acc| && At(acc[i].id) == k)
    && (forall k :: k in t0 ==> k in t && t[k] == t0[k])
    && Linked(t, user, acc)
  }

  lemma {:induction false} AcceptedComeFrom(qs: seq<StartReq>)
    ensures forall q :: q in Accepted(qs) ==> q in qs
    ensures qs != [] ==> Accepted(qs) != [] && Accepted(qs)[0] == qs[0]
  {
    if qs != [] {
      AcceptedComeFrom(qs[..|qs| - 1]);
      assert qs == qs[..|qs| - 1] + [qs[|qs| - 1]];
    }
  }

  /** Request `i` is the greatest start, the first of its kind to arrive. */
  ghost predicate Latest(qs: seq<StartReq>, i: nat)
    requires i < |qs|
  {
    && (forall j :: 0 <= j < |qs| ==> Ms(qs[j].start) <= Ms(qs[i].start))
    && (forall j :: 0 <= j < i ==> Ms(qs[j].start) < Ms(qs[i].start))
  }

  lemma LatestStep(qs: seq<StartReq>, q: StartReq, i: nat)
    requires i < |qs| && Latest(qs, i)
    ensures Latest(qs + [q], if Ms(qs[i].start) < Ms(q.start) then |qs| else i)
  {}

  lemma AcceptedSnoc(qs: seq<StartReq>, q: StartReq)
    ensures var acc := Accepted(qs);
      Accepted(qs + [q]) == if acc == [] || Ms(acc[|acc| - 1].start) < Ms(q.start) then acc + [q] else acc
  {
    assert (qs + [q])[..|qs|] == qs;
  }

  /** Request `i` was accepted last. */
  predicate AcceptedLast(qs: seq<StartReq>, i: nat) {
    i < |qs| && Accepted(qs) != [] && Accepted(qs)[|Accepted(qs)| - 1] == qs[i]
  }

  lemma AcceptedLastStep(qs: seq<StartReq>, q: StartReq, i: nat)
    requires AcceptedLast(qs, i)
    ensures AcceptedLast(qs + [q], if Ms(qs[i].start) < Ms(q.start) then |qs| else i)
  {
    AcceptedSnoc(qs, q);
  }

  lemma FirstIsAccepted(q: StartReq)
    ensures AcceptedLast([q], 0) && Latest([q], 0)
  {
    AcceptedSnoc([], q);
    assert [] + [q] == [q];
  }

  /** The request accepted last is the latest. */
  lemma {:induction false} LastAcceptedIsLatest(qs: seq<StartReq>) returns (i: nat)
    requires qs != []
    ensures AcceptedLast(qs, i) && Latest(qs, i)
  {
    var q := qs[|qs| - 1];
    if |qs| == 1 {
      assert qs == [q];
      FirstIsAccepted(q);
      i := 0;
    } else {
      var init := qs[..|qs| - 1];
      assert qs == init + [q];
      var j := LastAcceptedIsLatest(init);
      AcceptedLastStep(init, q, j);
      LatestStep(init, q, j);
      i := if Ms(init[j].start) < Ms(q.start) then |init| else j;
    }
  }

  ghost predicate Ascending(acc: seq<StartReq>) {
    forall i, j :: 0 <= i < j < |acc| ==> Ms(acc[i].start) < Ms(acc[j].start)
  }

  lemma {:induction false} AcceptedAscend(qs: seq<StartReq>)
    ensures Ascending(Accepted(qs))
  {
    if qs != [] {
      AcceptedAscend(qs[..|qs| - 1]);
      var acc := Accepted(qs[..|qs| - 1]);
      assert acc != [] ==> forall i :: 0 <= i < |acc| - 1 ==> Ms(acc[i].start) < Ms(acc[|acc| - 1].start);
    }
  }

  /** The last link runs; nothing else of the user does. */
  lemma ChainRuns(t0: map<Key, Row>, t: map<Key, Row>, user: UserId, acc: seq<StartReq>)
    requires Clock(t) && Chain(t0, t, user, acc) && Active(t0, user) == None
    ensures Active(t, user) == if acc == [] then None else Some(StartRow(user, acc[|acc| - 1]))
  {
    if acc == [] {
      forall k ensures !IsActive(t, user, k) { assert !IsActive(t0, user, k); }
    } else {
      var id := acc[|acc| - 1].id;
      assert t[At(id)] == Link(user, acc, |acc| - 1);
      ActiveIs(t, user, id);
    }
  }

  lemma LinkedGrows(t: map<Key, Row>, user: UserId, acc: seq<StartReq>, q: StartReq, t': map<Key, Row>)
    requires Linked(t, user, acc) && At(q.id) !in t && OwnIds(acc)
    requires t' == (if acc == [] then t
                    else t[At(acc[|acc| - 1].id) := Stopped(StartRow(user, acc[|acc| - 1]), q.start, q.now)])
                   [At(q.id) := StartRow(user, q)]
    ensures Linked(t', user, acc + [q])
  {
    var acc' := acc + [q];
    forall i | 0 <= i < |acc'| ensures At(acc'[i].id) in t' && t'[At(acc'[i].id)] == Link(user, acc', i) {
      if i < |acc| { LinkAt(t, user, acc, i); }
    }
  }

  /** One more accepted request: the last link is closed and a new one hung on. */
  lemma ChainGrows(t0: map<Key, Row>, t: map<Key, Row>, user: UserId, acc: seq<StartReq>, q: StartReq,
                   t': map<Key, Row>)
    requires Chain(t0, t, user, acc) && At(q.id) !in t
    requires acc != [] ==> At(acc[|acc| - 1].id) !in t0
    requires OwnIds(acc)
    requires t' == (if acc == [] then t
                    else t[At(acc[|acc| - 1].id) := Stopped(StartRow(user, acc[|acc| - 1]), q.start, q.now)])
                   [At(q.id) := StartRow(user, q)]
    ensures Chain(t0, t', user, acc + [q])
  {
    var acc' := acc + [q];
    forall k ensures k in t' <==> k in t0 || exists i :: 0 <= i < |acc'| && At(acc'[i].id) == k {
      if i :| 0 <= i < |acc| && At(acc[i].id) == k { assert At(acc'[i].id) == k; }
      assert At(acc'[|acc|].id) == At(q.id);
    }
    LinkedGrows(t, user, acc, q, t');
  }

  lemma AcceptedHaveDistinctIds(qs: seq<StartReq>)
    requires OwnIds(qs)
    ensures OwnIds(Accepted(qs))
  {
    AcceptedComeFrom(qs);
    AcceptedAscend(qs);
    var acc := Accepted(qs);
    forall i, j | 0 <= i < j < |acc| ensures acc[i].id != acc[j].id {
      assert acc[i] in qs && acc[j] in qs;
    }
  }

  /** One more request on a chain. */
  lemma StartOnChain(t0: map<Key, Row>, t: map<Key, Row>, user: UserId, acc: seq<StartReq>, q: StartReq)
    requires Clock(t) && Chain(t0, t, user, acc) && Active(t0, user) == None
    requires At(q.id) !in t && forall i :: 0 <= i < |acc| ==> At(acc[i].id) !in t0
    requires OwnIds(acc)
    ensures var t' := StartOn(t, user, q).rows;
      Clock(t') && Chain(t0, t', user,
        if acc == [] || Ms(acc[|acc| - 1].start) < Ms(q.start) then acc + [q] else acc)
  {
    ChainRuns(t0, t, user, acc);
    if acc == [] {
      StartWhereNoneRuns(t, user, q);
      ChainGrows(t0, t, user, acc, q, StartOn(t, user, q).rows);
    } else {
      var a := acc[|acc| - 1];
      assert At(a.id) in t;
      if Ms(a.start) < Ms(q.start) {
        StopLeavesNone(t, user, q.start, q.now);
        StartWhereNoneRuns(t[At(a.id) := Stopped(StartRow(user, a), q.start, q.now)], user, q);
        ChainGrows(t0, t, user, acc, q, StartOn(t, user, q).rows);
      }
    }
  }

  lemma FreshForChain(t0: map<Key, Row>, t: map<Key, Row>, user: UserId, qs: seq<StartReq>, q: StartReq)
    requires FreshIds(t0, qs + [q]) && Chain(t0, t, user, Accepted(qs))
    ensures At(q.id) !in t
    ensures forall i :: 0 <= i < |Accepted(qs)| ==> At(Accepted(qs)[i].id) !in t0
    ensures OwnIds(Accepted(qs))
  {
    var acc, all := Accepted(qs), qs + [q];
    assert forall i :: 0 <= i < |qs| ==> all[i] == qs[i];
    AcceptedComeFrom(qs);
    AcceptedHaveDistinctIds(qs);
    forall i | 0 <= i < |acc| ensures At(acc[i].id) !in t0 && acc[i].id != q.id {
      assert acc[i] in qs;
      var j :| 0 <= j < |qs| && qs[j] == acc[i];
      assert all[j] == acc[i] && all[|qs|] == q;
    }
    assert all[|qs|] == q;
  }

  /** Any run of starts with fresh ids, from no running timer: one linked entry per accepted
      request, everything else untouched. */
  lemma {:induction false} RunIsChain(t0: map<Key, Row>, user: UserId, qs: seq<StartReq>)
    requires Clock(t0) && Active(t0, user) == None && FreshIds(t0, qs)
    ensures var t := Serve(t0, user, qs); Clock(t) && Chain(t0, t, user, Accepted(qs))
  {
    if qs != [] {
      var init, q := qs[..|qs| - 1], qs[|qs| - 1];
      assert qs == init + [q];
      RunIsChain(t0, user, init);
      var t, acc := Serve(t0, user, init), Accepted(init);
      FreshForChain(t0, t, user, init, q);
      StartOnChain(t0, t, user, acc, q);
    }
  }

  /** Later start wins: after any run the running timer is the one with the greatest start, the
      first to arrive among equals; requests of the run delivered again change nothing. */
  lemma LatestStartWins(t0: map<Key, Row>, user: UserId, qs: seq<StartReq>)
    requires Clock(t0) && Active(t0, user) == None && FreshIds(t0, qs) && qs != []
    ensures var t := Serve(t0, user, qs);
      exists i :: 0 <= i < |qs| && Active(t, user) == Some(StartRow(user, qs[i])) && Latest(qs, i)
        && (forall q :: q in qs ==> StartOn(t, user, q) == Outcome(t, Existing(StartRow(user, qs[i]))))
  {
    RunIsChain(t0, user, qs);
    var t, acc := Serve(t0, user, qs), Accepted(qs);
    ChainRuns(t0, t, user, acc);
    var i := LastAcceptedIsLatest(qs);
    forall q | q in qs ensures StartOn(t, user, q) == Outcome(t, Existing(StartRow(user, qs[i]))) {
      KeepsLatest(user, qs, i, q);
    }
  }

  lemma KeepsLatest(user: UserId, qs: seq<StartReq>, i: nat, q: StartReq)
    requires i < |qs| && Latest(qs, i) && q in qs
    ensures Keeps(StartRow(user, qs[i]), q)
  {}

  /** The winner does not depend on the order of arrival, save among starts of one millisecond. */
  lemma ArrivalOrderDoesNotMatter(t0: map<Key, Row>, user: UserId, ps: seq<StartReq>, qs: seq<StartReq>)
    requires Clock(t0) && Active(t0, user) == None && FreshIds(t0, ps) && FreshIds(t0, qs) && ps != []
    requires forall q :: q in ps <==> q in qs
    ensures var a, b := Active(Serve(t0, user, ps), user), Active(Serve(t0, user, qs), user);
      && a.Some? && b.Some? && Ms(a.value.body.startAt) == Ms(b.value.body.startAt)
      && ((forall p, q :: p in ps && q in ps && Ms(p.start) == Ms(q.start) ==> p == q) ==> a == b)
  {
    assert ps[0] in qs;
    LatestStartWins(t0, user, ps);
    LatestStartWins(t0, user, qs);
    assert forall i :: 0 <= i < |ps| ==> ps[i] in qs;
    assert forall i :: 0 <= i < |qs| ==> qs[i] in ps;
  }

  function Length(r: Row): int {
    if r.body.endAt.Some? then r.body.endAt.value - r.body.startAt else 0
  }

  /** The time booked by the entries of the first `n` accepted requests. */
  function Booked(t: map<Key, Row>, acc: seq<StartReq>, n: nat): int
    requires n <= |acc|
  {
    if n == 0 then 0
    else Booked(t, acc, n - 1) + if At(acc[n - 1].id) in t then Length(t[At(acc[n - 1].id)]) else 0
  }

  lemma LinkAt(t: map<Key, Row>, user: UserId, acc: seq<StartReq>, i: nat)
    requires Linked(t, user, acc) && i < |acc|
    ensures At(acc[i].id) in t && t[At(acc[i].id)] == Link(user, acc, i)
  {
    var _ := Link(user, acc, i);
  }

  lemma LinkLength(t: map<Key, Row>, user: UserId, acc: seq<StartReq>, i: nat)
    requires Linked(t, user, acc) && i + 1 < |acc|
    ensures At(acc[i].id) in t && Length(t[At(acc[i].id)]) == acc[i + 1].start - acc[i].start
  {
    LinkAt(t, user, acc, i);
  }

  lemma {:induction false} BookedTelescopes(t: map<Key, Row>, user: UserId, acc: seq<StartReq>, n: nat)
    requires Linked(t, user, acc) && n < |acc|
    ensures Booked(t, acc, n) == acc[n].start - acc[0].start
  {
    if n > 0 {
      BookedTelescopes(t, user, acc, n - 1);
      LinkLength(t, user, acc, n - 1);
    }
  }

  /** Entry `r` ended, after it started and not after `next`. */
  predicate EndsBy(r: Row, next: Stamp) {
    r.body.endAt.Some? && Ms(r.body.startAt) < Ms(r.body.endAt.value) <= Ms(next)
  }

  lemma LinksAreDisjoint(user: UserId, acc: seq<StartReq>, i: nat, j: nat)
    requires Ascending(acc) && i < j < |acc|
    ensures EndsBy(Link(user, acc, i), acc[j].start)
  {
    assert Ms(acc[i].start) < Ms(acc[i + 1].start);
    if i + 1 < j { assert Ms(acc[i + 1].start) < Ms(acc[j].start); }
  }

  /** The entries of a run: each but the last has positive length, ends where the next one starts
      and before any later one, and together they book the time from the run's first start to
      the running timer's start. */
  lemma RunBooksTheWholeTime(t0: map<Key, Row>, user: UserId, qs: seq<StartReq>)
    requires Clock(t0) && Active(t0, user) == None && FreshIds(t0, qs) && qs != []
    ensures var t, acc := Serve(t0, user, qs), Accepted(qs);
      && acc != [] && acc[0] == qs[0]
      && (forall i :: 0 <= i < |acc| ==> At(acc[i].id) in t && t[At(acc[i].id)].body.startAt == acc[i].start)
      && (forall i :: 0 <= i < |acc| - 1 ==> t[At(acc[i].id)].body.endAt == Some(acc[i + 1].start))
      && (forall i, j :: 0 <= i < j < |acc| ==> EndsBy(t[At(acc[i].id)], acc[j].start))
      && Booked(t, acc, |acc|) == acc[|acc| - 1].start - qs[0].start
  {
    RunIsChain(t0, user, qs);
    AcceptedComeFrom(qs);
    AcceptedAscend(qs);
    ChainBooks(Serve(t0, user, qs), user, Accepted(qs));
  }

  lemma ChainBooks(t: map<Key, Row>, user: UserId, acc: seq<StartReq>)
    requires Linked(t, user, acc) && Ascending(acc) && acc != []
    ensures forall i :: 0 <= i < |acc| ==> At(acc[i].id) in t && t[At(acc[i].id)].body.startAt == acc[i].start
    ensures forall i :: 0 <= i < |acc| - 1 ==> t[At(acc[i].id)].body.endAt == Some(acc[i + 1].start)
    ensures forall i, j :: 0 <= i < j < |acc| ==> EndsBy(t[At(acc[i].id)], acc[j].start)
    ensures Booked(t, acc, |acc|) == acc[|acc| - 1].start - acc[0].start
  {
    forall i | 0 <= i < |acc|
      ensures At(acc[i].id) in t && t[At(acc[i].id)] == Link(user, acc, i)
    {
      LinkAt(t, user, acc, i);
    }
    forall i, j | 0 <= i < j < |acc| ensures EndsBy(t[At(acc[i].id)], acc[j].start) {
      LinksAreDisjoint(user, acc, i, j);
    }
    BookedTelescopes(t, user, acc, |acc| - 1);
    assert Length(Link(user, acc, |acc| - 1)) == 0;
  }
}
