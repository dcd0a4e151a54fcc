/** Apply requests delivered more than once: when last-writer-wins makes at-least-once exactly-once. */
module Redelivery {
  import opened Rows
  import opened Tables
  import opened Apply
  import opened Batches
  import opened Lww
  import Duplicates
  import TimerBatches

  /** One queued apply request; `ticket` is the UUID it is queued under. */
  datatype Request = Request(ticket: nat, user: UserId, entries: seq<Wire>)

  /** A request reaching the server, at what the server's clock then reads. */
  datatype Delivery = Delivery(request: Request, now: Stamp)

  // ---- The server under repeated requests ----

  function Served(s: Schema, t: map<Key, Row>, d: Delivery): map<Key, Row> {
    ApplyBatch(s, t, d.request.user, d.now, d.request.entries).rows
  }

  /** The store after a trace of deliveries. */
  function Serve(s: Schema, t: map<Key, Row>, trace: seq<Delivery>): map<Key, Row> {
    if trace == [] then t else Served(s, Serve(s, t, trace[..|trace| - 1]), trace[|trace| - 1])
  }

  lemma ServeSnoc(s: Schema, t: map<Key, Row>, trace: seq<Delivery>, d: Delivery)
    ensures Serve(s, t, trace + [d]) == Served(s, Serve(s, t, trace), d)
  {
    assert (trace + [d])[..|trace|] == trace;
  }

  lemma ServeUpTo(s: Schema, t: map<Key, Row>, trace: seq<Delivery>, n: nat)
    requires 0 < n <= |trace|
    ensures Serve(s, t, trace[..n]) == Served(s, Serve(s, t, trace[..n - 1]), trace[n - 1])
  {
    assert trace[..n] == trace[..n - 1] + [trace[n - 1]];
    ServeSnoc(s, t, trace[..n - 1], trace[n - 1]);
  }

  function Requests(trace: seq<Delivery>): seq<Request> {
    seq(|trace|, i requires 0 <= i < |trace| => trace[i].request)
  }

  /** Each request once, at its first application. */
  function Firsts(trace: seq<Delivery>): seq<Delivery> {
    if trace == [] then []
    else
      var init, d := trace[..|trace| - 1], trace[|trace| - 1];
      if d.request in Requests(init) then Firsts(init) else Firsts(init) + [d]
  }

  lemma FirstsSnoc(trace: seq<Delivery>, d: Delivery)
    ensures Firsts(trace + [d]) == if d.request in Requests(trace) then Firsts(trace) else Firsts(trace) + [d]
  {
    assert (trace + [d])[..|trace|] == trace;
  }

  predicate AllDistinctIds(trace: seq<Delivery>) {
    forall i :: 0 <= i < |trace| ==> DistinctIds(trace[i].request.entries)
  }

  predicate AllRepeatsStamped(trace: seq<Delivery>) {
    forall i :: 0 <= i < |trace| ==> StampedRepeats(trace[i].request.entries)
  }

  predicate AllStamped(trace: seq<Delivery>) {
    forall i :: 0 <= i < |trace| ==> Stamped(trace[i].request.entries)
  }

  /** No entry of the request would change the table. */
  predicate EntriesIdle(s: Schema, t: map<Key, Row>, d: Delivery) {
    forall e | e in d.request.entries :: Idle(s, t, d.request.user, d.now, e)
  }

  /** Delivery `n`, if it is not the first of its request, finds none of its entries able to change the store. */
  ghost predicate RepeatIsIdle(s: Schema, t: map<Key, Row>, trace: seq<Delivery>, n: nat)
    requires n < |trace|
  {
    trace[n].request in Requests(trace[..n]) ==> EntriesIdle(s, Serve(s, t, trace[..n]), trace[n])
  }

  ghost predicate RepeatsAreIdle(s: Schema, t: map<Key, Row>, trace: seq<Delivery>) {
    forall n :: 0 <= n < |trace| ==> RepeatIsIdle(s, t, trace, n)
  }

  /** After `n` deliveries the store is that of the requests so far, each at its first application. */
  ghost predicate OnceSoFar(s: Schema, t: map<Key, Row>, trace: seq<Delivery>, n: nat)
    requires n <= |trace|
  {
    Serve(s, t, trace[..n]) == Serve(s, t, Firsts(trace[..n]))
  }

  /** The store after a repeat is that before it, and the store after a first delivery is known. */
  lemma OneMoreDelivery(s: Schema, t: map<Key, Row>, trace: seq<Delivery>, n: nat)
    requires n < |trace| && OnceSoFar(s, t, trace, n)
    ensures var m := Serve(s, t, trace[..n]);
      OnceSoFar(s, t, trace, n + 1) <==> trace[n].request !in Requests(trace[..n]) || Served(s, m, trace[n]) == m
  {
    var before, d := trace[..n], trace[n];
    assert trace[..n + 1] == before + [d];
    ServeSnoc(s, t, before, d);
    FirstsSnoc(before, d);
    if d.request !in Requests(before) { ServeSnoc(s, t, Firsts(before), d); }
  }

  lemma IdleRepeat(s: Schema, t: map<Key, Row>, trace: seq<Delivery>, n: nat)
    requires n < |trace| && OnceSoFar(s, t, trace, n) && RepeatIsIdle(s, t, trace, n)
    ensures OnceSoFar(s, t, trace, n + 1)
  {
    var m, d := Serve(s, t, trace[..n]), trace[n];
    OneMoreDelivery(s, t, trace, n);
    if d.request in Requests(trace[..n]) { IdleEntriesAreIdle(s, m, d.request.user, d.now, d.request.entries); }
  }

  lemma BusyRepeat(s: Schema, t: map<Key, Row>, trace: seq<Delivery>, n: nat)
    requires n < |trace| && AllRepeatsStamped(trace) && OnceSoFar(s, t, trace, n) && !RepeatIsIdle(s, t, trace, n)
    ensures !OnceSoFar(s, t, trace, n + 1)
  {
    var m, d := Serve(s, t, trace[..n]), trace[n];
    OneMoreDelivery(s, t, trace, n);
    BatchIsIdleExactly(s, m, d.request.user, d.now, d.request.entries);
  }

  /** For any constraint, with or without stamps, ids repeated or not: at every moment of a trace the store
      is that of each request once, at its first application, if and only if every repeat finds each of its
      entries stale, refused or stored already. */
  lemma RepeatsAreInvisibleExactly(s: Schema, t: map<Key, Row>, trace: seq<Delivery>)
    requires AllRepeatsStamped(trace)
    ensures (forall n :: 0 <= n <= |trace| ==> OnceSoFar(s, t, trace, n)) <==> RepeatsAreIdle(s, t, trace)
  {
    if RepeatsAreIdle(s, t, trace) {
      forall n | 0 <= n <= |trace| ensures OnceSoFar(s, t, trace, n) { OnceUpTo(s, t, trace, n); }
    } else {
      var n :| 0 <= n < |trace| && !RepeatIsIdle(s, t, trace, n);
      if OnceSoFar(s, t, trace, n) { BusyRepeat(s, t, trace, n); }
    }
  }

  /** Idle repeats are invisible, whatever the requests hold. */
  lemma {:induction false} OnceUpTo(s: Schema, t: map<Key, Row>, trace: seq<Delivery>, n: nat)
    requires n <= |trace| && RepeatsAreIdle(s, t, trace)
    ensures OnceSoFar(s, t, trace, n)
  {
    if n > 0 {
      OnceUpTo(s, t, trace, n - 1);
      assert RepeatIsIdle(s, t, trace, n - 1);
      IdleRepeat(s, t, trace, n - 1);
    } else {
      assert trace[..0] == [];
    }
  }

  // ---- Where nothing is refused ----

  /** The constraint refuses no entry of any delivery. */
  ghost predicate SmoothTrace(s: Schema, t: map<Key, Row>, trace: seq<Delivery>) {
    forall n :: 0 <= n < |trace| ==> SmoothAt(s, t, trace, n)
  }

  ghost predicate SmoothAt(s: Schema, t: map<Key, Row>, trace: seq<Delivery>, n: nat)
    requires n < |trace|
  {
    SmoothDelivery(s, Serve(s, t, trace[..n]), trace[n])
  }

  ghost predicate SmoothDelivery(s: Schema, t: map<Key, Row>, d: Delivery) {
    SmoothBatch(s, t, d.request.user, d.now, d.request.entries)
  }

  /** The table already holds each of these entries in this version or a newer one. */
  ghost predicate Absorbed(s: Schema, t: map<Key, Row>, r: Request) {
    forall e :: e in r.entries ==> !Beats(s, t, r.user, e)
  }

  lemma AbsorbedAfterwards(s: Schema, t: map<Key, Row>, d: Delivery)
    requires Stamped(d.request.entries) && DistinctIds(d.request.entries) && SmoothDelivery(s, t, d)
    ensures Won(s, t, d.request.user, d.now, d.request.entries, Served(s, t, d))
    ensures Absorbed(s, Served(s, t, d), d.request)
  {
    var user, es, t' := d.request.user, d.request.entries, Served(s, t, d);
    BatchWon(s, t, user, d.now, es);
    forall e | e in es ensures !Beats(s, t', user, e) {
      assert WonAt(s, t, user, d.now, es, t', s.At(user, e.id));
      WonAbsorbs(s, t, user, d.now, es, t', e);
    }
  }

  lemma WonAbsorbs(s: Schema, t: map<Key, Row>, user: UserId, now: Stamp, es: seq<Wire>, t': map<Key, Row>, e: Wire)
    requires e in es && Stamped(es) && WonAt(s, t, user, now, es, t', s.At(user, e.id))
    ensures !Beats(s, t', user, e)
  {
    assert forall i :: 0 <= i < |es| ==> es[i].updatedAt.Some?;
  }

  /** Other deliveries, of any user's requests, only make the table newer. */
  lemma StaysAbsorbed(s: Schema, t: map<Key, Row>, r: Request, d: Delivery)
    requires Stamped(d.request.entries) && DistinctIds(d.request.entries) && SmoothDelivery(s, t, d)
    requires Absorbed(s, t, r)
    ensures Absorbed(s, Served(s, t, d), r)
  {
    var es, t' := d.request.entries, Served(s, t, d);
    AbsorbedAfterwards(s, t, d);
    assert forall i :: 0 <= i < |es| ==> es[i].updatedAt.Some?;
    forall e | e in r.entries ensures !Beats(s, t', r.user, e) {
      assert WonAt(s, t, d.request.user, d.now, es, t', s.At(r.user, e.id));
    }
  }

  lemma AbsorbedStep(s: Schema, t: map<Key, Row>, r: Request, d: Delivery)
    requires Stamped(d.request.entries) && DistinctIds(d.request.entries) && SmoothDelivery(s, t, d)
    requires r == d.request || Absorbed(s, t, r)
    ensures Absorbed(s, Served(s, t, d), r)
  {
    if r == d.request { AbsorbedAfterwards(s, t, d); } else { StaysAbsorbed(s, t, r, d); }
  }

  lemma {:induction false} EarlierRequestIsAbsorbed(s: Schema, t: map<Key, Row>, trace: seq<Delivery>, n: nat, i: nat)
    requires i < n <= |trace| && AllStamped(trace) && AllDistinctIds(trace) && SmoothTrace(s, t, trace)
    ensures Absorbed(s, Serve(s, t, trace[..n]), trace[i].request)
  {
    if i < n - 1 { EarlierRequestIsAbsorbed(s, t, trace, n - 1, i); }
    assert SmoothAt(s, t, trace, n - 1);
    AbsorbedStep(s, Serve(s, t, trace[..n - 1]), trace[i].request, trace[n - 1]);
    ServeUpTo(s, t, trace, n);
  }

  lemma AbsorbedIsIdle(s: Schema, t: map<Key, Row>, d: Delivery)
    requires Stamped(d.request.entries) && Absorbed(s, t, d.request)
    ensures EntriesIdle(s, t, d)
  {
    var es := d.request.entries;
    assert forall i :: 0 <= i < |es| ==> es[i].updatedAt.Some?;
  }

  /** Stamped requests the constraint never refuses an entry of, delivered again, any number of times and
      with anything in between, change nothing: the store is that of each request once, at its first application. */
  lemma AtLeastOnceIsExactlyOnce(s: Schema, t: map<Key, Row>, trace: seq<Delivery>)
    requires AllStamped(trace) && AllDistinctIds(trace) && SmoothTrace(s, t, trace)
    ensures RepeatsAreIdle(s, t, trace) && Serve(s, t, trace) == Serve(s, t, Firsts(trace))
  {
    forall n | 0 <= n < |trace| ensures RepeatIsIdle(s, t, trace, n) {
      if trace[n].request in Requests(trace[..n]) {
        var i :| 0 <= i < n && trace[i].request == trace[n].request;
        EarlierRequestIsAbsorbed(s, t, trace, n, i);
        AbsorbedIsIdle(s, Serve(s, t, trace[..n]), trace[n]);
      }
    }
    OnceUpTo(s, t, trace, |trace|);
    assert OnceSoFar(s, t, trace, |trace|) && trace[..|trace|] == trace;
  }

  // ---- Where something is refused, or not stamped ----

  lemma {:induction false} ServeStaysOk(s: Schema, t: map<Key, Row>, trace: seq<Delivery>)
    requires SubsetClosed(s) && TableOk(s, t)
    ensures TableOk(s, Serve(s, t, trace))
  {
    if trace != [] {
      var init, d := trace[..|trace| - 1], trace[|trace| - 1];
      ServeStaysOk(s, t, init);
      ApplyAccounts(s, Serve(s, t, init), d.request.user, d.now, d.request.entries);
    }
  }

  ghost predicate RepeatIsBlocked(t: map<Key, Row>, trace: seq<Delivery>, n: nat)
    requires n < |trace|
  {
    var r := trace[n].request;
    r in Requests(trace[..n]) ==>
      forall e :: e in r.entries ==> TimerBatches.Blocked(Serve(ClockEntries, t, trace[..n]), r.user, e)
  }

  /** On clock_entries, with stamped requests, timers included: at every moment the store is that of each
      request once if and only if every entry of every repeat is stale, under another user's key, or starts
      a timer while one runs. */
  lemma RepeatedTimersExactly(t: map<Key, Row>, trace: seq<Delivery>)
    requires TableOk(ClockEntries, t) && AllStamped(trace)
    ensures (forall n :: 0 <= n <= |trace| ==> OnceSoFar(ClockEntries, t, trace, n))
      <==> forall n :: 0 <= n < |trace| ==> RepeatIsBlocked(t, trace, n)
  {
    BothSchemasSubsetClosed();
    RepeatsAreInvisibleExactly(ClockEntries, t, trace);
    forall n | 0 <= n < |trace| ensures RepeatIsIdle(ClockEntries, t, trace, n) <==> RepeatIsBlocked(t, trace, n) {
      ServeStaysOk(ClockEntries, t, trace[..n]);
      DeliveryIsBlocked(Serve(ClockEntries, t, trace[..n]), trace[n]);
    }
  }

  lemma DeliveryIsBlocked(t: map<Key, Row>, d: Delivery)
    requires TableOk(ClockEntries, t) && Stamped(d.request.entries)
    ensures EntriesIdle(ClockEntries, t, d)
      <==> forall e :: e in d.request.entries ==> TimerBatches.Blocked(t, d.request.user, e)
  {
    var es := d.request.entries;
    assert forall i :: 0 <= i < |es| ==> es[i].updatedAt.Some?;
    forall e | e in es
      ensures Idle(ClockEntries, t, d.request.user, d.now, e) <==> TimerBatches.Blocked(t, d.request.user, e)
    {
      TimerBatches.BlockedIsIdle(t, d.request.user, d.now, e);
    }
  }

  const StartIt := Delivery(Request(1, 7, [Duplicates.StartNext]), 0)
  const EndIt := Delivery(Request(2, 7, [Duplicates.StopIt]), 0)

  /** A start refused while another timer runs is accepted when it is delivered again after that timer
      was stopped. */
  lemma RefusedThenAccepted()
    ensures var t, k := Duplicates.WithTimer, ClockEntries.At(7, 2);
      && k in Serve(ClockEntries, t, [StartIt, EndIt, StartIt])
      && k !in Serve(ClockEntries, t, Firsts([StartIt, EndIt, StartIt]))
  {
    var t := Duplicates.WithTimer;
    Duplicates.StartIsRefusedWhileRunning();
    Duplicates.StopSucceeds();
    Duplicates.StartSucceeds();
    SingleIsRequest(ClockEntries, t, 7, 0, Duplicates.StartNext);
    SingleIsRequest(ClockEntries, t, 7, 0, Duplicates.StopIt);
    SingleIsRequest(ClockEntries, Duplicates.TimerStopped, 7, 0, Duplicates.StartNext);
    ServeThree(ClockEntries, t, StartIt, EndIt);
    assert StartIt.request.ticket != EndIt.request.ticket;
    FirstsOfThree(StartIt, EndIt);
  }

  lemma ServeThree(s: Schema, t: map<Key, Row>, a: Delivery, b: Delivery)
    ensures var x := Served(s, t, a);
      var y := Served(s, x, b);
      Serve(s, t, [a]) == x && Serve(s, t, [a, b]) == y && Serve(s, t, [a, b, a]) == Served(s, y, a)
  {
    assert [] + [a] == [a] && [a] + [b] == [a, b] && [a, b] + [a] == [a, b, a];
    ServeSnoc(s, t, [], a);
    ServeSnoc(s, t, [a], b);
    ServeSnoc(s, t, [a, b], a);
  }

  lemma FirstsOfThree(a: Delivery, b: Delivery)
    requires a.request != b.request
    ensures Firsts([a, b, a]) == [a, b]
  {
    assert [] + [a] == [a] && [a] + [b] == [a, b] && [a, b] + [a] == [a, b, a];
    FirstsSnoc([], a);
    FirstsSnoc([a], b);
    FirstsSnoc([a, b], a);
    assert Requests([a, b])[0] == a.request;
  }

  lemma ServeTwo(s: Schema, t: map<Key, Row>, a: Delivery, b: Delivery)
    ensures Serve(s, t, [a, b]) == Served(s, Served(s, t, a), b)
  {
    assert [] + [a] == [a] && [a] + [b] == [a, b];
    ServeSnoc(s, t, [], a);
    ServeSnoc(s, t, [a], b);
  }

  const Versions := Request(1, 7, [Duplicates.Note(1, 2), Duplicates.Note(1, 3)])

  /** The first delivery stores version 2 and is refused version 3 on the key ... */
  lemma OlderVersionFirst()
    ensures Served(Notes, map[], Delivery(Versions, 0))
         == map[Notes.At(7, 1) := WireToRow(Duplicates.Note(1, 2), 7, 0)]
  {
    var a, b := Duplicates.Note(1, 2), Duplicates.Note(1, 3);
    Duplicates.NewTwice(Notes, map[], 7, 0, a, b);
  }

  /** A request delivered twice, where the second delivery is not idle. */
  lemma TwiceIsNotOnce(s: Schema, t: map<Key, Row>, d: Delivery)
    requires StampedRepeats(d.request.entries) && !EntriesIdle(s, Served(s, t, d), d)
    ensures Serve(s, t, [d, d]) != Serve(s, t, Firsts([d, d]))
  {
    ServeTwo(s, t, d, d);
    FirstsOfTwo(d, d);
    assert [] + [d] == [d];
    ServeSnoc(s, t, [], d);
    BatchIsIdleExactly(s, Served(s, t, d), d.request.user, d.now, d.request.entries);
  }

  /** ... and the second delivery of two versions of one new note writes version 3. */
  lemma RepeatedIdLandsTwice()
    ensures var twice := [Delivery(Versions, 0), Delivery(Versions, 0)];
      Serve(Notes, map[], twice) != Serve(Notes, map[], Firsts(twice))
  {
    var b, one := Duplicates.Note(1, 3), map[Notes.At(7, 1) := WireToRow(Duplicates.Note(1, 2), 7, 0)];
    OlderVersionFirst();
    assert b in Versions.entries && !Idle(Notes, one, 7, 0, b);
    TwiceIsNotOnce(Notes, map[], Delivery(Versions, 0));
  }

  lemma FirstsOfOne(a: Delivery)
    ensures Firsts([a]) == [a]
  {
    FirstsSnoc([], a);
    assert [] + [a] == [a] && Firsts([]) == [];
  }

  lemma FirstsOfTwo(a: Delivery, b: Delivery)
    requires a.request == b.request
    ensures Firsts([a, b]) == [a]
  {
    FirstsOfOne(a);
    FirstsSnoc([a], b);
    assert Requests([a])[0] == b.request;
    assert [a] + [b] == [a, b];
  }

  const Unstamped := Duplicates.Note(1, 0).(updatedAt := None)

  /** A note without a stamp, delivered twice, is stamped anew by the second delivery. */
  lemma UnstampedIsRestamped()
    ensures var r := Request(1, 7, [Unstamped]);
      var twice := [Delivery(r, 1), Delivery(r, 2)];
      Serve(Notes, map[], twice) != Serve(Notes, map[], Firsts(twice))
  {
    var r := Request(1, 7, [Unstamped]);
    var k, one := Notes.At(7, 1), map[Notes.At(7, 1) := WireToRow(Unstamped, 7, 1)];
    SingleIsRequest(Notes, map[], 7, 1, Unstamped);
    SingleIsRequest(Notes, one, 7, 2, Unstamped);
    ServeThree(Notes, map[], Delivery(r, 1), Delivery(r, 2));
    FirstsOfTwo(Delivery(r, 1), Delivery(r, 2));
    assert Single(Notes, one, 7, 2, Unstamped).rows[k].updatedAt == 2;
  }
}
