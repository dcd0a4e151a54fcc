/** The client's offline queue (mobile/src/offlineQueue.ts): head-of-line delivery of apply requests, at
    least once each. */
module OfflineQueue {
  import opened Rows
  import opened Seqs
  import opened Tables
  import opened Redelivery

  // ---- The client ----

  datatype Status = Success | ClientError | ServerError | NetworkError

  /** What happens while the client awaits one reply: requests that land before and after, copies of this
      client's own included, requests this client queues, and the fate of the request itself. */
  datatype Fate = Fate(before: seq<Request>, applied: bool, after: seq<Request>,
                       queued: seq<Request>, status: Status)

  /** A success was applied; the other outcomes may have been or not. */
  predicate Honest(f: Fate) { f.status == Success ==> f.applied }

  predicate Removes(f: Fate) { f.status == Success || f.status == ClientError }

  /** The requests that left the queue, those still in it, and the server's trace. */
  datatype World = World(gone: seq<Request>, queue: seq<Request>, trace: seq<Request>) {
    function Sent(): seq<Request> { gone + queue }
  }

  function Attempt(w: World, f: Fate): World
    requires w.queue != []
  {
    var trace := w.trace + f.before + (if f.applied then [w.queue[0]] else []) + f.after;
    if Removes(f) then World(w.gone + [w.queue[0]], w.queue[1..], trace)
    else World(w.gone, w.queue + f.queued, trace)
  }

  /** Attempts until the queue is empty or one of them asks for a later retry. */
  function Flush(w: World, fates: seq<Fate>): World
    decreases |fates|
  {
    if w.queue == [] || fates == [] then w
    else
      var w' := Attempt(w, fates[0]);
      if Removes(fates[0]) then Flush(w', fates[1..]) else w'
  }

  /** How many heads a flush takes off the queue. */
  function Drained(w: World, fates: seq<Fate>): nat
    decreases |fates|
  {
    if w.queue == [] || fates == [] || !Removes(fates[0]) then 0
    else 1 + Drained(Attempt(w, fates[0]), fates[1..])
  }

  class Client {
    var queue: seq<Request>
    var flushing: bool
    var online: bool
    ghost var trace: seq<Request>
    ghost var gone: seq<Request>

    ghost function Now(): World
      reads this
    {
      World(gone, queue, trace)
    }

    constructor ()
      ensures Now() == World([], [], []) && !flushing && !online
    {
      queue, flushing, online, trace, gone := [], false, false, [], [];
    }

    method ConfigureQueue()
      modifies this
      ensures online && Now() == old(Now()) && flushing == old(flushing)
    {
      online := true;
    }

    method QueueRequest(r: Request)
      modifies this
      ensures Now() == Called(old(Now()), Enqueue(r))
      ensures flushing == old(flushing) && online == old(online)
    {
      var q := queue;
      q := q + [r];
      queue := q;
    }

    /** Deliver from the head. `fates` scripts the replies; a missing one is a network error. */
    method FlushQueue(fates: seq<Fate>) returns (drained: nat)
      modifies this
      ensures flushing == old(flushing) && online == old(online)
      ensures Now() == if old(flushing) || !old(online) then old(Now()) else Called(old(Now()), FlushNow(fates))
      ensures drained == if old(flushing) || !old(online) then 0 else Drained(old(Now()), fates)
    {
      if flushing || !online { return 0; }
      flushing := true;
      drained := 0;
      var i := 0;
      while i < |fates|
        invariant 0 <= i <= |fates| && flushing && online == old(online)
        invariant Flush(Now(), fates[i..]) == Flush(old(Now()), fates)
        invariant drained + Drained(Now(), fates[i..]) == Drained(old(Now()), fates)
      {
        var loaded := queue;
        if |loaded| == 0 { break; }
        ghost var w := Now();
        var f := fates[i];
        assert fates[i..][0] == f && fates[i..][1..] == fates[i + 1..];
        queue := queue + f.queued;
        trace := trace + f.before + (if f.applied then [loaded[0]] else []) + f.after;
        i := i + 1;
        if f.status == ClientError {
          queue, gone := loaded[1..], gone + [loaded[0]];
          drained := drained + 1;
          assert Now() == Attempt(w, f);
          continue;
        }
        if f.status == ServerError || f.status == NetworkError {
          assert Now() == Attempt(w, f);
          assert Now() == Flush(old(Now()), fates);
          flushing := false;
          return;
        }
        queue, gone := loaded[1..], gone + [loaded[0]];
        drained := drained + 1;
        assert Now() == Attempt(w, f);
      }
      assert i == |fates| ==> fates[i..] == [];
      flushing := false;
    }
  }

  /** The reply lets the queue go on: the request was served, or refused for good. */
  predicate Settled(f: Fate) { f.status == Success || f.status == ClientError }

  /** Which requests a flush takes off the queue, and where it stops: the first n heads, each on a success or
      a client error; it stops at the end of the queue, or at a server or network error, and keeps that head. */
  lemma {:induction false} FlushTakesExactly(w: World, fates: seq<Fate>)
    ensures var n, w' := Drained(w, fates), Flush(w, fates);
      && n <= |w.queue| && n <= |fates| && w'.gone == w.gone + w.queue[..n]
      && (forall i :: 0 <= i < n ==> Settled(fates[i]))
      && (n == |w.queue| || n == |fates| || fates[n].status == ServerError || fates[n].status == NetworkError)
      && w'.queue == w.queue[n..] + if n < |w.queue| && n < |fates| then fates[n].queued else []
    decreases |fates|
  {
    if w.queue != [] && fates != [] && Removes(fates[0]) {
      var m := Attempt(w, fates[0]);
      FlushTakesExactly(m, fates[1..]);
      var n := Drained(m, fates[1..]);
      assert w.queue[..n + 1] == [w.queue[0]] + w.queue[1..][..n];
      assert w.queue[n + 1..] == w.queue[1..][n..];
      assert forall i :: 0 < i < n + 1 ==> fates[i] == fates[1..][i - 1];
    } else {
      assert w.queue[..0] == [] && w.gone + [] == w.gone && w.queue[0..] + [] == w.queue;
    }
  }

  /** The server has seen, in the trace, whatever it had seen before. */
  lemma {:induction false} FlushExtendsTrace(w: World, fates: seq<Fate>)
    ensures w.trace <= Flush(w, fates).trace
    decreases |fates|
  {
    if w.queue != [] && fates != [] && Removes(fates[0]) { FlushExtendsTrace(Attempt(w, fates[0]), fates[1..]); }
  }

  predicate AllHonest(fates: seq<Fate>) { forall f | f in fates :: Honest(f) }

  predicate NoClientError(fates: seq<Fate>) { forall f | f in fates :: f.status != ClientError }

  /** At least once: a request that a flush takes off the queue has landed, unless it was refused as a client error. */
  lemma {:induction false} TakenHasLanded(w: World, fates: seq<Fate>, i: nat)
    ensures i < Drained(w, fates) <= |fates| && i < |w.queue| && AllHonest(fates) && fates[i].status != ClientError
      ==> w.queue[i] in Flush(w, fates).trace
    decreases |fates|
  {
    if w.queue != [] && fates != [] && Removes(fates[0]) {
      var m := Attempt(w, fates[0]);
      assert forall f :: f in fates[1..] ==> f in fates;
      if i == 0 {
        FlushExtendsTrace(m, fates[1..]);
        if Honest(fates[0]) && fates[0].status != ClientError {
          assert m.trace[|w.trace + fates[0].before|] == w.queue[0];
        }
      } else {
        TakenHasLanded(m, fates[1..], i - 1);
      }
      assert fates[0] in fates;
    }
  }

  predicate AllLanded(w: World) { forall r | r in w.gone :: r in w.trace }

  lemma GoneHasLanded(w: World, fates: seq<Fate>)
    ensures AllHonest(fates) && NoClientError(fates) && AllLanded(w) ==> AllLanded(Flush(w, fates))
  {
    var n, w' := Drained(w, fates), Flush(w, fates);
    FlushTakesExactly(w, fates);
    FlushExtendsTrace(w, fates);
    if AllHonest(fates) && NoClientError(fates) && AllLanded(w) {
      forall r | r in w'.gone ensures r in w'.trace {
        if r !in w.gone {
          var i :| 0 <= i < n && w.queue[i] == r;
          assert fates[i] in fates;
          TakenHasLanded(w, fates, i);
        }
      }
    }
  }

  /** Everything the client queues while the flush awaits its replies. */
  function QueuedBy(w: World, fates: seq<Fate>): seq<Request>
    decreases |fates|
  {
    if w.queue == [] || fates == [] then []
    else if Removes(fates[0]) then fates[0].queued + QueuedBy(Attempt(w, fates[0]), fates[1..])
    else fates[0].queued
  }

  /** Nothing is queued while the flush awaits a reply that takes the head off the queue. */
  predicate Quiet(w: World, fates: seq<Fate>)
    decreases |fates|
  {
    w.queue == [] || fates == [] || !Removes(fates[0])
    || (fates[0].queued == [] && Quiet(Attempt(w, fates[0]), fates[1..]))
  }

  lemma RemovalKeepsSent(w: World, f: Fate)
    requires w.queue != [] && Removes(f)
    ensures Attempt(w, f).Sent() == w.Sent()
  {
    assert w.gone + [w.queue[0]] + w.queue[1..] == w.gone + w.queue;
  }

  /** A flush never gains a request, and loses none only if it is quiet. */
  lemma {:induction false} FlushCounts(w: World, fates: seq<Fate>)
    ensures |Flush(w, fates).Sent()| <= |w.Sent()| + |QueuedBy(w, fates)|
    ensures |Flush(w, fates).Sent()| == |w.Sent()| + |QueuedBy(w, fates)| <==> Quiet(w, fates)
    decreases |fates|
  {
    if w.queue != [] && fates != [] && Removes(fates[0]) {
      RemovalKeepsSent(w, fates[0]);
      FlushCounts(Attempt(w, fates[0]), fates[1..]);
    }
  }

  /** The saved queue is the one loaded before the reply. Whatever the replies, after a flush every request
      queued before or during it has left the queue or is still in it, in order, if and only if nothing was
      queued while a reply that takes the head off the queue was awaited. */
  lemma {:induction false} QueuedDuringAwaitIsKeptExactly(w: World, fates: seq<Fate>)
    ensures Flush(w, fates).Sent() == w.Sent() + QueuedBy(w, fates) <==> Quiet(w, fates)
    decreases |fates|
  {
    if !Quiet(w, fates) {
      FlushCounts(w, fates);
    } else if w.queue == [] || fates == [] {
      assert w.Sent() + [] == w.Sent();
    } else if Removes(fates[0]) {
      RemovalKeepsSent(w, fates[0]);
      QueuedDuringAwaitIsKeptExactly(Attempt(w, fates[0]), fates[1..]);
      assert [] + QueuedBy(Attempt(w, fates[0]), fates[1..]) == QueuedBy(Attempt(w, fates[0]), fates[1..]);
    } else {
      assert (w.gone + w.queue) + fates[0].queued == w.gone + (w.queue + fates[0].queued);
    }
  }

  // ---- Runs ----

  /** The client queues a request; a request reaches the server, somebody else's or a copy of an own one, also
      long after its attempt timed out or it left the queue; the head leaves the queue, acknowledged or refused. */
  datatype Event = Queue(r: Request) | Lands(r: Request) | Leave(acked: bool)

  /** A request that waits behind the head has not been sent yet. */
  predicate MayLand(w: World, r: Request) { w.queue == [] || r !in w.queue[1..] }

  predicate Allowed(w: World, ev: Event) {
    match ev
    case Queue(r) => r !in w.Sent() && r !in w.trace
    case Lands(r) => MayLand(w, r)
    case Leave(acked) => w.queue != [] && (acked ==> w.queue[0] in w.trace)
  }

  function Happens(w: World, ev: Event): World
    requires Allowed(w, ev)
  {
    match ev
    case Queue(r) => w.(queue := w.queue + [r])
    case Lands(r) => w.(trace := w.trace + [r])
    case Leave(_) => World(w.gone + [w.queue[0]], w.queue[1..], w.trace)
  }

  /** The world after a run of events, if each of them is allowed when it comes. */
  function Run(w: World, evs: seq<Event>): Option<World> {
    if evs == [] then Some(w)
    else
      match Run(w, evs[..|evs| - 1])
      case None => None
      case Some(b) => if Allowed(b, evs[|evs| - 1]) then Some(Happens(b, evs[|evs| - 1])) else None
  }

  lemma RunSnoc(w: World, evs: seq<Event>, ev: Event)
    requires Run(w, evs).Some? && Allowed(Run(w, evs).value, ev)
    ensures Run(w, evs + [ev]) == Some(Happens(Run(w, evs).value, ev))
  {
    assert (evs + [ev])[..|evs|] == evs;
  }

  /** Landings, one event each. */
  lemma {:induction false} LandEvents(w: World, evs: seq<Event>, b: World, rs: seq<Request>) returns (more: seq<Event>)
    requires Run(w, evs) == Some(b) && AllMayLand(b, rs)
    ensures Run(w, more) == Some(b.(trace := b.trace + rs))
  {
    if rs == [] {
      more := evs;
      assert b.trace + rs == b.trace;
    } else {
      var init, r := rs[..|rs| - 1], rs[|rs| - 1];
      assert rs == init + [r];
      assert r in rs;
      more := LandEvents(w, evs, b, init);
      RunSnoc(w, more, Lands(r));
      more := more + [Lands(r)];
      assert (b.trace + init) + [r] == b.trace + rs;
    }
  }

  lemma RunQueue(w: World, evs: seq<Event>, b: World, r: Request)
    requires Run(w, evs) == Some(b) && Allowed(b, Queue(r))
    ensures Run(w, evs + [Queue(r)]) == Some(b.(queue := b.queue + [r]))
  {
    RunSnoc(w, evs, Queue(r));
  }

  lemma NewToInit(w: World, init: seq<Request>, r: Request)
    requires NewTo(w, init + [r])
    ensures NewTo(w, init) && Allowed(w.(queue := w.queue + init), Queue(r))
  {
    var rs := init + [r];
    assert r == rs[|init|] && forall i :: 0 <= i < |init| ==> init[i] == rs[i];
    assert w.(queue := w.queue + init).Sent() == w.Sent() + init;
    assert r in rs && forall q :: q in init ==> q in rs;
  }

  /** The client's own requests, one event each. */
  lemma {:induction false} QueueEvents(w: World, evs: seq<Event>, b: World, rs: seq<Request>) returns (more: seq<Event>)
    requires Run(w, evs) == Some(b) && NewTo(b, rs)
    ensures Run(w, more) == Some(b.(queue := b.queue + rs))
  {
    if rs == [] {
      more := evs;
      assert b.queue + rs == b.queue;
    } else {
      var init, r := rs[..|rs| - 1], rs[|rs| - 1];
      assert rs == init + [r];
      NewToInit(b, init, r);
      more := QueueEvents(w, evs, b, init);
      RunQueue(w, more, b.(queue := b.queue + init), r);
      more := more + [Queue(r)];
      assert (b.queue + init) + [r] == b.queue + rs;
    }
  }

  /** Requests never seen before, by the client or the server, each once. */
  ghost predicate NewTo(w: World, rs: seq<Request>) {
    NoDup(rs) && forall r :: r in rs ==> r !in w.Sent() && r !in w.trace
  }

  ghost predicate AllMayLand(w: World, rs: seq<Request>) { forall r :: r in rs ==> MayLand(w, r) }

  /** An honest reply; what lands has been sent, and what the client queues and keeps is new. */
  ghost predicate FineFate(w: World, f: Fate)
    requires w.queue != []
  {
    && Honest(f) && AllMayLand(w, f.before) && AllMayLand(w, f.after)
    && (!Removes(f) ==> NewTo(Attempt(w, f.(queued := [])), f.queued))
  }

  /** Up to what the client queues, an attempt is a run of events. */
  lemma LandingIsARun(w: World, f: Fate) returns (evs: seq<Event>)
    requires w.queue != [] && AllMayLand(w, f.before) && AllMayLand(w, f.after)
    requires w.queue[0] !in w.queue[1..]
    ensures Run(w, evs) == Some(w.(trace := w.trace + f.before + (if f.applied then [w.queue[0]] else []) + f.after))
  {
    evs := LandEvents(w, [], w, f.before);
    var b := w.(trace := w.trace + f.before);
    if f.applied {
      evs := LandEvents(w, evs, b, [w.queue[0]]);
      b := b.(trace := b.trace + [w.queue[0]]);
    } else {
      assert b.trace + [] == b.trace;
    }
    evs := LandEvents(w, evs, b, f.after);
  }

  /** An attempt of the flush loop is a run of events; what is queued and overwritten leaves no event. */
  lemma AttemptIsARun(w: World, f: Fate) returns (evs: seq<Event>)
    requires w.queue != [] && FineFate(w, f) && NoDup(w.Sent())
    ensures Run(w, evs) == Some(Attempt(w, f))
  {
    HeadIsAlone(w);
    evs := LandingIsARun(w, f);
    var b := w.(trace := w.trace + f.before + (if f.applied then [w.queue[0]] else []) + f.after);
    if Removes(f) {
      assert f.applied ==> b.trace[|w.trace + f.before|] == w.queue[0];
      RunSnoc(w, evs, Leave(f.status == Success));
      evs := evs + [Leave(f.status == Success)];
    } else {
      assert w.queue + [] == w.queue;
      evs := QueueEvents(w, evs, b, f.queued);
    }
  }

  lemma {:induction false} RunConcat(w: World, a: seq<Event>, m: World, b: seq<Event>)
    requires Run(w, a) == Some(m)
    ensures Run(w, a + b) == Run(m, b)
  {
    if b == [] {
      assert a + b == a;
    } else {
      assert (a + b)[..|a + b| - 1] == a + b[..|b| - 1] && (a + b)[|a + b| - 1] == b[|b| - 1];
      RunConcat(w, a, m, b[..|b| - 1]);
    }
  }

  ghost predicate FineFates(w: World, fates: seq<Fate>)
    decreases |fates|
  {
    w.queue == [] || fates == []
    || (FineFate(w, fates[0]) && (Removes(fates[0]) ==> FineFates(Attempt(w, fates[0]), fates[1..])))
  }

  /** A whole flush is a run of events. */
  lemma {:induction false} FlushIsARun(w: World, fates: seq<Fate>) returns (evs: seq<Event>)
    requires FineFates(w, fates) && NoDup(w.Sent())
    ensures Run(w, evs) == Some(Flush(w, fates))
    decreases |fates|
  {
    evs := [];
    if w.queue != [] && fates != [] {
      var first := AttemptIsARun(w, fates[0]);
      var m := Attempt(w, fates[0]);
      evs := first;
      if Removes(fates[0]) {
        RemovalKeepsSent(w, fates[0]);
        var rest := FlushIsARun(m, fates[1..]);
        RunConcat(w, first, m, rest);
        evs := first + rest;
      }
    }
  }

  // ---- Calls of the client ----

  /** `QueueRequest`, `FlushQueue`, and what lands in between. */
  datatype Call = Enqueue(r: Request) | FlushNow(fates: seq<Fate>) | Landed(rs: seq<Request>)

  function Called(w: World, c: Call): World {
    match c
    case Enqueue(r) => w.(queue := w.queue + [r])
    case FlushNow(fates) => Flush(w, fates)
    case Landed(rs) => w.(trace := w.trace + rs)
  }

  ghost predicate FineCall(w: World, c: Call) {
    match c
    case Enqueue(r) => NewTo(w, [r])
    case FlushNow(fates) => FineFates(w, fates)
    case Landed(rs) => AllMayLand(w, rs)
  }

  function CallAll(w: World, cs: seq<Call>): World {
    if cs == [] then w else Called(CallAll(w, cs[..|cs| - 1]), cs[|cs| - 1])
  }

  ghost predicate FineCalls(w: World, cs: seq<Call>) {
    cs == [] || (FineCalls(w, cs[..|cs| - 1]) && FineCall(CallAll(w, cs[..|cs| - 1]), cs[|cs| - 1]))
  }

  /** No flush of the calls meets a client error, and replies are honest. */
  predicate NothingRefused(cs: seq<Call>) {
    forall c | c in cs :: c.FlushNow? ==> AllHonest(c.fates) && NoClientError(c.fates)
  }

  /** At least once over any sequence of calls: what has left the queue has landed. */
  lemma {:induction false} CallsLand(w: World, cs: seq<Call>)
    ensures AllLanded(w) && NothingRefused(cs) ==> AllLanded(CallAll(w, cs))
  {
    if cs != [] {
      var init, c := cs[..|cs| - 1], cs[|cs| - 1];
      assert cs == init + [c];
      assert c in cs && forall d :: d in init ==> d in cs;
      CallsLand(w, init);
      if c.FlushNow? { GoneHasLanded(CallAll(w, init), c.fates); }
    }
  }

  lemma CallIsARun(w: World, c: Call) returns (evs: seq<Event>)
    requires FineCall(w, c) && NoDup(w.Sent())
    ensures Run(w, evs) == Some(Called(w, c))
  {
    match c
    case Enqueue(r) => evs := QueueEvents(w, [], w, [r]);
    case FlushNow(fates) => evs := FlushIsARun(w, fates);
    case Landed(rs) => evs := LandEvents(w, [], w, rs);
  }

  /** Any sequence of calls on an empty client is one run of events. */
  lemma {:induction false} CallsAreARun(trace: seq<Request>, cs: seq<Call>) returns (evs: seq<Event>)
    requires FineCalls(World([], [], trace), cs)
    ensures Run(World([], [], trace), evs) == Some(CallAll(World([], [], trace), cs))
  {
    var start := World([], [], trace);
    evs := [];
    if cs != [] {
      var m := CallAll(start, cs[..|cs| - 1]);
      var first := CallsAreARun(trace, cs[..|cs| - 1]);
      EveryRunIsInOrderExactly(trace, first);
      var last := CallIsARun(m, cs[|cs| - 1]);
      RunConcat(start, first, m, last);
      evs := first + last;
    }
  }

  /** Each request once, at its first landing. */
  function Once(trace: seq<Request>): seq<Request> {
    if trace == [] then []
    else
      var init, r := trace[..|trace| - 1], trace[|trace| - 1];
      if r in init then Once(init) else Once(init) + [r]
  }

  /** The members of `rs` that are among `among`, in order. */
  function Among(rs: seq<Request>, among: seq<Request>): seq<Request> { Keep(r => r in among, rs) }

  lemma AmongAgrees(rs: seq<Request>, a: seq<Request>, b: seq<Request>)
    requires forall r :: r in rs ==> (r in a <==> r in b)
    ensures Among(rs, a) == Among(rs, b)
  {
    KeepSame((r: Request) => r in a, r => r in b, rs);
  }

  lemma AmongSnoc(rs: seq<Request>, r: Request, among: seq<Request>)
    ensures Among(rs + [r], among) == Among(rs, among) + if r in among then [r] else []
  {
    KeepSnoc((q: Request) => q in among, rs, r);
  }

  lemma {:induction false} OnceIsNoDup(trace: seq<Request>)
    ensures NoDup(Once(trace))
  {
    if trace != [] {
      var init := trace[..|trace| - 1];
      OnceIsNoDup(init);
      OnceHasTheSame(init);
      assert forall i :: 0 <= i < |Once(init)| ==> Once(init)[i] in init;
    }
  }

  lemma {:induction false} OnceHasTheSame(trace: seq<Request>)
    ensures forall r :: r in Once(trace) <==> r in trace
  {
    if trace != [] {
      OnceHasTheSame(trace[..|trace| - 1]);
      assert trace == trace[..|trace| - 1] + [trace[|trace| - 1]];
    }
  }

  lemma OnceSnoc(trace: seq<Request>, r: Request)
    ensures Once(trace + [r]) == if r in trace then Once(trace) else Once(trace) + [r]
  {
    assert (trace + [r])[..|trace|] == trace;
  }

  /** Of the waiting requests only the head may have landed already. */
  ghost predicate OnlyHeadLanded(w: World) {
    w.queue != [] ==> forall r :: r in w.queue[1..] ==> r !in w.trace
  }

  /** This client's first landings come in the order it queued the requests. */
  ghost predicate FirstsInOrder(w: World) {
    Among(Once(w.trace), w.Sent()) == Among(w.Sent(), w.trace)
  }

  /** `r` has left the queue without ever landing, so it was dropped on a client error, and something this
      client queued after it has landed. */
  ghost predicate Overtaken(w: World, r: Request) {
    r in w.gone && r !in w.trace && exists i, j :: 0 <= i < j < |w.Sent()| && w.Sent()[i] == r && w.Sent()[j] in w.trace
  }

  /** The event keeps the order: it is no landing of an overtaken request. */
  ghost predicate KeepsOrder(w: World, ev: Event) { ev.Lands? ==> !Overtaken(w, ev.r) }

  lemma QueueKeepsOrder(w: World, r: Request)
    requires Allowed(w, Queue(r))
    ensures FirstsInOrder(Happens(w, Queue(r))) <==> FirstsInOrder(w)
  {
    assert Happens(w, Queue(r)).Sent() == w.Sent() + [r];
    OnceHasTheSame(w.trace);
    AmongAgrees(Once(w.trace), w.Sent(), w.Sent() + [r]);
    AmongSnoc(w.Sent(), r, w.trace);
  }

  /** A request that is nobody's of this client's, or has landed before. */
  lemma OldLandingKeepsOrder(w: World, r: Request)
    requires r in w.Sent() ==> r in w.trace
    ensures FirstsInOrder(w.(trace := w.trace + [r])) <==> FirstsInOrder(w)
  {
    OnceSnoc(w.trace, r);
    AmongSnoc(Once(w.trace), r, w.Sent());
    AmongAgrees(w.Sent(), w.trace, w.trace + [r]);
  }

  /** Splits the requests of the client at one of them that lands for the first time. */
  lemma SplitAt(sent: seq<Request>, i: nat, trace: seq<Request>)
    requires i < |sent| && NoDup(sent) && sent[i] !in trace
    ensures Among(sent, trace) == Among(sent[..i], trace) + Among(sent[i + 1..], trace)
    ensures Among(sent, trace + [sent[i]]) == Among(sent[..i], trace) + [sent[i]] + Among(sent[i + 1..], trace)
  {
    var a, r, b := sent[..i], sent[i], sent[i + 1..];
    assert sent == (a + [r]) + b;
    KeepConcat((q: Request) => q in trace, a + [r], b);
    KeepConcat((q: Request) => q in trace + [r], a + [r], b);
    AmongSnoc(a, r, trace);
    AmongSnoc(a, r, trace + [r]);
    AmongAgrees(a, trace, trace + [r]);
    AmongAgrees(b, trace, trace + [r]);
  }

  /** `r` in front of, or behind, what was there before it. */
  lemma SnocAgainstInsert(a: seq<Request>, x: seq<Request>, y: seq<Request>, r: Request)
    requires r !in y
    ensures a + [r] == x + [r] + y <==> a == x + y && y == []
  {
    if y == [] {
      assert x + [r] + y == x + [r] && x + y == x;
      assert (a + [r])[..|a|] == a && (x + [r])[..|x|] == x;
    } else {
      assert (x + [r] + y)[|x + [r] + y| - 1] == y[|y| - 1] && (a + [r])[|a + [r]| - 1] == r;
    }
  }

  /** The first landing of an own request keeps the order exactly when nothing queued later landed before. */
  lemma FirstLandingExactly(w: World, i: nat)
    requires NoDup(w.Sent()) && i < |w.Sent()| && w.Sent()[i] !in w.trace
    ensures FirstsInOrder(w.(trace := w.trace + [w.Sent()[i]])) <==>
      FirstsInOrder(w) && forall j :: i < j < |w.Sent()| ==> w.Sent()[j] !in w.trace
  {
    var sent, r := w.Sent(), w.Sent()[i];
    OnceSnoc(w.trace, r);
    AmongSnoc(Once(w.trace), r, sent);
    SplitAt(sent, i, w.trace);
    NoneLater(sent, i, w.trace);
    SnocAgainstInsert(Among(Once(w.trace), sent), Among(sent[..i], w.trace), Among(sent[i + 1..], w.trace), r);
  }

  lemma NoneLater(sent: seq<Request>, i: nat, trace: seq<Request>)
    requires i < |sent| && sent[i] !in trace
    ensures sent[i] !in Among(sent[i + 1..], trace)
    ensures Among(sent[i + 1..], trace) == [] <==> forall j :: i < j < |sent| ==> sent[j] !in trace
  {
    var later := Among(sent[i + 1..], trace);
    KeptMembers((q: Request) => q in trace, sent[i + 1..]);
    forall j | i < j < |sent| ensures sent[j] in trace ==> sent[j] in later {
      assert sent[i + 1..][j - i - 1] == sent[j];
    }
    if later != [] {
      assert later[0] in sent[i + 1..];
      var k :| 0 <= k < |sent[i + 1..]| && sent[i + 1..][k] == later[0];
      assert sent[i + 1 + k] in trace;
    }
  }

  lemma HeadIsAlone(w: World)
    requires NoDup(w.Sent()) && w.queue != []
    ensures w.queue[0] !in w.gone && w.queue[0] !in w.queue[1..]
  {
    assert forall i :: 0 <= i < |w.queue| ==> w.Sent()[|w.gone| + i] == w.queue[i];
    assert forall i :: 0 <= i < |w.gone| ==> w.Sent()[i] == w.gone[i];
  }

  lemma LandingKeepsOrderExactly(w: World, r: Request)
    requires NoDup(w.Sent()) && OnlyHeadLanded(w) && MayLand(w, r)
    ensures FirstsInOrder(w.(trace := w.trace + [r])) <==> FirstsInOrder(w) && !Overtaken(w, r)
  {
    if r in w.Sent() && r !in w.trace {
      var i :| 0 <= i < |w.Sent()| && w.Sent()[i] == r;
      FirstLandingExactly(w, i);
      OvertakenAt(w, i);
    } else {
      OldLandingKeepsOrder(w, r);
      assert r in w.gone ==> r in w.Sent();
    }
  }

  /** Only a request that has left the queue can be overtaken. */
  lemma OvertakenAt(w: World, i: nat)
    requires NoDup(w.Sent()) && OnlyHeadLanded(w) && i < |w.Sent()| && w.Sent()[i] !in w.trace
    requires MayLand(w, w.Sent()[i])
    ensures Overtaken(w, w.Sent()[i]) <==> exists j :: i < j < |w.Sent()| && w.Sent()[j] in w.trace
  {
    var sent, n := w.Sent(), |w.gone|;
    assert forall j :: 0 <= j < |w.queue| ==> sent[n + j] == w.queue[j];
    assert forall j :: 0 <= j < n ==> sent[j] == w.gone[j];
    if i >= n {
      assert sent[i] == w.queue[i - n] && forall l :: 1 <= l < |w.queue| ==> w.queue[l] == w.queue[1..][l - 1];
      assert i == n;
      forall j | i < j < |sent| ensures sent[j] !in w.trace {
        assert sent[j] == w.queue[1..][j - n - 1];
      }
      assert forall j :: 0 <= j < |sent| && sent[j] == sent[i] ==> j == i;
    }
  }

  lemma TailStays(w: World, ev: Event)
    requires NoDup(w.Sent()) && OnlyHeadLanded(w) && Allowed(w, ev)
    ensures NoDup(Happens(w, ev).Sent()) && OnlyHeadLanded(Happens(w, ev))
  {
    match ev
    case Queue(r) => assert Happens(w, ev).Sent() == w.Sent() + [r];
    case Lands(r) =>
    case Leave(_) =>
      assert Happens(w, ev).Sent() == w.Sent();
      assert w.queue[1..] != [] ==> forall q :: q in w.queue[1..][1..] ==> q in w.queue[1..];
  }

  /** No event of the run lands an overtaken request. */
  ghost predicate NoneOvertaken(w: World, evs: seq<Event>)
    requires Run(w, evs).Some?
  {
    evs == [] ||
      (NoneOvertaken(w, evs[..|evs| - 1]) && KeepsOrder(Run(w, evs[..|evs| - 1]).value, evs[|evs| - 1]))
  }

  /** In every run from an empty client: of the requests still queued only the head may have landed, and first
      landings come in the order of queueing if and only if no overtaken request ever landed. */
  lemma {:induction false} EveryRunIsInOrderExactly(trace: seq<Request>, evs: seq<Event>)
    requires Run(World([], [], trace), evs).Some?
    ensures var w := Run(World([], [], trace), evs).value;
      && NoDup(w.Sent()) && OnlyHeadLanded(w)
      && (FirstsInOrder(w) <==> NoneOvertaken(World([], [], trace), evs))
  {
    var start := World([], [], trace);
    if evs == [] {
      assert start.Sent() == [];
      KeepNone((r: Request) => r in start.Sent(), Once(trace));
    } else {
      EveryRunIsInOrderExactly(trace, evs[..|evs| - 1]);
      EventKeepsOrderExactly(Run(start, evs[..|evs| - 1]).value, evs[|evs| - 1]);
    }
  }

  lemma EventKeepsOrderExactly(w: World, ev: Event)
    requires NoDup(w.Sent()) && OnlyHeadLanded(w) && Allowed(w, ev)
    ensures var w' := Happens(w, ev);
      NoDup(w'.Sent()) && OnlyHeadLanded(w') && (FirstsInOrder(w') <==> FirstsInOrder(w) && KeepsOrder(w, ev))
  {
    TailStays(w, ev);
    match ev
    case Queue(r) => QueueKeepsOrder(w, r);
    case Lands(r) => LandingKeepsOrderExactly(w, r);
    case Leave(_) => assert Happens(w, ev).Sent() == w.Sent();
  }

  /** Two requests the client has not seen, in an idle client. */
  ghost predicate TwoNew(w: World, a: Request, b: Request) {
    && |w.queue| == 0 && NoDup(w.gone) && a != b
    && a !in w.gone && b !in w.gone && a !in w.trace && b !in w.trace
  }

  lemma DroppedAfterQueueing(w: World, a: Request, b: Request, evs: seq<Event>)
    requires TwoNew(w, a, b) && |evs| >= 3 && evs[0] == Queue(a) && evs[1] == Queue(b) && evs[2] == Leave(false)
    ensures Run(w, evs[..3]) == Some(World(w.gone + [a], [b], w.trace))
  {
    var w1, w2 := w.(queue := [a]), w.(queue := [a, b]);
    assert w.queue + [a] == [a] && [a] + [b] == [a, b] && [a, b][1..] == [b];
    assert w.Sent() == w.gone && w1.Sent() == w.gone + [a];
    RunStep(w, evs, 0, w, w1);
    RunStep(w, evs, 1, w1, w2);
    RunStep(w, evs, 2, w2, World(w.gone + [a], [b], w.trace));
  }

  lemma SecondIsServed(w: World, a: Request, b: Request, m: World, evs: seq<Event>)
    requires |evs| == 6 && Run(w, evs[..3]) == Some(m) && m.queue == [b]
    requires evs[3] == Lands(b) && evs[4] == Leave(true) && evs[5] == Lands(a)
    ensures Run(w, evs) == Some(World(m.gone + [b], m.queue[1..], m.trace + [b] + [a]))
  {
    var w4 := m.(trace := m.trace + [b]);
    var w5 := World(m.gone + [b], m.queue[1..], w4.trace);
    assert w4.trace[|m.trace|] == b && |m.queue[1..]| == 0;
    RunStep(w, evs, 3, m, w4);
    RunStep(w, evs, 4, w4, w5);
    RunStep(w, evs, 5, w5, w5.(trace := w5.trace + [a]));
    assert evs[..6] == evs;
  }

  /** From any state with an empty queue: of two requests queued, the first is dropped on a client error, and
      a copy of it lands after the second. The order is lost. */
  lemma DroppedThenLands(w: World, a: Request, b: Request, evs: seq<Event>)
    requires TwoNew(w, a, b)
    requires evs == [Queue(a), Queue(b), Leave(false), Lands(b), Leave(true), Lands(a)]
    ensures Run(w, evs).Some? && !FirstsInOrder(Run(w, evs).value)
  {
    DroppedAfterQueueing(w, a, b, evs);
    SecondIsServed(w, a, b, World(w.gone + [a], [b], w.trace), evs);
    TwoInTheWrongOrder(w, a, b, [b][1..]);
  }

  lemma TwoInTheWrongOrder(w: World, a: Request, b: Request, queue: seq<Request>)
    requires TwoNew(w, a, b) && |queue| == 0
    ensures !FirstsInOrder(World(w.gone + [a] + [b], queue, w.trace + [b] + [a]))
  {
    var w5, n := World(w.gone + [a] + [b], queue, w.trace + [b]), |w.gone|;
    assert w5.Sent() == w.gone + [a] + [b];
    assert w5.Sent()[n] == a && w5.Sent()[n + 1] == b && w5.trace[|w.trace|] == b;
    FirstLandingExactly(w5, n);
  }

  lemma RunStep(w: World, evs: seq<Event>, n: nat, b: World, c: World)
    requires n < |evs| && Run(w, evs[..n]) == Some(b) && Allowed(b, evs[n]) && Happens(b, evs[n]) == c
    ensures Run(w, evs[..n + 1]) == Some(c)
  {
    assert evs[..n + 1] == evs[..n] + [evs[n]];
    RunSnoc(w, evs[..n], evs[n]);
  }

  lemma {:induction false} FirstsAreOnce(trace: seq<Delivery>)
    ensures Requests(Firsts(trace)) == Once(Requests(trace))
  {
    if trace != [] {
      var init, d := trace[..|trace| - 1], trace[|trace| - 1];
      FirstsAreOnce(init);
      assert Requests(trace) == Requests(init) + [d.request];
      OnceSnoc(Requests(init), d.request);
      assert Requests(Firsts(init) + [d]) == Requests(Firsts(init)) + [d.request];
    }
  }

  /** In any run of events whose repeats are idle: the store is that of every request that ever landed, each
      once at its first landing; this client's come in the order it queued them if and only if no overtaken
      request ever landed. */
  lemma DeliveredStore(s: Schema, t: map<Key, Row>, trace: seq<Request>, evs: seq<Event>, ds: seq<Delivery>)
    requires Run(World([], [], trace), evs).Some? && Requests(ds) == Run(World([], [], trace), evs).value.trace
    requires RepeatsAreIdle(s, t, ds)
    ensures var w, firsts := Run(World([], [], trace), evs).value, Requests(Firsts(ds));
      && Serve(s, t, ds) == Serve(s, t, Firsts(ds))
      && (Among(firsts, w.Sent()) == Among(w.Sent(), w.trace) <==> NoneOvertaken(World([], [], trace), evs))
      && (w.queue == [] ==> w.Sent() == w.gone)
  {
    EveryRunIsInOrderExactly(trace, evs);
    FirstsAreOnce(ds);
    OnceUpTo(s, t, ds, |ds|);
    assert OnceSoFar(s, t, ds, |ds|) && ds[..|ds|] == ds;
  }

  /** The same of the client itself: after any sequence of queueing and flushing, whatever the replies and at
      whatever times the requests and their copies landed, with other clients in between. */
  lemma StoreAfterCalls(s: Schema, t: map<Key, Row>, trace: seq<Request>, cs: seq<Call>, ds: seq<Delivery>)
    returns (evs: seq<Event>)
    requires FineCalls(World([], [], trace), cs) && Requests(ds) == CallAll(World([], [], trace), cs).trace
    requires RepeatsAreIdle(s, t, ds)
    ensures Run(World([], [], trace), evs) == Some(CallAll(World([], [], trace), cs))
    ensures var w, firsts := CallAll(World([], [], trace), cs), Requests(Firsts(ds));
      && Serve(s, t, ds) == Serve(s, t, Firsts(ds))
      && (Among(firsts, w.Sent()) == Among(w.Sent(), w.trace) <==> NoneOvertaken(World([], [], trace), evs))
  {
    evs := CallsAreARun(trace, cs);
    DeliveredStore(s, t, trace, evs, ds);
  }
}
