/** The limiter on upstream AI calls (api/ai/queue.js): a FIFO semaphore that hands slots over. */
module Limiter {
  import opened Rows
  import opened Seqs

  type Task = nat

  /** `parseInt(AI_MAX_CONCURRENCY) || 8`: absent, unreadable and zero all mean 8; a negative number stays. */
  function MaxOf(env: Option<int>): int {
    if env.Some? && env.value != 0 then env.value else 8
  }

  /** The two variables of the module, and the history of calls under the limiter. */
  datatype Slots = Slots(active: nat, waiters: seq<Task>,
                         held: set<Task>, arrived: seq<Task>, granted: seq<Task>, finished: nat)

  const Fresh := Slots(0, [], {}, [], [], 0)

  function Acquired(max: int, q: Slots, t: Task): Slots {
    var r := q.(arrived := q.arrived + [t]);
    if q.active < max then r.(active := q.active + 1, held := q.held + {t}, granted := q.granted + [t])
    else r.(waiters := q.waiters + [t])
  }

  function Released(q: Slots, t: Task): Slots {
    var r := q.(held := q.held - {t}, finished := q.finished + 1);
    if q.waiters == [] then r.(active := if q.active >= 1 then q.active - 1 else 0)
    else r.(waiters := q.waiters[1..], held := r.held + {q.waiters[0]}, granted := q.granted + [q.waiters[0]])
  }

  class Queue {
    const max: int
    var active: nat
    var waiters: seq<Task>
    ghost var held: set<Task>
    ghost var arrived: seq<Task>
    ghost var granted: seq<Task>
    ghost var finished: nat

    ghost function Now(): Slots
      reads this
    {
      Slots(active, waiters, held, arrived, granted, finished)
    }

    constructor (env: Option<int>)
      ensures max == MaxOf(env) && Now() == Fresh
    {
      max := MaxOf(env);
      active, waiters, held, arrived, granted, finished := 0, [], {}, [], [], 0;
    }

    /** True when the caller goes on at once, false when it waits. */
    method Acquire(t: Task) returns (ready: bool)
      modifies this
      ensures Now() == Acquired(max, old(Now()), t)
      ensures ready <==> old(active) < max
    {
      arrived := arrived + [t];
      if active < max {
        active := active + 1;
        held, granted := held + {t}, granted + [t];
        return true;
      }
      waiters := waiters + [t];
      ready := false;
    }

    /** `t` gives its slot back; the waiter that takes it over is resumed. */
    method Release(ghost t: Task) returns (resumed: Option<Task>)
      modifies this
      ensures Now() == Released(old(Now()), t)
      ensures resumed == if old(waiters) == [] then None else Some(old(waiters)[0])
    {
      held, finished := held - {t}, finished + 1;
      if |waiters| == 0 {
        active := if active - 1 > 0 then active - 1 else 0;
        return None;
      }
      var next := waiters[0];
      waiters := waiters[1..];
      held, granted := held + {next}, granted + [next];
      resumed := Some(next);
    }
  }

  // ---- Interleavings ----

  /** A new call enters `withLimit`, or a call that holds a slot ends, by return or throw. */
  datatype Event = Enter(t: Task) | Leave(t: Task)

  predicate Allowed(q: Slots, ev: Event) {
    match ev case Enter(t) => t !in q.arrived case Leave(t) => t in q.held
  }

  function Run(max: int, evs: seq<Event>): Option<Slots> {
    if evs == [] then Some(Fresh)
    else
      match Run(max, evs[..|evs| - 1])
      case None => None
      case Some(q) =>
        var ev := evs[|evs| - 1];
        if !Allowed(q, ev) then None
        else match ev case Enter(t) => Some(Acquired(max, q, t)) case Leave(t) => Some(Released(q, t))
  }

  ghost predicate Inv(max: int, q: Slots) {
    && q.active == |q.held| && q.active <= max
    && (q.waiters != [] ==> q.active == max)
    && q.granted + q.waiters == q.arrived && NoDup(q.arrived)
    && (forall t :: t in q.held ==> t in q.granted)
    && |q.granted| == q.finished + q.active
  }

  lemma WaitersHoldNothing(max: int, q: Slots)
    requires Inv(max, q) && q.waiters != []
    ensures q.waiters[0] !in q.held && q.waiters[0] !in q.granted
    ensures (q.granted + [q.waiters[0]]) + q.waiters[1..] == q.arrived
  {
    assert q.arrived[|q.granted|] == q.waiters[0];
    forall i | 0 <= i < |q.granted| ensures q.granted[i] != q.waiters[0] {
      assert q.arrived[i] == q.granted[i];
    }
  }

  lemma EnterKeepsInv(max: int, q: Slots, t: Task)
    requires Inv(max, q) && t !in q.arrived
    ensures Inv(max, Acquired(max, q, t))
  {
    assert forall u :: u in q.granted ==> u in q.granted + q.waiters;
    assert t !in q.held;
    if q.active < max {
      assert q.waiters == [] && q.granted == q.arrived;
    } else {
      assert q.granted + (q.waiters + [t]) == q.arrived + [t];
    }
  }

  lemma LeaveKeepsInv(max: int, q: Slots, t: Task)
    requires Inv(max, q) && t in q.held
    ensures q.active >= 1 && Inv(max, Released(q, t))
  {
    assert |q.held - {t}| == |q.held| - 1;
    if q.waiters != [] {
      WaitersHoldNothing(max, q);
      assert |(q.held - {t}) + {q.waiters[0]}| == |q.held|;
    }
  }

  /** In every interleaving: the counter is the number of slots held and never exceeds the limit,
      nobody waits while a slot is free, slots go out strictly in order of arrival, and the
      calls let through so far are as many as limit and completions allow. */
  lemma {:induction false} EveryRunIsFifo(max: int, evs: seq<Event>)
    requires max >= 1 && Run(max, evs).Some?
    ensures var q := Run(max, evs).value;
      && Inv(max, q)
      && |q.granted| == (if |q.arrived| <= max + q.finished then |q.arrived| else max + q.finished)
      && q.granted == q.arrived[..|q.granted|]
  {
    if evs != [] {
      var q, ev := Run(max, evs[..|evs| - 1]).value, evs[|evs| - 1];
      EveryRunIsFifo(max, evs[..|evs| - 1]);
      match ev
      case Enter(t) => EnterKeepsInv(max, q, t);
      case Leave(t) => LeaveKeepsInv(max, q, t);
    }
  }

  /** The clamp at zero never takes effect: whoever releases holds a counted slot. */
  lemma ClampIsIdle(max: int, evs: seq<Event>, t: Task)
    requires max >= 1 && Run(max, evs).Some? && t in Run(max, evs).value.held
    ensures var q := Run(max, evs).value;
      Released(q, t).active == if q.waiters == [] then q.active as int - 1 else q.active
  {
    EveryRunIsFifo(max, evs);
    LeaveKeepsInv(max, Run(max, evs).value, t);
  }

  /** In every run a positive setting n lets at most n calls go on at once, and at any moment lets through the
      first arrivals, n more than have finished; eight without a setting or at zero. */
  lemma SettingIsTheLimit(env: Option<int>, evs: seq<Event>)
    ensures Run(MaxOf(env), evs).Some? ==>
      var q := Run(MaxOf(env), evs).value;
      && (env.Some? && env.value > 0 ==> LetsThrough(env.value, q))
      && (env == None || env == Some(0) ==> LetsThrough(8, q))
  {
    if Run(MaxOf(env), evs).Some? && MaxOf(env) >= 1 { EveryRunIsFifo(MaxOf(env), evs); }
  }

  /** With limit `n`: who is under way, and who was let through so far. */
  ghost predicate LetsThrough(n: nat, q: Slots) {
    && q.active == |q.held| <= n
    && q.granted <= q.arrived
    && (|q.arrived| <= n + q.finished ==> q.granted == q.arrived)
    && (|q.arrived| > n + q.finished ==> |q.granted| == n + q.finished)
  }

  /** With the setting as the module reads it, calls are ever let through exactly when the setting is not
      negative; otherwise every call of every run waits. */
  lemma NegativeSettingStarvesExactly(env: Option<int>, evs: seq<Event>)
    requires Run(MaxOf(env), evs).Some? && evs != []
    ensures Run(MaxOf(env), evs).value.granted != [] <==> !(env.Some? && env.value < 0)
  {
    if MaxOf(env) >= 1 {
      EveryRunIsFifo(MaxOf(env), evs);
      SomethingArrived(MaxOf(env), evs);
    } else {
      NothingGranted(MaxOf(env), evs);
    }
  }

  lemma {:induction false} NothingGranted(max: int, evs: seq<Event>)
    requires max < 1 && Run(max, evs).Some?
    ensures var q := Run(max, evs).value;
      q.granted == [] && q.held == {} && q.active == 0 && q.waiters == q.arrived
  {
    if evs != [] { NothingGranted(max, evs[..|evs| - 1]); }
  }

  lemma {:induction false} SomethingArrived(max: int, evs: seq<Event>)
    requires Run(max, evs).Some?
    ensures evs != [] ==> Run(max, evs).value.arrived != []
    ensures evs == [] ==> Run(max, evs).value.held == {}
  {
    if evs != [] { SomethingArrived(max, evs[..|evs| - 1]); }
  }
}
