/** The cron worker's reconciler and overlap guard (api/workers/cron.js). */
module Cron {
  import opened Rows

  type JobId = nat
  type Handle = nat

  /** An enabled cloud_jobs row, as far as reconcile reads it. */
  datatype Job = Job(id: JobId, schedule: string)

  datatype Entry = Entry(task: Handle, schedule: string)

  ghost predicate DistinctJobs(jobs: seq<Job>) {
    forall i, j :: 0 <= i < j < |jobs| ==> jobs[i].id != jobs[j].id
  }

  /** `m` schedules exactly the enabled jobs with a valid expression, each at its current one. */
  ghost predicate Matches(m: map<JobId, Entry>, jobs: seq<Job>, valid: string -> bool) {
    forall id, s :: (id in m && m[id].schedule == s) <==> (Job(id, s) in jobs && valid(s))
  }

  class Worker {
    const valid: string -> bool
    var scheduled: map<JobId, Entry>
    /** The node-cron tasks that are started and not stopped. */
    var live: set<Handle>
    var nextHandle: Handle
    var inFlight: set<JobId>
    /** The runs really under way. */
    ghost var runs: multiset<JobId>

    /** The live tasks are exactly those in the map, one each, all with valid expressions. */
    ghost predicate Valid()
      reads this
    {
      && (forall h :: h in live <==> exists id :: id in scheduled && scheduled[id].task == h)
      && (forall id :: id in scheduled ==> scheduled[id].task < nextHandle && valid(scheduled[id].schedule))
      && (forall a, b :: a in scheduled && b in scheduled && scheduled[a].task == scheduled[b].task ==> a == b)
    }

    constructor (v: string -> bool)
      ensures Valid() && valid == v && scheduled == map[] && live == {} && Guard() == Idle
    {
      valid, scheduled, live, nextHandle, inFlight, runs := v, map[], {}, 0, {}, multiset{};
    }

    /** Stop a job's task and forget it. */
    method Unschedule(id: JobId)
      requires Valid()
      modifies `scheduled, `live
      ensures Valid()
      ensures scheduled == old(scheduled) - {id}
      ensures live == if id in old(scheduled) then old(live) - {old(scheduled)[id].task} else old(live)
    {
      if id in scheduled {
        live := live - {scheduled[id].task};
        scheduled := scheduled - {id};
        assert forall i :: i in old(scheduled) && i != id ==> i in scheduled && scheduled[i] == old(scheduled)[i];
      }
    }

    method Schedule(job: Job)
      requires Valid() && job.id !in scheduled && valid(job.schedule)
      modifies `scheduled, `live, `nextHandle
      ensures Valid()
      ensures scheduled == old(scheduled)[job.id := Entry(old(nextHandle), job.schedule)]
      ensures live == old(live) + {old(nextHandle)} && nextHandle == old(nextHandle) + 1
    {
      var task := nextHandle;
      nextHandle := nextHandle + 1;
      live := live + {task};
      scheduled := scheduled[job.id := Entry(task, job.schedule)];
      assert scheduled[job.id].task == task;
      assert forall h :: h in old(live) ==>
        exists id :: id in old(scheduled) && old(scheduled)[id].task == h && scheduled[id].task == h;
    }

    ghost function Now(): Sched
      reads this
    {
      Sched(scheduled, nextHandle)
    }

    ghost function Guard(): Firing
      reads this
    {
      Firing(Now(), inFlight, runs)
    }

    /** One job of the enabled list: keep, reschedule, schedule or leave out. */
    method Settle(job: Job)
      requires Valid()
      modifies `scheduled, `live, `nextHandle
      ensures Valid() && Now() == SettleOne(valid, old(Now()), job)
      ensures Now() == old(Now()) ==> live == old(live)
    {
      if job.id in scheduled && scheduled[job.id].schedule == job.schedule { return; }
      if job.id in scheduled { Unschedule(job.id); }
      assert scheduled == old(scheduled) - {job.id};
      if !valid(job.schedule) { return; }
      Schedule(job);
      assert scheduled == old(scheduled)[job.id := Entry(old(nextHandle), job.schedule)];
    }

    /** Drop tasks whose job is no longer enabled or present. */
    method DropUnseen(seen: set<JobId>)
      requires Valid()
      modifies `scheduled, `live
      ensures Valid() && scheduled == Only(old(scheduled), seen)
    {
      var keys := scheduled.Keys;
      while keys != {}
        invariant Valid() && keys <= old(scheduled).Keys
        invariant scheduled == Only(old(scheduled), keys + seen)
        decreases |keys|
      {
        var id :| id in keys;
        OnlyLess(old(scheduled), keys, seen, id);
        if id !in seen { Unschedule(id); }
        keys := keys - {id};
      }
    }

    /** Settle the enabled jobs one after another; gives the ids seen. */
    method SettleJobs(jobs: seq<Job>) returns (seen: set<JobId>)
      requires Valid()
      modifies `scheduled, `live, `nextHandle
      ensures Valid() && Now() == SettleAll(valid, old(Now()), jobs) && seen == Ids(jobs)
    {
      seen := {};
      ghost var start := Now();
      for i := 0 to |jobs|
        invariant Valid() && Now() == SettleAll(valid, start, jobs[..i])
        invariant seen == Ids(jobs[..i])
      {
        assert jobs[..i + 1][..i] == jobs[..i];
        IdsSnoc(jobs, i);
        seen := seen + {jobs[i].id};
        Settle(jobs[i]);
      }
      assert jobs[..|jobs|] == jobs;
    }

    /** Bring the task set in line with the enabled jobs; None is a failed load. */
    method Reconcile(loaded: Option<seq<Job>>)
      requires Valid()
      modifies `scheduled, `live, `nextHandle
      ensures Valid()
      ensures if loaded.None? then Guard() == old(Guard())
              else Some(Guard()) == Fired(valid, old(Guard()), Reconciles(loaded.value))
    {
      if loaded.None? { return; }
      var seen := SettleJobs(loaded.value);
      DropUnseen(seen);
    }

    /** A tick: true when a run begins, false when the previous one is still in flight. */
    method FireBegin(id: JobId) returns (begun: bool)
      modifies `inFlight, `runs
      ensures Some(Guard()) == Fired(valid, old(Guard()), Tick(id))
      ensures begun <==> id !in old(inFlight)
      ensures inFlight == old(inFlight) + {id} && runs == if begun then old(runs) + multiset{id} else old(runs)
    {
      if id in inFlight { return false; }
      inFlight := inFlight + {id};
      runs := runs + multiset{id};
      assert runs[id] == old(runs)[id] + 1;
      begun := true;
    }

    /** The run ends: finished, failed, or dropped because the job was disabled meanwhile. */
    method FireEnd(id: JobId)
      requires id in runs
      modifies `inFlight, `runs
      ensures Some(Guard()) == Fired(valid, old(Guard()), Ends(id))
      ensures id !in inFlight && runs == old(runs) - multiset{id}
    {
      inFlight := inFlight - {id};
      runs := runs - multiset{id};
    }
  }

  // ---- What reconciling computes ----

  /** The scheduled map and the next task handle. */
  datatype Sched = Sched(m: map<JobId, Entry>, next: Handle)

  function Ids(jobs: seq<Job>): set<JobId> { set j | j in jobs :: j.id }

  lemma IdsSnoc(jobs: seq<Job>, i: nat)
    requires i < |jobs|
    ensures Ids(jobs[..i + 1]) == Ids(jobs[..i]) + {jobs[i].id}
  {
    assert jobs[..i + 1] == jobs[..i] + [jobs[i]];
  }

  function Only(m: map<JobId, Entry>, ids: set<JobId>): map<JobId, Entry> {
    map id | id in m && id in ids :: m[id]
  }

  lemma OnlyLess(m: map<JobId, Entry>, keys: set<JobId>, seen: set<JobId>, id: JobId)
    ensures Only(m, keys - {id} + seen) ==
      if id in seen then Only(m, keys + seen) else Only(m, keys + seen) - {id}
  {}

  function SettleOne(valid: string -> bool, s: Sched, job: Job): Sched {
    if job.id in s.m && s.m[job.id].schedule == job.schedule then s
    else if !valid(job.schedule) then s.(m := s.m - {job.id})
    else Sched(s.m[job.id := Entry(s.next, job.schedule)], s.next + 1)
  }

  function SettleAll(valid: string -> bool, s: Sched, jobs: seq<Job>): Sched {
    if jobs == [] then s else SettleOne(valid, SettleAll(valid, s, jobs[..|jobs| - 1]), jobs[|jobs| - 1])
  }

  function Reconciled(valid: string -> bool, s: Sched, jobs: seq<Job>): Sched {
    var r := SettleAll(valid, s, jobs);
    r.(m := Only(r.m, Ids(jobs)))
  }

  ghost predicate AllValid(m: map<JobId, Entry>, valid: string -> bool) {
    forall id :: id in m ==> valid(m[id].schedule)
  }

  /** Job `job` is scheduled at its expression if that is valid, and not at all otherwise. */
  ghost predicate Settled(m: map<JobId, Entry>, job: Job, valid: string -> bool) {
    && (job.id in m <==> valid(job.schedule))
    && (job.id in m ==> m[job.id].schedule == job.schedule)
  }

  /** An unchanged expression keeps its task; any other task is started anew. */
  ghost predicate KeptOrNew(before: Sched, e: Entry, id: JobId) {
    if id in before.m && before.m[id].schedule == e.schedule then e == before.m[id] else e.task >= before.next
  }

  lemma {:induction false} OthersUntouched(valid: string -> bool, s: Sched, jobs: seq<Job>, id: JobId)
    requires id !in Ids(jobs)
    ensures var r := SettleAll(valid, s, jobs);
      r.next >= s.next && (id in r.m <==> id in s.m) && (id in r.m ==> r.m[id] == s.m[id])
  {
    if jobs != [] {
      var init, last := jobs[..|jobs| - 1], jobs[|jobs| - 1];
      assert jobs == init + [last] && last in jobs;
      assert id !in Ids(init) by { assert forall j :: j in init ==> j in jobs; }
      OthersUntouched(valid, s, init, id);
    }
  }

  lemma LastJobSettled(valid: string -> bool, before: Sched, s: Sched, job: Job)
    requires AllValid(before.m, valid) && s.next >= before.next
    requires (job.id in s.m <==> job.id in before.m) && (job.id in s.m ==> s.m[job.id] == before.m[job.id])
    ensures var r := SettleOne(valid, s, job);
      r.next >= before.next && Settled(r.m, job, valid) && (job.id in r.m ==> KeptOrNew(before, r.m[job.id], job.id))
  {}

  /** Job `jobs[i]` after settling the first `n` jobs. */
  lemma {:induction false} JobSettled(valid: string -> bool, s: Sched, jobs: seq<Job>, i: nat, n: nat)
    requires i < n <= |jobs| && DistinctJobs(jobs) && AllValid(s.m, valid)
    ensures var r, job := SettleAll(valid, s, jobs[..n]), jobs[i];
      r.next >= s.next && Settled(r.m, job, valid) && (job.id in r.m ==> KeptOrNew(s, r.m[job.id], job.id))
  {
    SettleUpTo(valid, s, jobs, n);
    if i < n - 1 {
      JobSettled(valid, s, jobs, i, n - 1);
      assert jobs[i].id != jobs[n - 1].id;
    } else {
      assert jobs[i].id !in Ids(jobs[..i]);
      OthersUntouched(valid, s, jobs[..i], jobs[i].id);
      LastJobSettled(valid, s, SettleAll(valid, s, jobs[..i]), jobs[i]);
    }
  }

  lemma SettleUpTo(valid: string -> bool, s: Sched, jobs: seq<Job>, n: nat)
    requires 0 < n <= |jobs|
    ensures SettleAll(valid, s, jobs[..n]) == SettleOne(valid, SettleAll(valid, s, jobs[..n - 1]), jobs[n - 1])
  {
    assert jobs[..n][..n - 1] == jobs[..n - 1];
  }

  lemma EachJobSettled(valid: string -> bool, s: Sched, jobs: seq<Job>, job: Job)
    requires DistinctJobs(jobs) && job in jobs && AllValid(s.m, valid)
    ensures var r := SettleAll(valid, s, jobs);
      r.next >= s.next && Settled(r.m, job, valid) && (job.id in r.m ==> KeptOrNew(s, r.m[job.id], job.id))
  {
    var i :| 0 <= i < |jobs| && jobs[i] == job;
    JobSettled(valid, s, jobs, i, |jobs|);
    assert jobs[..|jobs|] == jobs;
  }

  /** After a successful load the map holds exactly the enabled jobs with a valid expression, at that
      expression; tasks of unchanged jobs are the old ones and all others are new. */
  lemma ReconciledMatches(valid: string -> bool, s: Sched, jobs: seq<Job>)
    requires DistinctJobs(jobs) && AllValid(s.m, valid)
    ensures var r := Reconciled(valid, s, jobs);
      Matches(r.m, jobs, valid) && forall id :: id in r.m ==> KeptOrNew(s, r.m[id], id)
  {
    var r := Reconciled(valid, s, jobs);
    forall job | job in jobs
      ensures Settled(r.m, job, valid) && (job.id in r.m ==> KeptOrNew(s, r.m[job.id], job.id))
    {
      EachJobSettled(valid, s, jobs, job);
    }
    forall id | id in r.m ensures exists job :: job in jobs && job.id == id {}
  }

  /** A second reconcile on the same rows starts nothing and stops nothing. */
  lemma {:induction false} SecondReconcileIsIdle(valid: string -> bool, s: Sched, jobs: seq<Job>)
    requires DistinctJobs(jobs) && AllValid(s.m, valid)
    ensures var r := Reconciled(valid, s, jobs); Reconciled(valid, r, jobs) == r
  {
    var r := Reconciled(valid, s, jobs);
    ReconciledMatches(valid, s, jobs);
    forall job | job in jobs ensures SettleOne(valid, r, job) == r {
      EachJobSettled(valid, s, jobs, job);
      assert job.id in Ids(jobs);
      assert job.id !in r.m ==> r.m - {job.id} == r.m;
    }
    AllIdle(valid, r, jobs);
    assert Only(r.m, Ids(jobs)) == r.m;
  }

  lemma {:induction false} AllIdle(valid: string -> bool, r: Sched, jobs: seq<Job>)
    requires forall job :: job in jobs ==> SettleOne(valid, r, job) == r
    ensures SettleAll(valid, r, jobs) == r
  {
    if jobs != [] {
      assert jobs == jobs[..|jobs| - 1] + [jobs[|jobs| - 1]];
      AllIdle(valid, r, jobs[..|jobs| - 1]);
    }
  }

  // ---- The overlap guard ----

  /** Ticks, reconciles and completions in any order; only a begun run can end. */
  datatype Event = Tick(id: JobId) | Ends(id: JobId) | Reconciles(jobs: seq<Job>)

  /** The scheduled tasks, the guard set, and the runs really in flight. */
  datatype Firing = Firing(s: Sched, inFlight: set<JobId>, runs: multiset<JobId>)

  const Idle := Firing(Sched(map[], 0), {}, multiset{})

  function Fired(valid: string -> bool, f: Firing, ev: Event): Option<Firing> {
    match ev
    case Tick(id) =>
      Some(if id in f.inFlight then f else f.(inFlight := f.inFlight + {id}, runs := f.runs + multiset{id}))
    case Ends(id) =>
      if id in f.runs then Some(f.(inFlight := f.inFlight - {id}, runs := f.runs - multiset{id})) else None
    case Reconciles(jobs) => Some(f.(s := Reconciled(valid, f.s, jobs)))
  }

  function FireAll(valid: string -> bool, evs: seq<Event>): Option<Firing> {
    if evs == [] then Some(Idle)
    else
      match FireAll(valid, evs[..|evs| - 1])
      case None => None
      case Some(f) => Fired(valid, f, evs[|evs| - 1])
  }

  /** In every interleaving a job has at most one run in flight, and the guard set is exactly the
      jobs that have one. */
  lemma {:induction false} NoOverlap(valid: string -> bool, evs: seq<Event>)
    requires FireAll(valid, evs).Some?
    ensures var f := FireAll(valid, evs).value; forall id :: f.runs[id] == if id in f.inFlight then 1 else 0
  {
    if evs != [] { NoOverlap(valid, evs[..|evs| - 1]); }
  }

  /** In every interleaving a tick begins a run of its job exactly when none is in flight, only a begun run
      can end, and nothing else begins or ends one. */
  lemma TickBegins(valid: string -> bool, evs: seq<Event>, id: JobId, jobs: seq<Job>)
    ensures FireAll(valid, evs).Some? ==>
      var f := FireAll(valid, evs).value;
      var ticked, ended, reconciled :=
        Fired(valid, f, Tick(id)), Fired(valid, f, Ends(id)), Fired(valid, f, Reconciles(jobs));
      && ticked.Some? && ticked.value.runs == (if f.runs[id] == 0 then f.runs + multiset{id} else f.runs)
      && (ended.Some? <==> f.runs[id] > 0) && (ended.Some? ==> ended.value.runs == f.runs - multiset{id})
      && reconciled.Some? && reconciled.value.runs == f.runs
  {
    if FireAll(valid, evs).Some? { NoOverlap(valid, evs); }
  }

  /** Job `id` was ticked, and no run of it has ended since. */
  ghost predicate TickedSince(evs: seq<Event>, id: JobId) {
    exists i :: 0 <= i < |evs| && evs[i] == Tick(id) && forall j :: i < j < |evs| ==> evs[j] != Ends(id)
  }

  lemma TickedSinceSnoc(evs: seq<Event>, ev: Event, id: JobId)
    ensures TickedSince(evs + [ev], id) <==> ev == Tick(id) || (ev != Ends(id) && TickedSince(evs, id))
  {
    var all := evs + [ev];
    assert all[|evs|] == ev;
    if TickedSince(evs, id) && ev != Ends(id) {
      var i :| (0 <= i < |evs| && evs[i] == Tick(id) && forall j :: i < j < |evs| ==> evs[j] != Ends(id));
      assert all[i] == Tick(id);
    }
    if TickedSince(all, id) && ev != Tick(id) {
      var i :| (0 <= i < |all| && all[i] == Tick(id) && forall j :: i < j < |all| ==> all[j] != Ends(id));
      assert evs[i] == Tick(id);
      assert forall j :: i < j < |evs| ==> evs[j] == all[j];
    }
  }

  /** What the history says: a job has its one run in flight exactly when it was ticked since the last
      completion. */
  lemma {:induction false} RunsSinceLastEnd(valid: string -> bool, evs: seq<Event>, id: JobId)
    ensures FireAll(valid, evs).Some? ==> FireAll(valid, evs).value.runs[id] == if TickedSince(evs, id) then 1 else 0
  {
    if evs != [] {
      var init, ev := evs[..|evs| - 1], evs[|evs| - 1];
      assert evs == init + [ev];
      RunsSinceLastEnd(valid, init, id);
      TickedSinceSnoc(init, ev, id);
      if FireAll(valid, evs).Some? { NoOverlap(valid, init); }
    }
  }
}
