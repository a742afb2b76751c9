/**
  The elastic worker pool (desktop/src/pool.rs) as atomic steps: what a thread does between
  taking and releasing the mutex is one step, everything else interleaves freely. Timeouts and
  spurious wake-ups may happen at any time.
 */
module Pool {
  type Job = nat

  /** Where a thread is, outside its critical sections. */
  datatype Phase =
    | Spawning               // a submitter is about to create it
    | Starting               // created, not yet at the mutex
    | Busy(job: Job)         // running a job
    | Waiting                // asleep on the condition variable
    | Woken(timedOut: bool)  // awake again, not yet at the mutex
    | Exited

  /** `submitted` and `started` record the order of `submit` and of `pop_front`. */
  datatype State = State(
    jobs: seq<Job>,
    idle: int,
    threads: seq<Phase>,
    submitted: seq<Job>,
    started: seq<Job>,
    failures: nat)

  const INITIAL := State([], 0, [], [], [], 0)

  datatype Event =
    | Submit(job: Job, wake: nat)    // `wake` is whom notify_one picks, if it waits
    | Spawned(thread: nat)
    | SpawnFailed(thread: nat, wake: nat)
    | Lock(thread: nat)              // an awake worker's critical section
    | Timeout(thread: nat)
    | Spurious(thread: nat)

  // ----- The critical sections -----

  function Notify(threads: seq<Phase>, wake: nat): seq<Phase> {
    if wake < |threads| && threads[wake].Waiting? then threads[wake := Woken(false)] else threads
  }

  /** notify_one wakes somebody if anybody waits. */
  predicate Notifiable(threads: seq<Phase>, wake: nat) {
    (wake < |threads| && threads[wake].Waiting?) || forall i :: 0 <= i < |threads| ==> !threads[i].Waiting?
  }

  function SubmitStep(s: State, job: Job, wake: nat): State {
    var s := s.(jobs := s.jobs + [job], submitted := s.submitted + [job]);
    if |s.jobs| <= s.idle then s.(threads := Notify(s.threads, wake))
    else s.(threads := s.threads + [Spawning])
  }

  /** From the loop head: the next job, or to sleep. */
  function TakeOrWait(s: State, thread: nat): State
    requires thread < |s.threads|
  {
    if s.jobs != [] then
      s.(jobs := s.jobs[1..], started := s.started + [s.jobs[0]], threads := s.threads[thread := Busy(s.jobs[0])])
    else s.(idle := s.idle + 1, threads := s.threads[thread := Waiting])
  }

  function LockStep(s: State, thread: nat): State
    requires thread < |s.threads|
  {
    match s.threads[thread]
    case Starting => TakeOrWait(s, thread)
    case Busy(_) => TakeOrWait(s, thread)
    case Woken(timedOut) =>
      var s := s.(idle := s.idle - 1);
      if timedOut && s.jobs == [] then s.(threads := s.threads[thread := Exited]) else TakeOrWait(s, thread)
    case _ => s
  }

  /** Events that cannot happen in a state leave it alone. */
  function Step(s: State, e: Event): State {
    match e
    case Submit(job, wake) => if Notifiable(s.threads, wake) then SubmitStep(s, job, wake) else s
    case Spawned(i) =>
      if i < |s.threads| && s.threads[i].Spawning? then s.(threads := s.threads[i := Starting]) else s
    case SpawnFailed(i, wake) =>
      if i < |s.threads| && s.threads[i].Spawning? && Notifiable(s.threads[i := Exited], wake)
      then s.(threads := Notify(s.threads[i := Exited], wake), failures := s.failures + 1) else s
    case Lock(i) => if i < |s.threads| then LockStep(s, i) else s
    case Timeout(i) =>
      if i < |s.threads| && s.threads[i].Waiting? then s.(threads := s.threads[i := Woken(true)]) else s
    case Spurious(i) =>
      if i < |s.threads| && s.threads[i].Waiting? then s.(threads := s.threads[i := Woken(false)]) else s
  }

  function Run(s: State, events: seq<Event>): State {
    if events == [] then s else Step(Run(s, events[..|events| - 1]), events[|events| - 1])
  }

  // ----- Counting threads -----

  /** On its way to the mutex without finishing a job first. */
  predicate Coming(p: Phase) { p.Spawning? || p.Starting? || p.Woken? }

  /** Counted in `idle`. */
  predicate Idle(p: Phase) { p.Waiting? || p.Woken? }

  function ComingCount(ts: seq<Phase>): nat {
    if ts == [] then 0 else ComingCount(ts[..|ts| - 1]) + if Coming(ts[|ts| - 1]) then 1 else 0
  }

  function IdleCount(ts: seq<Phase>): nat {
    if ts == [] then 0 else IdleCount(ts[..|ts| - 1]) + if Idle(ts[|ts| - 1]) then 1 else 0
  }

  function One(b: bool): int { if b then 1 else 0 }

  lemma {:induction false} CountUpdate(ts: seq<Phase>, i: nat, p: Phase)
    requires i < |ts|
    ensures ComingCount(ts[i := p]) == ComingCount(ts) - One(Coming(ts[i])) + One(Coming(p))
    ensures IdleCount(ts[i := p]) == IdleCount(ts) - One(Idle(ts[i])) + One(Idle(p))
  {
    var last := |ts| - 1;
    if i == last {
      assert ts[i := p][..last] == ts[..last];
    } else {
      CountUpdate(ts[..last], i, p);
      assert ts[i := p][..last] == ts[..last][i := p];
    }
  }

  lemma CountAppend(ts: seq<Phase>, p: Phase)
    ensures ComingCount(ts + [p]) == ComingCount(ts) + One(Coming(p))
    ensures IdleCount(ts + [p]) == IdleCount(ts) + One(Idle(p))
  {
    assert (ts + [p])[..|ts|] == ts;
  }

  /** With nobody asleep, every idle thread is already coming. */
  lemma {:induction false} IdleAreComing(ts: seq<Phase>)
    requires forall i :: 0 <= i < |ts| ==> !ts[i].Waiting?
    ensures IdleCount(ts) <= ComingCount(ts)
  {
    if ts != [] { IdleAreComing(ts[..|ts| - 1]); }
  }

  /** A positive count has a witness. */
  lemma {:induction false} SomeComing(ts: seq<Phase>) returns (i: nat)
    requires ComingCount(ts) > 0
    ensures i < |ts| && Coming(ts[i])
  {
    var last := |ts| - 1;
    if Coming(ts[last]) { return last; }
    i := SomeComing(ts[..last]);
  }

  // ----- The invariant -----

  /**
    Each queued job has a thread of its own that is coming without waiting for a busy one, up
    to the failed thread creations; jobs leave the queue in order and exactly once.
   */
  ghost predicate Valid(s: State) {
    && s.idle == IdleCount(s.threads)
    && |s.jobs| <= ComingCount(s.threads) + s.failures
    && s.submitted == s.started + s.jobs
  }

  lemma NotifyCounts(ts: seq<Phase>, wake: nat)
    requires Notifiable(ts, wake)
    ensures IdleCount(Notify(ts, wake)) == IdleCount(ts)
    ensures || ComingCount(Notify(ts, wake)) == ComingCount(ts) + 1
            || IdleCount(ts) <= ComingCount(Notify(ts, wake)) == ComingCount(ts)
  {
    if wake < |ts| && ts[wake].Waiting? { CountUpdate(ts, wake, Woken(false)); } else { IdleAreComing(ts); }
  }

  lemma SubmitKeepsValid(s: State, job: Job, wake: nat)
    requires Valid(s) && Notifiable(s.threads, wake)
    ensures Valid(SubmitStep(s, job, wake))
  {
    NotifyCounts(s.threads, wake);
    CountAppend(s.threads, Spawning);
    assert s.started + (s.jobs + [job]) == (s.started + s.jobs) + [job];
  }

  lemma TakeKeepsOrder(s: State)
    requires s.submitted == s.started + s.jobs && s.jobs != []
    ensures s.submitted == (s.started + [s.jobs[0]]) + s.jobs[1..]
  {
    assert s.jobs == [s.jobs[0]] + s.jobs[1..];
  }

  lemma LockKeepsValid(s: State, i: nat)
    requires Valid(s) && i < |s.threads|
    ensures Valid(LockStep(s, i))
  {
    CountUpdate(s.threads, i, Waiting);
    CountUpdate(s.threads, i, Exited);
    if s.jobs != [] {
      CountUpdate(s.threads, i, Busy(s.jobs[0]));
      TakeKeepsOrder(s);
    }
  }

  lemma StepKeepsValid(s: State, e: Event)
    requires Valid(s)
    ensures Valid(Step(s, e))
  {
    match e {
      case Submit(job, wake) => if Notifiable(s.threads, wake) { SubmitKeepsValid(s, job, wake); }
      case Spawned(i) => if i < |s.threads| { CountUpdate(s.threads, i, Starting); }
      case SpawnFailed(i, wake) =>
        if i < |s.threads| && s.threads[i].Spawning? && Notifiable(s.threads[i := Exited], wake) {
          CountUpdate(s.threads, i, Exited);
          NotifyCounts(s.threads[i := Exited], wake);
        }
      case Lock(i) => if i < |s.threads| { LockKeepsValid(s, i); }
      case Timeout(i) => if i < |s.threads| { CountUpdate(s.threads, i, Woken(true)); }
      case Spurious(i) => if i < |s.threads| { CountUpdate(s.threads, i, Woken(false)); }
    }
  }

  lemma {:induction false} RunValid(events: seq<Event>)
    ensures Valid(Run(INITIAL, events))
  {
    if events != [] {
      RunValid(events[..|events| - 1]);
      StepKeepsValid(Run(INITIAL, events[..|events| - 1]), events[|events| - 1]);
    }
  }

  // ----- No job waits behind a busy worker -----

  /** Every queued job has a thread coming for it; jobs leave in order, each once. */
  ghost predicate Promise(s: State) {
    && s.idle == IdleCount(s.threads)
    && |s.jobs| <= ComingCount(s.threads)
    && s.submitted == s.started + s.jobs
  }

  predicate SomeWaiting(ts: seq<Phase>) { exists i :: 0 <= i < |ts| && ts[i].Waiting? }

  /** A failed creation is harmless if somebody waits to be woken instead, or a thread is to spare. */
  predicate Harmless(s: State, e: Event) {
    match e
    case SpawnFailed(i, wake) =>
      i < |s.threads| && s.threads[i].Spawning? && Notifiable(s.threads[i := Exited], wake) ==>
        SomeWaiting(s.threads) || |s.jobs| < ComingCount(s.threads)
    case _ => true
  }

  /** Nothing but a failed thread creation can break the promise. */
  lemma PromiseKept(s: State, e: Event)
    requires Promise(s) && !e.SpawnFailed?
    ensures Promise(Step(s, e))
  {
    var t := s.(failures := 0);
    StepKeepsValid(t, e);
    assert Step(t, e) == Step(s, e).(failures := 0);
  }

  /** And a failed creation breaks it exactly if nobody waits and no thread is to spare. */
  lemma FailureDecides(s: State, i: nat, wake: nat)
    requires Promise(s)
    requires i < |s.threads| && s.threads[i].Spawning? && Notifiable(s.threads[i := Exited], wake)
    ensures Promise(Step(s, SpawnFailed(i, wake))) <==> Harmless(s, SpawnFailed(i, wake))
  {
    var left := s.threads[i := Exited];
    CountUpdate(s.threads, i, Exited);
    if wake < |left| && left[wake].Waiting? {
      assert s.threads[wake].Waiting?;
      CountUpdate(left, wake, Woken(false));
    } else {
      assert forall k :: 0 <= k < |left| ==> k == i || left[k] == s.threads[k];
    }
  }

  /** Every failed creation of the list is harmless at its moment. */
  ghost predicate AllHarmless(s: State, events: seq<Event>) {
    events == [] ||
    (AllHarmless(s, events[..|events| - 1]) && Harmless(Run(s, events[..|events| - 1]), events[|events| - 1]))
  }

  ghost predicate AlwaysPromised(s: State, events: seq<Event>) {
    forall n :: 0 <= n <= |events| ==> Promise(Run(s, events[..n]))
  }

  /**
    Over all interleavings: from any state that keeps the promise, whatever failed before, it is
    kept at every moment exactly if every failed thread creation is harmless.
   */
  lemma {:induction false} NoJobWaitsBehindBusy(s: State, events: seq<Event>)
    requires Promise(s)
    ensures AllHarmless(s, events) <==> AlwaysPromised(s, events)
  {
    hide Promise, Step, Harmless;
    if events == [] {
      assert forall n :: 0 <= n <= |events| ==> events[..n] == [];
    } else {
      var front, e := events[..|events| - 1], events[|events| - 1];
      NoJobWaitsBehindBusy(s, front);
      assert forall n :: 0 <= n <= |front| ==> events[..n] == front[..n];
      assert events[..|events|] == events && front[..|front|] == front;
      if AlwaysPromised(s, front) { OneStep(Run(s, front), e); }
      assert AlwaysPromised(s, events) ==> AlwaysPromised(s, front) by {
        if AlwaysPromised(s, events) {
          forall n | 0 <= n <= |front| ensures Promise(Run(s, front[..n])) { assert Promise(Run(s, events[..n])); }
        }
      }
    }
  }

  lemma OneStep(s: State, e: Event)
    requires Promise(s)
    ensures Promise(Step(s, e)) <==> Harmless(s, e)
  {
    hide Promise;
    if e.SpawnFailed? {
      var i, wake := e.thread, e.wake;
      if i < |s.threads| && s.threads[i].Spawning? && Notifiable(s.threads[i := Exited], wake) {
        FailureDecides(s, i, wake);
      }
    } else {
      PromiseKept(s, e);
    }
  }

  /** The promise holds at the start, and again whenever the queue is empty. */
  lemma PromiseRestored(events: seq<Event>)
    requires Run(INITIAL, events).jobs == []
    ensures Promise(Run(INITIAL, events))
  {
    RunValid(events);
  }

  lemma RunNext(s: State, events: seq<Event>, e: Event)
    ensures Run(s, events + [e]) == Step(Run(s, events), e)
  {
    assert (events + [e])[..|events|] == events;
  }

  /** A failed thread creation breaks the promise: the second job waits behind the busy worker. */
  lemma FailureStrandsJob() returns (events: seq<Event>)
    ensures var s := Run(INITIAL, events);
            && s.failures == 1 && s.threads == [Busy(0), Exited]
            && s.jobs == [1] && |s.jobs| > ComingCount(s.threads)
  {
    events := [];
    var s := INITIAL;
    for i := 0 to 5
      invariant s == Run(INITIAL, events)
      invariant i == 0 ==> s == INITIAL
      invariant i == 1 ==> s == State([0], 0, [Spawning], [0], [], 0)
      invariant i == 2 ==> s == State([0], 0, [Starting], [0], [], 0)
      invariant i == 3 ==> s == State([], 0, [Busy(0)], [0], [0], 0)
      invariant i == 4 ==> s == State([1], 0, [Busy(0), Spawning], [0, 1], [0], 0)
      invariant i == 5 ==> s == State([1], 0, [Busy(0), Exited], [0, 1], [0], 1)
    {
      var e := if i == 0 then Submit(0, 0) else if i == 1 then Spawned(0) else if i == 2 then Lock(0)
               else if i == 3 then Submit(1, 0) else SpawnFailed(1, 0);
      RunNext(INITIAL, events, e);
      events := events + [e];
      s := Step(s, e);
    }
    assert ComingCount(s.threads) == ComingCount(s.threads[..1]) && ComingCount(s.threads[..1]) == ComingCount([]);
  }

  /** Not a step of a busy worker. */
  predicate LeavesBusyAlone(s: State, e: Event) {
    match e
    case Lock(i) => i < |s.threads| && !s.threads[i].Busy?
    case Spawned(i) => true
    case _ => false
  }

  /** Every step of the list leaves the workers busy at that moment alone. */
  predicate AllLeaveBusyAlone(s: State, events: seq<Event>) {
    events == [] ||
    (AllLeaveBusyAlone(s, events[..|events| - 1])
     && LeavesBusyAlone(Run(s, events[..|events| - 1]), events[|events| - 1]))
  }

  /** The next job gets started by a thread that was not busy. */
  lemma StartNext(s: State) returns (events: seq<Event>)
    requires Promise(s) && s.jobs != []
    ensures AllLeaveBusyAlone(s, events)
    ensures Promise(Run(s, events))
    ensures Run(s, events).started == s.started + [s.jobs[0]] && Run(s, events).jobs == s.jobs[1..]
    ensures Run(s, events).submitted == s.submitted
  {
    var i := SomeComing(s.threads);
    if s.threads[i].Spawning? {
      var t := Step(s, Spawned(i));
      PromiseKept(s, Spawned(i));
      PromiseKept(t, Lock(i));
      events := [Spawned(i), Lock(i)];
      RunOne(s, Spawned(i));
      assert events[..1] == [Spawned(i)] && events[1] == Lock(i);
      assert Run(s, events) == Step(t, Lock(i));
    } else {
      PromiseKept(s, Lock(i));
      events := [Lock(i)];
      RunOne(s, Lock(i));
    }
  }

  lemma RunOne(s: State, e: Event)
    ensures Run(s, [e]) == Step(s, e)
    ensures AllLeaveBusyAlone(s, [e]) == LeavesBusyAlone(s, e)
  {
    assert [e][..0] == [] && Run(s, []) == s;
  }

  lemma {:induction false} RunAppend(s: State, a: seq<Event>, b: seq<Event>)
    ensures Run(s, a + b) == Run(Run(s, a), b)
    ensures AllLeaveBusyAlone(s, a) && AllLeaveBusyAlone(Run(s, a), b) ==> AllLeaveBusyAlone(s, a + b)
  {
    if b == [] {
      assert a + b == a;
    } else {
      var front := b[..|b| - 1];
      assert (a + b)[..|a + b| - 1] == a + front;
      RunAppend(s, a, front);
    }
  }

  /**
    From every state that keeps the promise, the whole queue can be started, in order, without
    a single step of a busy worker.
   */
  lemma {:induction false} QueueDrainsPastBusy(s: State) returns (events: seq<Event>)
    requires Promise(s)
    ensures AllLeaveBusyAlone(s, events)
    ensures Run(s, events).jobs == [] && Run(s, events).started == s.submitted
    decreases |s.jobs|
  {
    if s.jobs == [] { return []; }
    var first := StartNext(s);
    var rest := QueueDrainsPastBusy(Run(s, first));
    RunAppend(s, first, rest);
    events := first + rest;
  }

  // ----- The code of the two critical sections -----

  class Shared {
    var jobs: seq<Job>
    var idle: int

    constructor ()
      ensures jobs == [] && idle == 0
    {
      jobs, idle := [], 0;
    }

    /** `submit`: true if a thread has to be created, false if one is notified. */
    method Submit(job: Job) returns (spawn: bool)
      modifies this
      ensures jobs == old(jobs) + [job] && idle == old(idle)
      ensures spawn <==> |old(jobs)| + 1 > old(idle)
      ensures forall s: State, wake: nat :: s.jobs == old(jobs) && s.idle == idle ==>
                SubmitStep(s, job, wake).jobs == jobs && SubmitStep(s, job, wake).idle == idle
                && SubmitStep(s, job, wake).threads == if spawn then s.threads + [Spawning] else Notify(s.threads, wake)
    {
      jobs := jobs + [job];
      spawn := !(|jobs| <= idle);
    }

    /** One round of `worker` under the mutex, from waking up (or arriving) to letting go. */
    method WorkerRound(woken: bool, timedOut: bool) returns (next: Phase)
      modifies this
      ensures woken && timedOut && old(jobs) == [] ==> next == Exited && jobs == [] && idle == old(idle) - 1
      ensures !(woken && timedOut) && old(jobs) == [] ==>
                next == Waiting && jobs == [] && idle == old(idle) + if woken then 0 else 1
      ensures old(jobs) != [] ==>
                && next.Busy? && [next.job] + jobs == old(jobs)
                && idle == old(idle) - if woken then 1 else 0
      ensures forall s: State, i: nat ::
                i < |s.threads| && s.jobs == old(jobs) && s.idle == old(idle)
                && (if woken then s.threads[i] == Woken(timedOut) else s.threads[i].Starting? || s.threads[i].Busy?) ==>
                  LockStep(s, i).jobs == jobs && LockStep(s, i).idle == idle
                  && LockStep(s, i).threads == s.threads[i := next]
    {
      if woken {
        idle := idle - 1;
        if timedOut && jobs == [] { return Exited; }
      }
      if jobs != [] {
        next := Busy(jobs[0]);
        jobs := jobs[1..];
      } else {
        idle := idle + 1;
        next := Waiting;
      }
    }
  }
}
