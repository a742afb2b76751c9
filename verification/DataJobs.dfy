/**
  Data jobs (desktop/src/backend.rs): the host counts the active jobs of an id and forwards a
  cancellation only while one is active, so that no idle sentinel can outlive the jobs.
 */
module DataJobs {
  import opened Common
  import opened Cancellation

  function Count(active: map<string, nat>, id: string): nat { if id in active then active[id] else 0 }

  /** The host's counts are the numbers of jobs not finished yet. */
  ghost predicate Counted(active: map<string, nat>, live: set<RequestLease>) {
    && (forall id :: Count(active, id) == |HeldOf(live, id)|)
    && (forall id :: id in active ==> active[id] > 0)
  }

  /** No slot, cancelled or not, stays behind without an active job. */
  ghost predicate NoSentinels(active: map<string, nat>, v: Slots) {
    forall id :: id in v ==> id in active
  }

  lemma HeldPlus(live: set<RequestLease>, l: RequestLease, id: string)
    requires l !in live
    ensures |HeldOf(live + {l}, id)| == |HeldOf(live, id)| + if id == l.id then 1 else 0
  {
    assert HeldOf(live + {l}, id) == if id == l.id then HeldOf(live, id) + {l} else HeldOf(live, id);
  }

  lemma CountedPlus(active: map<string, nat>, live: set<RequestLease>, l: RequestLease)
    requires Counted(active, live) && l !in live
    ensures Counted(active[l.id := Count(active, l.id) + 1], live + {l})
  {
    forall id ensures Count(active[l.id := Count(active, l.id) + 1], id) == |HeldOf(live + {l}, id)| {
      HeldPlus(live, l, id);
    }
  }

  function Finished(active: map<string, nat>, id: string): map<string, nat>
    requires id in active
  {
    if active[id] > 1 then active[id := active[id] - 1] else active - {id}
  }

  lemma CountedMinus(active: map<string, nat>, live: set<RequestLease>, l: RequestLease)
    requires Counted(active, live) && l in live
    ensures l.id in active
    ensures Counted(Finished(active, l.id), live - {l})
  {
    var rest := live - {l};
    assert live == rest + {l};
    HeldPlus(rest, l, l.id);
    var after := Finished(active, l.id);
    forall id ensures Count(after, id) == |HeldOf(rest, id)| { HeldPlus(rest, l, id); }
  }

  /** An open registry's counts and the host's agree, so a slot about to go goes in both. */
  lemma ReleaseKeeps(active: map<string, nat>, s: Snapshot, l: RequestLease)
    requires ValidSnapshot(s) && l in s.live && Counted(active, s.live) && NoSentinels(active, ViewOf(s))
    ensures l.id in active
    ensures NoSentinels(Finished(active, l.id),
                        ReleasedOne(ViewOf(s), l.id))
  {
    CountedMinus(active, s.live, l);
  }

  lemma LiveAreLeases(jobs: CancellationRegistry)
    ensures jobs.Live() <= jobs.leases
  {}

  /** The counts after a call of `finish_data_job`, whatever it is given. */
  function CountedDown(active: map<string, nat>, id: string): map<string, nat> {
    if id in active then Finished(active, id) else active
  }

  /** Another id counted down than the lease's own, or a lease counted down twice, is one too many. */
  lemma Miscounted(active: map<string, nat>, live: set<RequestLease>, id: string, l: RequestLease)
    requires Counted(active, live)
    requires if l in live then l.id != id else id in active
    ensures !Counted(CountedDown(active, id), live - {l})
  {
    var rest, after := live - {l}, CountedDown(active, id);
    if l in live {
      assert live == rest + {l};
      HeldPlus(rest, l, l.id);
      assert Count(after, l.id) == Count(active, l.id) != |HeldOf(rest, l.id)|;
    } else {
      assert live == rest;
      assert Count(after, id) == Count(active, id) - 1 != |HeldOf(rest, id)|;
    }
  }

  lemma BeforeFinish(b: Backend, id: string, lease: RequestLease)
    requires b.Valid() && lease in b.jobs.leases
    ensures forall k :: k in b.active ==> b.active[k] > 0
    ensures var after, live := CountedDown(b.active, id), b.jobs.Live() - {lease};
            var v := if lease.released then b.jobs.View() else ReleasedOne(b.jobs.View(), lease.id);
            if (if lease.released then id !in b.active else lease.id == id)
            then Counted(after, live) && NoSentinels(after, v)
            else !Counted(after, live)
  {
    hide ValidSnapshot, ViewOf;
    if lease.released {
      assert b.jobs.Live() - {lease} == b.jobs.Live();
      if id in b.active { Miscounted(b.active, b.jobs.Live(), id, lease); }
    } else {
      assert lease in b.jobs.Live();
      if lease.id == id {
        CountedMinus(b.active, b.jobs.Live(), lease);
        ReleaseKeeps(b.active, b.jobs.Snap(), lease);
      } else {
        Miscounted(b.active, b.jobs.Live(), id, lease);
      }
    }
  }

  class Backend {
    const jobs: CancellationRegistry
    var active: map<string, nat>

    ghost predicate Valid()
      reads this, jobs, jobs.leases, jobs.flags
    {
      && jobs.Valid()
      && Counted(active, jobs.Live())
      && NoSentinels(active, jobs.View())
    }

    constructor ()
      ensures Valid() && fresh(jobs) && active == map[] && jobs.leases == {} && jobs.flags == {}
    {
      jobs := new CancellationRegistry();
      active := map[];
    }

    /** A job acquired while none with its id is active never starts cancelled. */
    method AcquireDataJob(id: string) returns (r: Result<RequestLease, CancellationError>)
      requires Valid()
      modifies this, jobs
      ensures Valid() && fresh(jobs.flags - old(jobs.flags))
      ensures r.Err? <==> old(jobs.closed)
      ensures r.Err? ==> active == old(active)
      ensures r.Ok? ==>
                && r.value.id == id && !r.value.released && r.value in jobs.leases
                && active == old(active)[id := Count(old(active), id) + 1]
                && jobs.View() == Acquired(old(jobs.View()), id)
                && (id !in old(active) ==> !r.value.cancelled.value)
    {
      hide CancellationRegistry.Valid, CancellationRegistry.View, CancellationRegistry.Live, Counted;
      ghost var live := jobs.Live();
      LiveAreLeases(jobs);
      r := jobs.Acquire(id);
      if r.Ok? {
        CountedPlus(active, live, r.value);
        active := active[id := Count(active, id) + 1];
      }
    }

    /**
      Releases a lease and counts its job down. The counts stay right for the first call with a
      lease and its id; a later call does no harm only while no job with that id is active.
     */
    method FinishDataJob(id: string, lease: RequestLease)
      requires Valid() && lease in jobs.leases
      modifies this, jobs, lease
      ensures jobs.Valid() && lease.released && jobs.flags == old(jobs.flags) && jobs.leases == old(jobs.leases)
      ensures jobs.View() == if old(lease.released) then old(jobs.View()) else ReleasedOne(old(jobs.View()), lease.id)
      ensures Count(active, id) == if Count(old(active), id) > 0 then Count(old(active), id) - 1 else 0
      ensures forall k :: k != id ==> Count(active, k) == Count(old(active), k)
      ensures Valid() <==> if old(lease.released) then id !in old(active) else lease.id == id
    {
      hide CancellationRegistry.Valid, CancellationRegistry.View, CancellationRegistry.Live, Counted, NoSentinels;
      ghost var was := active;
      BeforeFinish(this, id, lease);
      jobs.Release(lease);
      var count := if id in active then active[id] else 1;
      var remaining := if count > 0 then count - 1 else 0;
      if remaining > 0 {
        active := active[id := remaining];
      } else {
        active := active - {id};
      }
      assert active == CountedDown(was, id);
    }

    /** A cancellation reaches active jobs only; for other ids it leaves no trace. */
    method CancelDataJob(id: string) returns (r: Result<(), CancellationError>)
      requires Valid()
      modifies jobs, jobs.flags
      ensures Valid() && active == old(active) && fresh(jobs.flags - old(jobs.flags))
      ensures id !in active ==> r == Ok(()) && jobs.View() == old(jobs.View())
      ensures id in active && old(jobs.closed) ==> r == Err(RegistryClosed) && jobs.View() == old(jobs.View())
      ensures id in active && !old(jobs.closed) ==> r == Ok(()) && jobs.View() == CancelledMany(old(jobs.View()), [id])
    {
      hide CancellationRegistry.Valid, CancellationRegistry.View, CancellationRegistry.Live, Counted;
      if id !in active { return Ok(()); }
      ghost var v := jobs.View();
      CancelledManyIs(v, [id]);
      r := jobs.CancelMany([id]);
    }
  }
}
