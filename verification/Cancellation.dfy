/**
  Request cancellation (core/src/cancellation.rs): a registry of reference-counted entries whose
  cancellation flags are shared with the leases handed out, and the data jobs of
  desktop/src/backend.rs that rely on it.
 */
module Cancellation {
  import opened Common

  // ----- What the registry shows: a slot per known id -----

  datatype Slot = Slot(cancelled: bool, references: nat)

  type Slots = map<string, Slot>

  function SlotOf(v: Slots, id: string): Slot { if id in v then v[id] else Slot(false, 0) }

  /** Untracked requests have the empty id and no slot. */
  function Acquired(v: Slots, id: string): Slots {
    if |id| == 0 then v
    else v[id := SlotOf(v, id).(references := SlotOf(v, id).references + 1)]
  }

  function CancelledOne(v: Slots, id: string): Slots {
    if |id| == 0 then v else v[id := SlotOf(v, id).(cancelled := true)]
  }

  function CancelledMany(v: Slots, ids: seq<string>): Slots {
    if ids == [] then v else CancelledOne(CancelledMany(v, ids[..|ids| - 1]), ids[|ids| - 1])
  }

  function ResetOne(v: Slots, id: string): Slots {
    if id in v && v[id].references == 0 then v - {id} else v
  }

  function ResetMany(v: Slots, ids: seq<string>): Slots {
    if ids == [] then v else ResetOne(ResetMany(v, ids[..|ids| - 1]), ids[|ids| - 1])
  }

  function ReleasedOne(v: Slots, id: string): Slots {
    if id !in v then v
    else if v[id].references <= 1 then v - {id}
    else v[id := v[id].(references := v[id].references - 1)]
  }

  function Active(v: Slots): set<string> { set id | id in v && v[id].references > 0 }

  function ActiveCancelled(v: Slots): Slots {
    map id | id in v :: if v[id].references > 0 then v[id].(cancelled := true) else v[id]
  }

  // ----- Laws of the slots -----

  /** Exactly the ids with leases are active; cancelling them changes their flag and nothing else. */
  lemma ActiveIs(v: Slots)
    ensures forall id :: id in Active(v) <==> id in v && v[id].references > 0
    ensures ActiveCancelled(v).Keys == v.Keys
    ensures forall id :: id in v ==>
              && ActiveCancelled(v)[id].references == v[id].references
              && (ActiveCancelled(v)[id].cancelled <==> v[id].cancelled || v[id].references > 0)
  {}

  /** A batch of cancellations sets exactly the named ids and creates sentinels for unknown ones. */
  lemma {:induction false} CancelledManyIs(v: Slots, ids: seq<string>)
    ensures CancelledMany(v, ids).Keys == v.Keys + (set id | id in ids && |id| > 0)
    ensures forall id :: id in CancelledMany(v, ids) ==>
              CancelledMany(v, ids)[id] ==
              if id in ids && |id| > 0 then SlotOf(v, id).(cancelled := true) else v[id]
  {
    if ids != [] {
      var front, last := ids[..|ids| - 1], ids[|ids| - 1];
      CancelledManyIs(v, front);
      assert ids == front + [last];
    }
  }

  /** A batch reset forgets exactly the selected idle sentinels, in any order and multiplicity. */
  lemma {:induction false} ResetManyIs(v: Slots, ids: seq<string>)
    ensures ResetMany(v, ids) == v - (set id | id in ids && id in v && v[id].references == 0)
  {
    if ids != [] {
      var front, last := ids[..|ids| - 1], ids[|ids| - 1];
      ResetManyIs(v, front);
      assert ids == front + [last];
      var gone := set id | id in front && id in v && v[id].references == 0;
      assert ResetMany(v, front) == v - gone;
    }
  }

  function AcquiredTimes(v: Slots, id: string, n: nat): Slots {
    if n == 0 then v else Acquired(AcquiredTimes(v, id, n - 1), id)
  }

  function ReleasedTimes(v: Slots, id: string, n: nat): Slots {
    if n == 0 then v else ReleasedOne(ReleasedTimes(v, id, n - 1), id)
  }

  lemma {:induction false} AcquiredTimesIs(v: Slots, id: string, n: nat)
    requires |id| > 0 && n > 0
    ensures AcquiredTimes(v, id, n) == v[id := SlotOf(v, id).(references := SlotOf(v, id).references + n)]
  {
    if n > 1 { AcquiredTimesIs(v, id, n - 1); }
  }

  lemma {:induction false} ReleasedTimesIs(v: Slots, id: string, n: nat)
    requires id in v && n <= v[id].references && n > 0
    ensures ReleasedTimes(v, id, n) ==
            if n == v[id].references then v - {id} else v[id := v[id].(references := v[id].references - n)]
  {
    if n > 1 { ReleasedTimesIs(v, id, n - 1); }
  }

  /**
    A retry starts clean: once every lease of a cancelled request is released, the next one
    acquired is not cancelled; while one is still held, it is.
   */
  lemma RetryStartsClean(v: Slots, id: string, n: nat, released: nat)
    requires |id| > 0 && id !in v && 0 < released <= n
    ensures var cancelled := CancelledOne(AcquiredTimes(v, id, n), id);
            SlotOf(Acquired(ReleasedTimes(cancelled, id, released), id), id) ==
            if released == n then Slot(false, 1) else Slot(true, n - released + 1)
  {
    AcquiredTimesIs(v, id, n);
    var cancelled := CancelledOne(AcquiredTimes(v, id, n), id);
    ReleasedTimesIs(cancelled, id, released);
  }

  // ----- Shared state on the heap -----

  datatype CancellationError = RegistryClosed | LeaseReleased | RequestCancelled

  /** The atomic flag an entry shares with its leases. */
  class Flag {
    var value: bool

    constructor ()
      ensures !value
    {
      value := false;
    }
  }

  class RequestLease {
    const id: string
    const cancelled: Flag
    var released: bool

    constructor (id: string, cancelled: Flag)
      ensures this.id == id && this.cancelled == cancelled && !released
    {
      this.id, this.cancelled, released := id, cancelled, false;
    }
  }

  datatype Entry = Entry(cancelled: Flag, references: nat)

  // ----- Snapshots: the registry and its shared objects as values -----

  /** `live` are the unreleased leases, `values` the current value of every flag. */
  datatype Snapshot = Snapshot(
    closed: bool,
    entries: map<string, Entry>,
    leases: set<RequestLease>,
    live: set<RequestLease>,
    values: map<Flag, bool>)

  ghost function HeldOf(live: set<RequestLease>, id: string): set<RequestLease> {
    set l | l in live && l.id == id
  }

  ghost predicate Tracked(l: RequestLease) { |l.id| > 0 }

  /** Entries have flags of their own; untracked leases have flags nobody sets. */
  ghost predicate ValidFlags(s: Snapshot) {
    && (forall id :: id in s.entries ==> |id| > 0 && s.entries[id].cancelled in s.values)
    && (forall l :: l in s.leases ==> l.cancelled in s.values)
    && (forall a, b :: a in s.entries && b in s.entries && s.entries[a].cancelled == s.entries[b].cancelled ==> a == b)
    && (forall l :: l in s.leases && !Tracked(l) ==> !s.values[l.cancelled])
    && (forall l, id :: l in s.leases && !Tracked(l) && id in s.entries ==> s.entries[id].cancelled != l.cancelled)
  }

  /** Counts are the numbers of unreleased leases, which all share their entry's flag. */
  ghost predicate Accounted(s: Snapshot) {
    && (forall id :: id in s.entries ==> s.entries[id].references == |HeldOf(s.live, id)|)
    && (forall l :: l in s.live && Tracked(l) ==> l.id in s.entries && s.entries[l.id].cancelled == l.cancelled)
  }

  ghost predicate ValidSnapshot(s: Snapshot) {
    && s.live <= s.leases
    && ValidFlags(s)
    && (s.closed ==> s.entries == map[])
    && (!s.closed ==> Accounted(s))
  }

  ghost function ViewOf(s: Snapshot): Slots
    requires ValidFlags(s)
  {
    map id | id in s.entries :: Slot(s.values[s.entries[id].cancelled], s.entries[id].references)
  }

  lemma NobodyHolds(s: Snapshot, id: string)
    requires Accounted(s) && |id| > 0 && (id !in s.entries || s.entries[id].references == 0)
    ensures HeldOf(s.live, id) == {}
  {
    if l :| l in HeldOf(s.live, id) {
      assert Tracked(l) && l.id in s.entries;
      assert |HeldOf(s.live, id)| == 0;
    }
  }

  ghost function WithLease(s: Snapshot, l: RequestLease): Snapshot {
    var known := l.id in s.entries;
    s.(entries := if !Tracked(l) then s.entries
                  else s.entries[l.id := Entry(l.cancelled, if known then s.entries[l.id].references + 1 else 1)],
       leases := s.leases + {l}, live := s.live + {l},
       values := if known then s.values else s.values[l.cancelled := false])
  }

  lemma HeldWith(s: Snapshot, l: RequestLease, id: string)
    requires l !in s.live
    ensures HeldOf(s.live + {l}, id) == if id == l.id then HeldOf(s.live, id) + {l} else HeldOf(s.live, id)
    ensures |HeldOf(s.live + {l}, id)| == |HeldOf(s.live, id)| + if id == l.id then 1 else 0
  {
    assert HeldOf(s.live + {l}, id) == if id == l.id then HeldOf(s.live, id) + {l} else HeldOf(s.live, id);
  }

  lemma WithLeaseFlags(s: Snapshot, l: RequestLease)
    requires ValidFlags(s)
    requires if l.id in s.entries then s.entries[l.id].cancelled == l.cancelled else l.cancelled !in s.values
    ensures ValidFlags(WithLease(s, l))
  {}

  lemma WithLeaseView(s: Snapshot, l: RequestLease)
    requires ValidFlags(s) && ValidFlags(WithLease(s, l))
    requires if l.id in s.entries then s.entries[l.id].cancelled == l.cancelled else l.cancelled !in s.values
    ensures ViewOf(WithLease(s, l)) == Acquired(ViewOf(s), l.id)
  {}

  lemma WithLeaseValid(s: Snapshot, l: RequestLease)
    requires ValidSnapshot(s) && !s.closed && l !in s.leases
    requires if l.id in s.entries then s.entries[l.id].cancelled == l.cancelled else l.cancelled !in s.values
    ensures ValidSnapshot(WithLease(s, l))
    ensures ViewOf(WithLease(s, l)) == Acquired(ViewOf(s), l.id)
  {
    hide ValidFlags, ViewOf;
    WithLeaseFlags(s, l);
    WithLeaseView(s, l);
    var t := WithLease(s, l);
    forall id | id in t.entries ensures t.entries[id].references == |HeldOf(t.live, id)| {
      HeldWith(s, l, id);
      if id == l.id && id !in s.entries { NobodyHolds(s, id); }
    }
    forall k | k in t.live && Tracked(k) ensures k.id in t.entries && t.entries[k.id].cancelled == k.cancelled {
      if k != l { assert k in s.live; }
    }
  }

  /** A known flag set, or a sentinel with a new flag. */
  ghost function WithCancel(s: Snapshot, id: string, flag: Flag): Snapshot {
    s.(entries := if id in s.entries then s.entries else s.entries[id := Entry(flag, 0)],
       values := s.values[flag := true])
  }

  lemma WithCancelFlags(s: Snapshot, id: string, flag: Flag)
    requires ValidFlags(s) && |id| > 0
    requires if id in s.entries then s.entries[id].cancelled == flag else flag !in s.values
    ensures ValidFlags(WithCancel(s, id, flag))
  {}

  lemma WithCancelView(s: Snapshot, id: string, flag: Flag)
    requires ValidFlags(s) && ValidFlags(WithCancel(s, id, flag)) && |id| > 0
    requires if id in s.entries then s.entries[id].cancelled == flag else flag !in s.values
    ensures ViewOf(WithCancel(s, id, flag)) == CancelledOne(ViewOf(s), id)
  {}

  lemma WithCancelValid(s: Snapshot, id: string, flag: Flag)
    requires ValidSnapshot(s) && !s.closed && |id| > 0
    requires if id in s.entries then s.entries[id].cancelled == flag else flag !in s.values
    ensures ValidSnapshot(WithCancel(s, id, flag))
    ensures ViewOf(WithCancel(s, id, flag)) == CancelledOne(ViewOf(s), id)
  {
    hide ValidFlags, ViewOf;
    WithCancelFlags(s, id, flag);
    WithCancelView(s, id, flag);
    if id !in s.entries { NobodyHolds(s, id); }
    assert Accounted(WithCancel(s, id, flag));
  }

  lemma WithoutIdle(s: Snapshot, id: string)
    requires ValidSnapshot(s) && !s.closed && id in s.entries && s.entries[id].references == 0
    ensures ValidSnapshot(s.(entries := s.entries - {id}))
    ensures ViewOf(s.(entries := s.entries - {id})) == ViewOf(s) - {id}
  {
    NobodyHolds(s, id);
    var t := s.(entries := s.entries - {id});
    assert ValidFlags(t);
    forall l | l in t.live && Tracked(l) ensures l.id in t.entries {
      assert l.id == id ==> l in HeldOf(s.live, id);
    }
  }

  ghost function WithRelease(s: Snapshot, l: RequestLease): Snapshot {
    s.(live := s.live - {l},
       entries := if l.id !in s.entries then s.entries
                  else if s.entries[l.id].references <= 1 then s.entries - {l.id}
                  else s.entries[l.id := s.entries[l.id].(references := s.entries[l.id].references - 1)])
  }

  lemma HeldWithout(s: Snapshot, l: RequestLease, id: string)
    requires l in s.live
    ensures HeldOf(s.live - {l}, id) == HeldOf(s.live, id) - {l}
    ensures |HeldOf(s.live - {l}, id)| == |HeldOf(s.live, id)| - if id == l.id then 1 else 0
  {
    assert HeldOf(s.live - {l}, id) == HeldOf(s.live, id) - {l};
    if id == l.id {
      assert l in HeldOf(s.live, id);
      assert HeldOf(s.live, id) == (HeldOf(s.live, id) - {l}) + {l};
    } else {
      assert HeldOf(s.live, id) - {l} == HeldOf(s.live, id);
    }
  }

  lemma WithReleaseFlags(s: Snapshot, l: RequestLease)
    requires ValidFlags(s)
    ensures ValidFlags(WithRelease(s, l))
  {}

  lemma WithReleaseView(s: Snapshot, l: RequestLease)
    requires ValidFlags(s) && ValidFlags(WithRelease(s, l))
    ensures ViewOf(WithRelease(s, l)) == ReleasedOne(ViewOf(s), l.id)
  {}

  lemma WithReleaseValid(s: Snapshot, l: RequestLease)
    requires ValidSnapshot(s) && l in s.live
    ensures ValidSnapshot(WithRelease(s, l))
    ensures ViewOf(WithRelease(s, l)) == ReleasedOne(ViewOf(s), l.id)
    ensures l.id in s.entries ==> s.entries[l.id].references > 0
  {
    hide ValidFlags, ViewOf;
    WithReleaseFlags(s, l);
    WithReleaseView(s, l);
    var t := WithRelease(s, l);
    if s.closed { return; }
    HeldWithout(s, l, l.id);
    forall id | id in t.entries ensures t.entries[id].references == |HeldOf(t.live, id)| {
      HeldWithout(s, l, id);
    }
    forall k | k in t.live && Tracked(k) ensures k.id in t.entries && t.entries[k.id].cancelled == k.cancelled {
      assert k.id == l.id ==> k in HeldOf(t.live, k.id);
    }
  }

  // ----- The registry -----

  class CancellationRegistry {
    var closed: bool
    var entries: map<string, Entry>
    ghost var leases: set<RequestLease>   // all ever handed out
    ghost var flags: set<Flag>            // all ever created

    /** The unreleased leases. */
    ghost function Live(): set<RequestLease>
      reads this, leases
    {
      set l | l in leases && !l.released
    }

    ghost function Snap(): Snapshot
      reads this, leases, flags
    {
      Snapshot(closed, entries, leases, Live(), map f | f in flags :: f.value)
    }

    ghost predicate Valid()
      reads this, leases, flags
    {
      ValidSnapshot(Snap())
    }

    ghost function View(): Slots
      reads this, leases, flags
      requires Valid()
    {
      ViewOf(Snap())
    }

    constructor ()
      ensures Valid() && !closed && View() == map[] && leases == {} && flags == {}
    {
      closed, entries, leases, flags := false, map[], {}, {};
    }

    /** A pre-acquire cancel is seen by the lease; an untracked lease starts uncancelled. */
    method Acquire(id: string) returns (r: Result<RequestLease, CancellationError>)
      requires Valid()
      modifies this
      ensures Valid() && closed == old(closed) && fresh(flags - old(flags)) && old(flags) <= flags
      ensures old(closed) ==>
                r == Err(RegistryClosed) && leases == old(leases) && Live() == old(Live()) && View() == old(View())
      ensures !old(closed) ==>
                && r.Ok? && fresh(r.value) && !r.value.released && r.value.id == id
                && leases == old(leases) + {r.value} && Live() == old(Live()) + {r.value}
                && r.value.cancelled.value == SlotOf(old(View()), id).cancelled
                && View() == Acquired(old(View()), id)
    {
      hide Accounted, ValidFlags, ViewOf, ValidSnapshot, Acquired, SlotOf;
      if closed { return Err(RegistryClosed); }
      FlagsValid(Snap());
      ghost var before := Snap();
      var flag;
      if id in entries {
        EntryFlag(before, id);
        flag := entries[id].cancelled;
      } else {
        flag := new Flag();
        flags := flags + {flag};
      }
      var lease := new RequestLease(id, flag);
      if |id| > 0 {
        var references := if id in entries then entries[id].references else 0;
        entries := entries[id := Entry(flag, references + 1)];
      }
      leases := leases + {lease};
      EmptyNeverEntry(before);
      WithLeaseValid(before, lease);
      assert Snap() == WithLease(before, lease);
      AcquiredFlag(before, lease);
      return Ok(lease);
    }

    method CancelOne(id: string)
      requires Valid() && !closed && |id| > 0
      modifies this, flags
      ensures Valid() && !closed && fresh(flags - old(flags)) && old(flags) <= flags && leases == old(leases)
      ensures View() == CancelledOne(old(View()), id)
    {
      hide Accounted, ValidFlags, ViewOf, ValidSnapshot, CancelledOne;
      FlagsValid(Snap());
      ghost var before := Snap();
      if id !in entries {
        var flag := new Flag();
        flags := flags + {flag};
        entries := entries[id := Entry(flag, 0)];
      } else {
        EntryFlag(before, id);
      }
      entries[id].cancelled.value := true;
      WithCancelValid(before, id, entries[id].cancelled);
      assert Snap() == WithCancel(before, id, entries[id].cancelled);
    }

    /** Sets the flags of the named ids, leaving sentinels for requests not acquired yet. */
    method CancelMany(ids: seq<string>) returns (r: Result<(), CancellationError>)
      requires Valid()
      modifies this, flags
      ensures Valid() && closed == old(closed) && fresh(flags - old(flags)) && old(flags) <= flags
      ensures leases == old(leases) && Live() == old(Live())
      ensures r == if old(closed) then Err(RegistryClosed) else Ok(())
      ensures View() == if old(closed) then old(View()) else CancelledMany(old(View()), ids)
    {
      hide ValidSnapshot, ValidFlags, ViewOf;
      if closed { return Err(RegistryClosed); }
      ghost var before := View();
      for i := 0 to |ids|
        invariant Valid() && !closed && fresh(flags - old(flags)) && old(flags) <= flags && leases == old(leases)
        invariant View() == CancelledMany(before, ids[..i])
      {
        assert ids[..i + 1][..i] == ids[..i];
        if |ids[i]| > 0 { CancelOne(ids[i]); } else { assert |ids[i]| == 0; }
      }
      assert ids[..|ids|] == ids;
      return Ok(());
    }

    /** Cancels the ids that have leases; idle sentinels stay as they are. */
    method CancelActive() returns (r: Result<set<string>, CancellationError>)
      requires Valid()
      modifies this, flags
      ensures Valid() && closed == old(closed) && leases == old(leases)
      ensures fresh(flags - old(flags)) && old(flags) <= flags
      ensures r == if old(closed) then Err(RegistryClosed) else Ok(Active(old(View())))
      ensures View() == if old(closed) then old(View()) else ActiveCancelled(old(View()))
      ensures View().Keys == old(View()).Keys
      ensures forall id :: id in View() ==>
                && View()[id].references == old(View())[id].references
                && (View()[id].cancelled <==> old(View())[id].cancelled || (!closed && View()[id].references > 0))
      ensures r.Ok? ==> forall id :: id in r.value <==> id in View() && View()[id].references > 0
    {
      hide ValidSnapshot, ValidFlags, ViewOf, Sweep, Active, ActiveCancelled, CancelledOne;
      if closed { return Err(RegistryClosed); }
      ghost var before := View();
      var ids, pending := {}, entries.Keys;
      EntryKeys(Snap());
      SweepEnds(before);
      while pending != {}
        invariant Valid() && !closed && leases == old(leases) && fresh(flags - old(flags)) && old(flags) <= flags
        invariant pending <= before.Keys && View().Keys == before.Keys
        invariant ids == Active(before) - pending
        invariant View() == Sweep(before, pending)
        decreases |pending|
      {
        var id :| id in pending;
        EntryKeys(Snap());
        assert id in entries;
        SweepStep(before, pending, id);
        if entries[id].references > 0 {
          CancelOne(id);
          ids := ids + {id};
        }
        pending := pending - {id};
      }
      assert ids == Active(before) && pending == {};
      ActiveIs(before);
      return Ok(ids);
    }

    method IsCancelled(id: string) returns (r: Result<bool, CancellationError>)
      requires Valid()
      ensures r == if closed then Err(RegistryClosed) else Ok(SlotOf(View(), id).cancelled)
    {
      if closed { return Err(RegistryClosed); }
      return Ok(id in entries && entries[id].cancelled.value);
    }

    /** Forgets the selected idle sentinels; entries with leases keep their state. */
    method ResetManyIfIdle(ids: seq<string>) returns (r: Result<(), CancellationError>)
      requires Valid()
      modifies this
      ensures Valid() && closed == old(closed) && leases == old(leases) && flags == old(flags)
      ensures r == if old(closed) then Err(RegistryClosed) else Ok(())
      ensures View() == if old(closed) then old(View()) else ResetMany(old(View()), ids)
    {
      hide ValidSnapshot, ValidFlags, ViewOf;
      if closed { return Err(RegistryClosed); }
      ghost var before := View();
      for i := 0 to |ids|
        invariant Valid() && !closed && leases == old(leases) && flags == old(flags)
        invariant View() == ResetMany(before, ids[..i])
      {
        assert ids[..i + 1][..i] == ids[..i];
        EntryKeys(Snap());
        if ids[i] in entries && entries[ids[i]].references == 0 {
          ghost var now := Snap();
          WithoutIdle(now, ids[i]);
          entries := entries - {ids[i]};
          assert Snap() == now.(entries := now.entries - {ids[i]});
        }
      }
      assert ids[..|ids|] == ids;
      return Ok(());
    }

    /** Releasing again, or after shutdown, changes nothing; a reference count never underflows. */
    method Release(lease: RequestLease)
      requires Valid() && lease in leases
      modifies this, lease
      ensures Valid() && closed == old(closed) && leases == old(leases) && flags == old(flags)
      ensures View() == if old(lease.released) then old(View()) else ReleasedOne(old(View()), lease.id)
      ensures lease.released && Live() == old(Live()) - {lease}
    {
      hide Accounted, ValidFlags, ViewOf, ValidSnapshot, ReleasedOne;
      if lease.released { return; }
      ghost var before := Snap();
      WithReleaseValid(before, lease);
      lease.released := true;
      if lease.id in entries {
        var entry := entries[lease.id];
        if entry.references - 1 == 0 {
          entries := entries - {lease.id};
        } else {
          entries := entries[lease.id := entry.(references := entry.references - 1)];
        }
      }
      assert Snap() == WithRelease(before, lease);
    }

    /** What a lease reports; for a live tracked one it is the state of its id. */
    method LeaseCancelled(lease: RequestLease) returns (r: Result<bool, CancellationError>)
      requires Valid() && lease in leases
      ensures closed ==> r == Err(RegistryClosed)
      ensures !closed && lease.released ==> r == Err(LeaseReleased)
      ensures !closed && !lease.released ==> r == Ok(SlotOf(View(), lease.id).cancelled)
    {
      if closed { return Err(RegistryClosed); }
      if lease.released { return Err(LeaseReleased); }
      ghost var s := Snap();
      assert lease in s.live && (Tracked(lease) <==> |lease.id| > 0);
      return Ok(lease.cancelled.value);
    }

    method Shutdown()
      requires Valid()
      modifies this
      ensures Valid() && closed && leases == old(leases) && flags == old(flags) && View() == map[]
    {
      ghost var before := Snap();
      closed := true;
      entries := map[];
      assert Snap() == before.(closed := true, entries := map[]);
    }
  }

  lemma EntryFlag(s: Snapshot, id: string)
    requires ValidFlags(s) && id in s.entries
    ensures s.entries[id].cancelled in s.values
  {}

  lemma EmptyNeverEntry(s: Snapshot)
    requires ValidFlags(s)
    ensures forall id :: id in s.entries ==> |id| > 0
  {}

  lemma AcquiredFlag(s: Snapshot, l: RequestLease)
    requires ValidFlags(s)
    requires if l.id in s.entries then s.entries[l.id].cancelled == l.cancelled else l.cancelled !in s.values
    ensures l.cancelled in WithLease(s, l).values
    ensures l.id in s.entries ==> l.cancelled in s.values
    ensures WithLease(s, l).values[l.cancelled] == SlotOf(ViewOf(s), l.id).cancelled
  {}

  lemma EntryKeys(s: Snapshot)
    requires ValidSnapshot(s)
    ensures ViewOf(s).Keys == s.entries.Keys
    ensures forall id :: id in s.entries ==> |id| > 0 && ViewOf(s)[id].references == s.entries[id].references
  {}

  /** The active ids outside `pending` cancelled. */
  function Sweep(v: Slots, pending: set<string>): Slots {
    map id | id in v :: if v[id].references > 0 && id !in pending then v[id].(cancelled := true) else v[id]
  }

  lemma SweepEnds(v: Slots)
    ensures Sweep(v, v.Keys) == v && Sweep(v, {}) == ActiveCancelled(v)
    ensures Active(v) - v.Keys == {}
  {}

  lemma SweepStep(v: Slots, pending: set<string>, id: string)
    requires id in v && id in pending && |id| > 0
    ensures id in Sweep(v, pending) && Sweep(v, pending)[id] == v[id]
    ensures Sweep(v, pending).Keys == v.Keys == Sweep(v, pending - {id}).Keys
    ensures Sweep(v, pending - {id}) ==
            if v[id].references > 0 then CancelledOne(Sweep(v, pending), id) else Sweep(v, pending)
    ensures Active(v) - (pending - {id}) ==
            if v[id].references > 0 then (Active(v) - pending) + {id} else Active(v) - pending
  {}

  lemma FlagsValid(s: Snapshot)
    requires ValidSnapshot(s)
    ensures ValidFlags(s)
  {}
}
