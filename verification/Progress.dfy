/**
  The sparse download-progress registry (core/src/progress.rs): live items, revisions,
  tombstones of removed items, the median prune with its `reset` watermark, and the cached
  snapshot. `State` is the value behind the registry's mutex; the class at the end updates its
  fields in place and is proved to follow the functions on `State`.
 */
module Progress {
  import opened Common

  // ----- Items and their bridge buckets -----

  /** A double: real-valued when finite, rounding is not modelled. */
  datatype Float = NaN | PosInf | NegInf | Finite(value: real)
  {
    predicate IsFinite() { Finite? }

    predicate AtMostZero() { NegInf? || (Finite? && value <= 0.0) }

    predicate AtLeastOne() { PosInf? || (Finite? && value >= 1.0) }
  }

  const UPDATE_BYTES := 128 * 1024
  const I64_MIN := -0x8000_0000_0000_0000
  const TOMBSTONE_LIMIT := 512

  datatype ItemProgress = ItemProgress(
    itemId: string,
    bytesTotal: int,
    bytesReceived: int,
    progress: Float,
    speedMbps: Float,
    isDownloading: bool,
    status: string,
    stage: string,
    revision: int)

  datatype BridgeState = BridgeState(
    bytesBucket: int,
    total: int,
    percent: int,
    speedTenths: int,
    downloading: bool,
    status: string,
    stage: string)

  /** Rust's integer division: towards zero. */
  function TruncatingDiv(a: int, b: int): int
    requires b > 0
  {
    if a >= 0 then a / b else -((-a) / b)
  }

  function RoundNonNegative(x: real): int
    requires x >= 0.0
  {
    (x + 0.5).Floor
  }

  function Percent(progress: Float): int {
    if progress.NaN? || progress.AtMostZero() then 0
    else if progress.AtLeastOne() then 100
    else RoundNonNegative(progress.value * 100.0)
  }

  /** The x86 branch of `rounded_speed`: an out-of-range value becomes the least i64. */
  function SpeedTenths(speed: Float): int {
    if speed.NaN? || speed.AtMostZero() then 0
    else if speed.PosInf? then I64_MIN
    else
      var rounded := RoundNonNegative(speed.value * 10.0);
      if rounded >= -I64_MIN then I64_MIN else rounded
  }

  function Bridge(item: ItemProgress): BridgeState {
    BridgeState(
      TruncatingDiv(item.bytesReceived, UPDATE_BYTES),
      item.bytesTotal,
      Percent(item.progress),
      SpeedTenths(item.speedMbps),
      item.isDownloading,
      item.status,
      item.stage)
  }

  predicate IsFinite(item: ItemProgress) {
    item.progress.IsFinite() && item.speedMbps.IsFinite()
  }

  /** What the JSON of an item shows: everything but the private revision. */
  function Published(item: ItemProgress): (r: ItemProgress)
    ensures r.(revision := item.revision) == item
  {
    item.(revision := 0)
  }

  /** The view of a collection of items up to bridge equality. */
  function View(items: map<string, ItemProgress>): map<string, BridgeState> {
    map id | id in items :: Bridge(items[id])
  }

  // ----- The edits of the public update methods -----

  datatype Edit =
    | Preparing(stage: string)
    | Downloading
    | SetReceived(received: int)
    | SetReceivedWithSpeed(received: int, speed: Float)
    | SetProgress(progress: Float, received: int, total: int)
    | Finalizing
    | Complete

  function MarkDownloading(item: ItemProgress): ItemProgress {
    item.(isDownloading := true, status := "downloading", stage := "")
  }

  function WithReceived(item: ItemProgress, received: int): ItemProgress {
    var item := item.(bytesReceived := received);
    var item :=
      if item.bytesTotal > 0 then item.(progress := Finite(received as real / item.bytesTotal as real))
      else item;
    if received > 0 then MarkDownloading(item) else item
  }

  function WithProgress(item: ItemProgress, progress: Float, received: int, total: int): ItemProgress {
    var hasBytes := received > 0 || total > 0;
    var shown :=
      if item.status != "preparing" || hasBytes || progress.AtLeastOne() then progress else Finite(0.0);
    var item := item.(progress := shown);
    var item := if received > 0 then item.(bytesReceived := received) else item;
    var item := if total > 0 then item.(bytesTotal := total) else item;
    if hasBytes || progress.AtLeastOne() || item.status == "downloading" then MarkDownloading(item) else item
  }

  function ApplyEdit(item: ItemProgress, edit: Edit): (r: ItemProgress)
    ensures r.revision == item.revision && r.itemId == item.itemId
  {
    match edit
    case Preparing(stage) =>
      item.(progress := Finite(0.0), bytesReceived := 0, bytesTotal := 0, speedMbps := Finite(0.0),
            isDownloading := true, status := "preparing", stage := stage)
    case Downloading => MarkDownloading(item)
    case SetReceived(received) => WithReceived(item, received)
    case SetReceivedWithSpeed(received, speed) => WithReceived(item.(speedMbps := speed), received)
    case SetProgress(progress, received, total) => WithProgress(item, progress, received, total)
    case Finalizing => item.(progress := Finite(1.0), status := "finalizing", stage := "")
    case Complete =>
      item.(progress := Finite(1.0), isDownloading := false, status := "completed", stage := "")
  }

  // ----- Order statistics of a finite set of revisions -----

  ghost predicate IsLeast(x: int, s: set<int>) {
    x in s && forall y :: y in s ==> x <= y
  }

  lemma {:induction false} LeastExists(s: set<int>)
    requires |s| > 0
    ensures exists x :: IsLeast(x, s)
    decreases |s|
  {
    if forall y: int :: y !in s { assert false; }
    var x :| x in s;
    var rest := s - {x};
    if rest == {} {
      assert s == {x};
      assert IsLeast(x, s);
    } else {
      LeastExists(rest);
      var y :| IsLeast(y, rest);
      assert s == rest + {x};
      assert IsLeast(if x <= y then x else y, s);
    }
  }

  /** The element of `s` with exactly `k` smaller ones: index `k` of the sorted values. */
  ghost function Kth(s: set<int>, k: nat): int
    requires k < |s|
  {
    LeastExists(s);
    var least :| IsLeast(least, s);
    if k == 0 then least else Kth(s - {least}, k - 1)
  }

  function Below(s: set<int>, c: int): set<int> { set x | x in s && x < c }

  function Above(s: set<int>, c: int): set<int> { set x | x in s && x > c }

  lemma {:induction false} KthHasRank(s: set<int>, k: nat)
    requires k < |s|
    ensures Kth(s, k) in s
    ensures |Below(s, Kth(s, k))| == k
    ensures |Above(s, Kth(s, k))| == |s| - k - 1
  {
    var c := KthBelow(s, k);
    assert s == Below(s, c) + {c} + Above(s, c);
    assert Below(s, c) !! {c} && (Below(s, c) + {c}) !! Above(s, c);
    assert |s| == |Below(s, c) + {c}| + |Above(s, c)|;
  }

  lemma {:induction false} KthBelow(s: set<int>, k: nat) returns (c: int)
    requires k < |s|
    ensures c == Kth(s, k) && c in s
    ensures |Below(s, c)| == k
  {
    LeastExists(s);
    var least :| IsLeast(least, s) && Kth(s, k) == if k == 0 then least else Kth(s - {least}, k - 1);
    if k == 0 {
      c := least;
      assert Below(s, c) == {};
    } else {
      c := KthBelow(s - {least}, k - 1);
      BelowWithout(s, least, c);
    }
  }

  lemma BelowWithout(s: set<int>, least: int, c: int)
    requires IsLeast(least, s) && c in s - {least}
    ensures |Below(s, c)| == |Below(s - {least}, c)| + 1
  {
    assert Below(s, c) == Below(s - {least}, c) + {least};
  }

  lemma RankDecides(s: set<int>, c: int, d: int)
    requires c in s && d in s && |Below(s, c)| == |Below(s, d)|
    ensures c == d
  {
    if c < d {
      assert Below(s, c) < Below(s, d) by { assert c in Below(s, d) && c !in Below(s, c); }
      SubsetSmaller(Below(s, c), Below(s, d));
    } else if d < c {
      assert Below(s, d) < Below(s, c) by { assert d in Below(s, c) && d !in Below(s, d); }
      SubsetSmaller(Below(s, d), Below(s, c));
    }
  }

  lemma SubsetSmaller<T>(a: set<T>, b: set<T>)
    requires a < b
    ensures |a| < |b|
  {
    var x :| x in b && x !in a;
    assert b == a + (b - a);
    assert |b| == |a| + |b - a|;
    assert x in b - a;
  }

  predicate Injective(m: map<string, int>) {
    forall a, b :: a in m && b in m && a != b ==> m[a] != m[b]
  }

  lemma {:induction false} InjectiveCount(m: map<string, int>)
    requires Injective(m)
    ensures |m.Values| == |m|
    decreases |m|
  {
    if m == map[] {
      assert m.Values == {};
    } else {
      var id :| id in m;
      var rest := m - {id};
      InjectiveCount(rest);
      assert m.Values == rest.Values + {m[id]} by {
        forall v | v in m.Values ensures v in rest.Values + {m[id]} {
          var k :| k in m && m[k] == v;
          if k != id { assert k in rest && rest[k] == v; }
        }
      }
      assert m.Keys == rest.Keys + {id};
      assert |m.Keys| == |m| && |rest.Keys| == |rest|;
    }
  }

  // ----- The state and its transitions -----

  datatype State = State(
    items: map<string, ItemProgress>,
    removed: map<string, int>,
    sequence: int,
    reset: int,
    dirty: bool,
    cached: map<string, ItemProgress>,
    closed: bool)

  const INITIAL := State(map[], map[], 0, 0, true, map[], false)

  predicate Known(s: State, id: string) { id in s.items || id in s.removed }

  /** The revision of an id the registry knows, live or removed. */
  function Stamp(s: State, id: string): int
    requires Known(s, id)
  {
    if id in s.items then s.items[id].revision else s.removed[id]
  }

  ghost predicate ValidStamps(s: State) {
    && 0 <= s.reset <= s.sequence
    && s.items.Keys !! s.removed.Keys
    && (forall a, b :: Known(s, a) && Known(s, b) && a != b ==> Stamp(s, a) != Stamp(s, b))
    && (forall id :: Known(s, id) ==> 0 < Stamp(s, id) <= s.sequence)
    && (forall id :: id in s.removed ==> s.reset < s.removed[id])
  }

  ghost predicate ValidCache(s: State) {
    !s.dirty ==> View(s.cached) == View(s.items)
  }

  /** What every reachable registry state satisfies. */
  ghost predicate Valid(s: State) {
    ValidStamps(s) && |s.removed| <= TOMBSTONE_LIMIT && ValidCache(s)
  }

  function Fresh(id: string, revision: int): ItemProgress {
    ItemProgress(id, 0, 0, Finite(0.0), Finite(0.0), false, "preparing", "", revision)
  }

  function Start(s: State, id: string): State {
    var revision := s.sequence + 1;
    s.(items := s.items[id := Fresh(id, revision)], removed := s.removed - {id}, sequence := revision, dirty := true)
  }

  /** An edit inside one bridge bucket stays silent: no revision, no cache invalidation. */
  function Update(s: State, id: string, edit: Edit): State {
    if id in s.items then Replace(s, id, ApplyEdit(s.items[id], edit)) else s
  }

  function Replace(s: State, id: string, edited: ItemProgress): State
    requires id in s.items
  {
    if Bridge(edited) == Bridge(s.items[id]) then s.(items := s.items[id := edited])
    else
      s.(items := s.items[id := edited.(revision := s.sequence + 1)], sequence := s.sequence + 1, dirty := true)
  }

  function Retained(removed: map<string, int>, cutoff: int): map<string, int> {
    map id | id in removed && removed[id] > cutoff :: removed[id]
  }

  ghost function Cutoff(removed: map<string, int>): int
    requires removed.Values != {}
  {
    Kth(removed.Values, |removed.Values| / 2)
  }

  /** Drops the older half of the tombstones once there are more than 512. */
  ghost function Prune(s: State): State {
    if |s.removed| <= TOMBSTONE_LIMIT then s
    else
      NonEmptyValues(s.removed);
      var cutoff := Cutoff(s.removed);
      s.(removed := Retained(s.removed, cutoff), reset := if s.reset >= cutoff then s.reset else cutoff)
  }

  lemma NonEmptyValues(m: map<string, int>)
    requires |m| > 0
    ensures m.Values != {}
  {
    var id :| id in m;
    assert m[id] in m.Values;
  }

  /** The item's id becomes a tombstone at the next revision. */
  function Bury(s: State, id: string): State {
    s.(items := s.items - {id}, removed := s.removed[id := s.sequence + 1], sequence := s.sequence + 1, dirty := true)
  }

  ghost function Remove(s: State, id: string): State {
    if id in s.items then Prune(Bury(s, id)) else s.(dirty := true)
  }

  ghost function RemoveMany(s: State, ids: seq<string>): State {
    if ids == [] then s else Remove(RemoveMany(s, ids[..|ids| - 1]), ids[|ids| - 1])
  }

  /** Serializing refreshes the cache unless some item is not finite. */
  function Snapshot(s: State): State {
    if !s.dirty || (exists id :: id in s.items && !IsFinite(s.items[id])) then s
    else s.(cached := s.items, dirty := false)
  }

  function Shutdown(s: State): State {
    s.(closed := true, items := map[], removed := map[], cached := map[])
  }

  datatype Op =
    | OpStart(id: string)
    | OpUpdate(id: string, edit: Edit)
    | OpRemoveMany(ids: seq<string>)
    | OpSnapshot
    | OpShutdown

  ghost function Step(s: State, op: Op): State {
    if op.OpShutdown? then Shutdown(s)
    else if s.closed then s
    else
      match op
      case OpStart(id) => Start(s, id)
      case OpUpdate(id, edit) => Update(s, id, edit)
      case OpRemoveMany(ids) => RemoveMany(s, ids)
      case OpSnapshot => Snapshot(s)
  }

  ghost function Run(ops: seq<Op>): State {
    if ops == [] then INITIAL else Step(Run(ops[..|ops| - 1]), ops[|ops| - 1])
  }

  // ----- Tombstone pruning -----

  /** The median cut of 513 distinct tombstones keeps the newest 256 of them. */
  lemma PruneKeepsNewestHalf(s: State)
    requires Injective(s.removed) && |s.removed| == TOMBSTONE_LIMIT + 1
    ensures |Prune(s).removed| == TOMBSTONE_LIMIT / 2
    ensures forall id :: id in Prune(s).removed ==> id in s.removed && Prune(s).removed[id] == s.removed[id]
    ensures forall kept, id :: kept in Prune(s).removed && id in s.removed && id !in Prune(s).removed ==>
                                 s.removed[id] < s.removed[kept]
    ensures exists id :: id in s.removed && id !in Prune(s).removed && s.removed[id] == Cutoff(s.removed)
    ensures Prune(s).reset >= Cutoff(s.removed)
  {
    InjectiveCount(s.removed);
    NonEmptyValues(s.removed);
    var values := s.removed.Values;
    KthHasRank(values, |values| / 2);
    var cutoff := Cutoff(s.removed);
    var kept := Retained(s.removed, cutoff);
    InjectiveCount(kept);
    assert kept.Values == Above(values, cutoff) by {
      forall v | v in Above(values, cutoff) ensures v in kept.Values {
        var id :| id in s.removed && s.removed[id] == v;
        assert id in kept && kept[id] == v;
      }
    }
  }

  /** `t` knows what `s` knows, except that `id` has the next revision. */
  ghost predicate Restamped(s: State, t: State, id: string) {
    && t.sequence == s.sequence + 1
    && t.reset == s.reset
    && t.dirty
    && Known(t, id)
    && Stamp(t, id) == t.sequence
    && t.items.Keys !! t.removed.Keys
    && (forall k :: k != id ==> (k in t.items <==> k in s.items) && (k in t.removed <==> k in s.removed))
    && (forall k :: k != id && Known(s, k) ==> Stamp(t, k) == Stamp(s, k))
  }

  lemma RestampedKeepsValid(s: State, t: State, id: string)
    requires ValidStamps(s) && Restamped(s, t, id)
    ensures ValidStamps(t)
  {
    forall k | Known(t, k) && k != id ensures 0 < Stamp(t, k) < t.sequence && Stamp(t, k) == Stamp(s, k) {
      assert Known(s, k);
    }
    forall a, b | Known(t, a) && Known(t, b) && a != b ensures Stamp(t, a) != Stamp(t, b) {
      if a != id && b != id { assert Known(s, a) && Known(s, b); }
    }
    forall k | k in t.removed ensures t.reset < t.removed[k] {
      if k != id { assert Known(s, k) && k in s.removed && Stamp(t, k) == Stamp(s, k); }
      else { assert Known(t, k); }
    }
  }

  lemma PruneKeepsValid(s: State)
    requires ValidStamps(s) && s.dirty && |s.removed| <= TOMBSTONE_LIMIT + 1
    ensures Valid(Prune(s))
    ensures Prune(s).reset >= s.reset
  {
    var t := Prune(s);
    if |s.removed| > TOMBSTONE_LIMIT {
      assert Injective(s.removed) by {
        forall a, b | a in s.removed && b in s.removed && a != b ensures s.removed[a] != s.removed[b] {
          assert Known(s, a) && Known(s, b) && Stamp(s, a) == s.removed[a] && Stamp(s, b) == s.removed[b];
        }
      }
      PruneKeepsNewestHalf(s);
      var id :| id in s.removed && s.removed[id] == Cutoff(s.removed);
      assert Known(s, id) && Stamp(s, id) == Cutoff(s.removed);
      assert forall k :: Known(t, k) ==> Known(s, k) && Stamp(t, k) == Stamp(s, k);
    }
  }

  lemma StartRestamps(s: State, id: string)
    requires s.items.Keys !! s.removed.Keys
    ensures Restamped(s, Start(s, id), id)
  {}

  lemma StartKeepsValid(s: State, id: string)
    requires Valid(s)
    ensures Valid(Start(s, id))
  {
    var t := Start(s, id);
    assert ValidStamps(t) by {
      StartRestamps(s, id);
      RestampedKeepsValid(s, t, id);
    }
    SubsetCount(t.removed.Keys, s.removed.Keys);
    assert |t.removed| == |t.removed.Keys| && |s.removed| == |s.removed.Keys|;
  }

  lemma ReplaceKeepsValid(s: State, id: string, edited: ItemProgress)
    requires Valid(s) && id in s.items && edited.revision == s.items[id].revision
    ensures Valid(Replace(s, id, edited))
  {
    if Bridge(edited) == Bridge(s.items[id]) {
      SilentKeepsValid(s, id, edited);
    } else {
      hide Bridge, ValidStamps;
      assert Restamped(s, Replace(s, id, edited), id);
      RestampedKeepsValid(s, Replace(s, id, edited), id);
    }
  }

  /** A silent edit changes neither a stamp nor the view. */
  lemma SilentKeepsValid(s: State, id: string, edited: ItemProgress)
    requires Valid(s) && id in s.items && edited.revision == s.items[id].revision
    requires Bridge(edited) == Bridge(s.items[id])
    ensures Valid(Replace(s, id, edited))
  {
    hide Bridge;
    var t := Replace(s, id, edited);
    assert ValidStamps(t) by {
      hide View;
      assert forall k :: Known(t, k) ==> Known(s, k) && Stamp(t, k) == Stamp(s, k);
    }
    assert View(t.items) == View(s.items);
  }

  lemma UpdateKeepsValid(s: State, id: string, edit: Edit)
    requires Valid(s)
    ensures Valid(Update(s, id, edit))
  {
    hide Valid, Bridge;
    if id in s.items { ReplaceKeepsValid(s, id, ApplyEdit(s.items[id], edit)); }
  }

  lemma SnapshotKeepsValid(s: State)
    requires Valid(s)
    ensures Valid(Snapshot(s))
  {
    SameStampsValid(s, Snapshot(s));
  }

  lemma ShutdownKeepsValid(s: State)
    requires Valid(s)
    ensures Valid(Shutdown(s))
  {
    assert View(map[]) == map[];
  }

  lemma BuryKeepsValid(s: State, id: string)
    requires Valid(s) && id in s.items
    ensures ValidStamps(Bury(s, id))
    ensures |Bury(s, id).removed| == |s.removed| + 1
  {
    var t := Bury(s, id);
    assert Restamped(s, t, id);
    RestampedKeepsValid(s, t, id);
    assert t.removed.Keys == s.removed.Keys + {id};
    assert |t.removed| == |t.removed.Keys| && |s.removed| == |s.removed.Keys|;
  }

  lemma RemoveKeepsValid(s: State, id: string)
    requires Valid(s)
    ensures Valid(Remove(s, id))
    ensures Remove(s, id).reset >= s.reset
  {
    var t := Remove(s, id);
    if id in s.items {
      BuryKeepsValid(s, id);
      PruneKeepsValid(Bury(s, id));
    } else {
      assert forall k :: Known(t, k) ==> Known(s, k) && Stamp(t, k) == Stamp(s, k);
    }
  }

  lemma {:induction false} RemoveManyKeepsValid(s: State, ids: seq<string>)
    requires Valid(s)
    ensures Valid(RemoveMany(s, ids))
    ensures RemoveMany(s, ids).reset >= s.reset
  {
    if ids != [] {
      RemoveManyKeepsValid(s, ids[..|ids| - 1]);
      RemoveKeepsValid(RemoveMany(s, ids[..|ids| - 1]), ids[|ids| - 1]);
    }
  }

  lemma SameStampsValid(s: State, t: State)
    requires ValidStamps(s)
    requires t.items == s.items && t.removed == s.removed && t.sequence == s.sequence && t.reset == s.reset
    ensures ValidStamps(t)
  {
    assert forall k :: Known(t, k) ==> Known(s, k) && Stamp(t, k) == Stamp(s, k);
  }

  /** Every operation keeps the invariant and never lowers the watermark. */
  lemma StepKeepsValid(s: State, op: Op)
    requires Valid(s)
    ensures Valid(Step(s, op))
    ensures Step(s, op).reset >= s.reset
    ensures Step(s, op).sequence >= s.sequence
  {
    hide Valid, Bridge, ApplyEdit;
    if s.closed && !op.OpShutdown? { return; }
    match op {
      case OpStart(id) => StartKeepsValid(s, id); assert Step(s, op) == Start(s, id);
      case OpUpdate(id, edit) => UpdateKeepsValid(s, id, edit); assert Step(s, op) == Update(s, id, edit);
      case OpRemoveMany(ids) =>
        RemoveManyKeepsValid(s, ids);
        RemoveManySeq(s, ids);
        assert Step(s, op) == RemoveMany(s, ids);
      case OpSnapshot => SnapshotKeepsValid(s);
      case OpShutdown => ShutdownKeepsValid(s);
    }
  }

  lemma {:induction false} RemoveManySeq(s: State, ids: seq<string>)
    ensures RemoveMany(s, ids).sequence >= s.sequence
  {
    if ids != [] { RemoveManySeq(s, ids[..|ids| - 1]); }
  }

  /** Reachable states: distinct revisions, bounded disjoint tombstones, a faithful cache. */
  lemma {:induction false} ReachableValid(ops: seq<Op>)
    ensures Valid(Run(ops))
  {
    if ops != [] {
      ReachableValid(ops[..|ops| - 1]);
      StepKeepsValid(Run(ops[..|ops| - 1]), ops[|ops| - 1]);
    }
  }

  // ----- Deltas -----

  /** The JSON answer to a waiting client; absent fields are empty here. */
  datatype Delta = Delta(sequence: int, reset: bool, items: map<string, ItemProgress>, removed: set<string>)

  predicate IsReset(s: State, since: int) { since <= 0 || since < s.reset }

  function ChangedItems(s: State, since: int): map<string, ItemProgress> {
    map id | id in s.items && (IsReset(s, since) || s.items[id].revision > since) :: Published(s.items[id])
  }

  /** `None` is the empty string: nothing new, or an item JSON cannot express. */
  function DeltaSince(s: State, since: int): Option<Delta> {
    var items := ChangedItems(s, since);
    if since >= s.sequence || (exists id :: id in items && !IsFinite(items[id])) then None
    else
      var removed := if IsReset(s, since) then {} else set id | id in s.removed && s.removed[id] > since;
      Some(Delta(s.sequence, IsReset(s, since), items, removed))
  }
}
