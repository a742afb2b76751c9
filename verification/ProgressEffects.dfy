/**
  What the operations of the progress registry (core/src/progress.rs) do to items, tombstones
  and revisions, and what two items that look alike to the bridge have in common.
 */
module ProgressEffects {
  import opened Common
  import opened Progress

  // ----- What looks alike -----

  const KIB128 := 131072

  /** Received bytes in the q-th stretch of 128 KiB; the one around zero reaches to both sides. */
  ghost predicate InStretch(n: int, q: int) {
    if q > 0 then q * KIB128 <= n < q * KIB128 + KIB128
    else if q < 0 then q * KIB128 - KIB128 < n <= q * KIB128
    else -KIB128 < n < KIB128
  }

  ghost predicate SameStretch(m: int, n: int) { exists q: int :: InStretch(m, q) && InStretch(n, q) }

  /** Progress as it is shown: between zero and one, zero if it is not a number. */
  function Shown(progress: Float): real {
    match progress
    case NaN => 0.0
    case NegInf => 0.0
    case PosInf => 1.0
    case Finite(x) => if x < 0.0 then 0.0 else if x > 1.0 then 1.0 else x
  }

  ghost predicate RoundsTo(x: real, p: int) { p as real - 0.5 <= x < p as real + 0.5 }

  ghost predicate SameRounding(x: real, y: real) { exists p: int :: RoundsTo(x, p) && RoundsTo(y, p) }

  /** Too fast for 64 bits of tenths. */
  predicate Excessive(speed: Float) {
    speed.PosInf? || (speed.Finite? && 10.0 * speed.value + 0.5 >= 0x8000_0000_0000_0000 as real)
  }

  function Rate(speed: Float): real { if speed.Finite? && speed.value > 0.0 then speed.value else 0.0 }

  ghost predicate SameSpeed(x: Float, y: Float) {
    if Excessive(x) || Excessive(y) then Excessive(x) && Excessive(y)
    else SameRounding(10.0 * Rate(x), 10.0 * Rate(y))
  }

  /** Same stretch of bytes, same whole percent, same tenth of speed, and all the rest equal. */
  ghost predicate LookAlike(x: ItemProgress, y: ItemProgress) {
    && SameStretch(x.bytesReceived, y.bytesReceived)
    && x.bytesTotal == y.bytesTotal
    && SameRounding(100.0 * Shown(x.progress), 100.0 * Shown(y.progress))
    && SameSpeed(x.speedMbps, y.speedMbps)
    && x.isDownloading == y.isDownloading && x.status == y.status && x.stage == y.stage
  }

  lemma StretchOf(n: int)
    ensures InStretch(n, TruncatingDiv(n, UPDATE_BYTES))
  {
    var m := if n >= 0 then n else -n;
    assert m == KIB128 * (m / KIB128) + m % KIB128;
  }

  lemma StretchUnique(n: int, q: int)
    requires InStretch(n, q)
    ensures q == TruncatingDiv(n, UPDATE_BYTES)
  {
    StretchOf(n);
  }

  lemma SameStretchMeaning(m: int, n: int)
    ensures TruncatingDiv(m, UPDATE_BYTES) == TruncatingDiv(n, UPDATE_BYTES) <==> SameStretch(m, n)
  {
    hide TruncatingDiv;
    StretchOf(m);
    StretchOf(n);
    if SameStretch(m, n) {
      var q :| InStretch(m, q) && InStretch(n, q);
      StretchUnique(m, q);
      StretchUnique(n, q);
    }
  }

  lemma RoundingOf(x: real)
    requires x >= 0.0
    ensures RoundsTo(x, RoundNonNegative(x))
    ensures forall p: int :: RoundsTo(x, p) ==> p == RoundNonNegative(x)
  {}

  lemma SameRoundingMeaning(x: real, y: real)
    requires x >= 0.0 && y >= 0.0
    ensures RoundNonNegative(x) == RoundNonNegative(y) <==> SameRounding(x, y)
  {
    hide RoundNonNegative;
    RoundingOf(x);
    RoundingOf(y);
  }

  lemma PercentOf(progress: Float)
    ensures Percent(progress) == RoundNonNegative(100.0 * Shown(progress))
  {}

  lemma SpeedOf(speed: Float)
    ensures Rate(speed) >= 0.0
    ensures Excessive(speed) ==> SpeedTenths(speed) < 0
    ensures !Excessive(speed) ==> SpeedTenths(speed) == RoundNonNegative(10.0 * Rate(speed)) >= 0
  {}

  lemma SameSpeedMeaning(x: Float, y: Float)
    ensures SpeedTenths(x) == SpeedTenths(y) <==> SameSpeed(x, y)
  {
    SpeedOf(x);
    SpeedOf(y);
    SameRoundingMeaning(10.0 * Rate(x), 10.0 * Rate(y));
    if Excessive(x) && Excessive(y) { assert SpeedTenths(x) == I64_MIN == SpeedTenths(y); }
  }

  /** Equal bridge states mean exactly that the items look alike. */
  lemma BridgeMeaning(x: ItemProgress, y: ItemProgress)
    ensures Bridge(x) == Bridge(y) <==> LookAlike(x, y)
  {
    hide TruncatingDiv, Percent, SpeedTenths, RoundNonNegative, Shown, SameStretch, SameRounding, SameSpeed;
    SameStretchMeaning(x.bytesReceived, y.bytesReceived);
    PercentOf(x.progress);
    PercentOf(y.progress);
    ShownBounds(x.progress);
    ShownBounds(y.progress);
    SameRoundingMeaning(100.0 * Shown(x.progress), 100.0 * Shown(y.progress));
    SameSpeedMeaning(x.speedMbps, y.speedMbps);
  }

  lemma ShownBounds(progress: Float)
    ensures 0.0 <= Shown(progress) <= 1.0
  {}

  ghost predicate Within(x: real, y: real, most: real) { -most < x - y < most }

  /** How far apart two items can be that look alike. */
  ghost predicate Close(x: ItemProgress, y: ItemProgress) {
    && x.bytesTotal == y.bytesTotal
    && x.isDownloading == y.isDownloading && x.status == y.status && x.stage == y.stage
    && -2 * KIB128 < x.bytesReceived - y.bytesReceived < 2 * KIB128
    && (x.bytesReceived >= 0 && y.bytesReceived >= 0 ==> -KIB128 < x.bytesReceived - y.bytesReceived < KIB128)
    && Within(Shown(x.progress), Shown(y.progress), 0.01)
    && (Excessive(x.speedMbps) <==> Excessive(y.speedMbps))
    && (!Excessive(x.speedMbps) ==> Within(Rate(x.speedMbps), Rate(y.speedMbps), 0.1))
  }

  lemma AlikeClose(x: ItemProgress, y: ItemProgress)
    requires LookAlike(x, y)
    ensures Close(x, y)
  {
    hide Shown, Rate, Excessive;
    if !Excessive(x.speedMbps) { RoundingClose(10.0 * Rate(x.speedMbps), 10.0 * Rate(y.speedMbps)); }
    RoundingClose(100.0 * Shown(x.progress), 100.0 * Shown(y.progress));
    var q :| InStretch(x.bytesReceived, q) && InStretch(y.bytesReceived, q);
  }

  lemma RoundingClose(x: real, y: real)
    requires SameRounding(x, y)
    ensures Within(x, y, 1.0)
  {
    var p :| RoundsTo(x, p) && RoundsTo(y, p);
  }

  /** The same ids, and items that are close. */
  ghost predicate AllClose(a: map<string, ItemProgress>, b: map<string, ItemProgress>) {
    a.Keys == b.Keys && forall id :: id in a ==> Close(a[id], b[id])
  }

  lemma EqualViewsClose(a: map<string, ItemProgress>, b: map<string, ItemProgress>)
    requires View(a) == View(b)
    ensures AllClose(a, b)
  {
    hide Bridge, Close, LookAlike;
    assert View(a).Keys == a.Keys && View(b).Keys == b.Keys;
    forall id | id in a ensures Close(a[id], b[id]) {
      assert View(a)[id] == View(b)[id];
      BridgeMeaning(a[id], b[id]);
      AlikeClose(a[id], b[id]);
    }
  }

  // ----- Edits -----

  /** The fields each public update writes, and that it writes no others. */
  lemma EditEffects(item: ItemProgress, edit: Edit)
    ensures var r := ApplyEdit(item, edit);
            match edit
            case Preparing(stage) =>
              r == ItemProgress(item.itemId, 0, 0, Finite(0.0), Finite(0.0), true, "preparing", stage, item.revision)
            case Downloading => r == item.(isDownloading := true, status := "downloading", stage := "")
            case SetReceived(n) => Received(item, n, item.speedMbps, r)
            case SetReceivedWithSpeed(n, speed) => Received(item, n, speed, r)
            case SetProgress(p, n, total) => Progressed(item, p, n, total, r)
            case Finalizing => r == item.(progress := Finite(1.0), status := "finalizing", stage := "")
            case Complete =>
              r == item.(progress := Finite(1.0), isDownloading := false, status := "completed", stage := "")
  {}

  /** Bytes arrived: a known total gives the progress, and any byte starts the download. */
  ghost predicate Received(item: ItemProgress, n: int, speed: Float, r: ItemProgress) {
    && r.bytesReceived == n && r.speedMbps == speed
    && r.bytesTotal == item.bytesTotal && r.itemId == item.itemId && r.revision == item.revision
    && (if item.bytesTotal > 0
        then r.progress.Finite? && r.progress.value * item.bytesTotal as real == n as real
        else r.progress == item.progress)
    && (if n > 0 then r.isDownloading && r.status == "downloading" && r.stage == ""
        else r.isDownloading == item.isDownloading && r.status == item.status && r.stage == item.stage)
  }

  /** Progress without bytes does not show before the download starts, unless it is complete. */
  ghost predicate Progressed(item: ItemProgress, p: Float, n: int, total: int, r: ItemProgress) {
    var started := n > 0 || total > 0 || p.PosInf? || (p.Finite? && p.value >= 1.0);
    && r.progress == (if item.status == "preparing" && !started then Finite(0.0) else p)
    && r.bytesReceived == (if n > 0 then n else item.bytesReceived)
    && r.bytesTotal == (if total > 0 then total else item.bytesTotal)
    && r.speedMbps == item.speedMbps && r.itemId == item.itemId && r.revision == item.revision
    && (if started || item.status == "downloading" then r.isDownloading && r.status == "downloading" && r.stage == ""
        else r.isDownloading == item.isDownloading && r.status == item.status && r.stage == item.stage)
  }

  // ----- Starting and updating -----

  /** The id is live, blank and at the new sequence, its tombstone is gone, and nothing else moved. */
  ghost predicate Starts(s: State, id: string, t: State) {
    && t.sequence == s.sequence + 1
    && t.items.Keys == s.items.Keys + {id}
    && t.items[id] == ItemProgress(id, 0, 0, Finite(0.0), Finite(0.0), false, "preparing", "", t.sequence)
    && (forall k :: k in s.items && k != id ==> t.items[k] == s.items[k])
    && t.removed.Keys == s.removed.Keys - {id}
    && (forall k :: k in t.removed ==> t.removed[k] == s.removed[k])
    && t.dirty && t.reset == s.reset && t.cached == s.cached && t.closed == s.closed
  }

  lemma StartEffect(s: State, id: string)
    ensures Starts(s, id, Start(s, id))
  {}

  /** An edit that can be seen gets the next revision; one that cannot leaves everything but the item. */
  ghost predicate Updates(s: State, id: string, edit: Edit, t: State) {
    && t.removed == s.removed && t.reset == s.reset && t.cached == s.cached && t.closed == s.closed
    && t.items.Keys == s.items.Keys
    && (forall k :: k in s.items && k != id ==> t.items[k] == s.items[k])
    && (if id in s.items && !LookAlike(s.items[id], ApplyEdit(s.items[id], edit))
        then t.sequence == s.sequence + 1 && t.dirty
             && t.items[id] == ApplyEdit(s.items[id], edit).(revision := t.sequence)
        else t.sequence == s.sequence && t.dirty == s.dirty
             && (id in s.items ==> t.items[id] == ApplyEdit(s.items[id], edit)))
  }

  lemma UpdateEffect(s: State, id: string, edit: Edit)
    ensures Updates(s, id, edit, Update(s, id, edit))
  {
    hide Bridge, LookAlike, ApplyEdit;
    if id in s.items { BridgeMeaning(s.items[id], ApplyEdit(s.items[id], edit)); }
  }

  /** In particular one that moves a live item further than `Close` allows. */
  lemma FarEditPublishes(s: State, id: string, edit: Edit)
    requires id in s.items && !Close(s.items[id], ApplyEdit(s.items[id], edit))
    ensures var t := Update(s, id, edit);
            t.sequence == s.sequence + 1 && t.items[id].revision == t.sequence && t.dirty
  {
    hide Bridge, LookAlike, ApplyEdit, Close;
    UpdateEffect(s, id, edit);
    if LookAlike(s.items[id], ApplyEdit(s.items[id], edit)) { AlikeClose(s.items[id], ApplyEdit(s.items[id], edit)); }
  }

  // ----- Removing -----

  function Named(ids: seq<string>): set<string> { set id | id in ids }

  /** The named ids that are live. */
  function LiveNamed(s: State, ids: seq<string>): set<string> { set id | id in ids && id in s.items }

  /** The revision of the tombstone of the i-th name, if it is its first mention and live. */
  function Turn(s: State, ids: seq<string>, i: nat): int
    requires i <= |ids|
  {
    s.sequence + 1 + |LiveNamed(s, ids[..i])|
  }

  /**
    Exactly the named items are gone. Each that was live used up one revision, in order of first
    mention, and has a tombstone of that revision, or had one at or below the watermark. Other
    tombstones stay or lie at or below the watermark, which moves only past 512 of them.
   */
  ghost predicate Removes(s: State, ids: seq<string>, t: State) {
    && t.items == s.items - Named(ids)
    && Buried(s, ids, t)
    && OthersKept(s, t) && t.removed.Keys <= s.removed.Keys + LiveNamed(s, ids)
    && UsesUp(s, |LiveNamed(s, ids)|, t)
    && (t.dirty <==> s.dirty || ids != [])
  }

  /** The sequence rises by n, at most n tombstones are added, and at most 512 move no watermark. */
  ghost predicate UsesUp(s: State, n: nat, t: State) {
    && t.sequence == s.sequence + n
    && |t.removed| <= |s.removed| + n
    && t.reset >= s.reset && (|s.removed| + n <= 512 ==> t.reset == s.reset)
    && t.cached == s.cached && t.closed == s.closed
  }

  ghost predicate OthersKept(s: State, t: State) {
    forall id :: id in s.removed ==>
      if id in t.removed then t.removed[id] == s.removed[id] else s.removed[id] <= t.reset
  }

  ghost predicate Buried(s: State, ids: seq<string>, t: State) {
    forall i :: 0 <= i < |ids| && ids[i] in s.items && ids[i] !in ids[..i] ==> Tombstone(t, ids[i], Turn(s, ids, i))
  }

  ghost predicate Tombstone(t: State, id: string, revision: int) {
    if id in t.removed then t.removed[id] == revision else revision <= t.reset
  }

  /** A prune changes tombstones and watermark only, and drops nothing above the new watermark. */
  ghost predicate Prunes(u: State, t: State) {
    && t.items == u.items && t.sequence == u.sequence && t.dirty == u.dirty
    && t.cached == u.cached && t.closed == u.closed && t.reset >= u.reset
    && t.removed.Keys <= u.removed.Keys && |t.removed| <= |u.removed|
    && OthersKept(u, t)
    && (|u.removed| <= 512 ==> t == u)
  }

  lemma PruneEffect(u: State)
    ensures Prunes(u, Prune(u))
  {
    var t := Prune(u);
    SubsetCount(t.removed.Keys, u.removed.Keys);
    assert |t.removed| == |t.removed.Keys| && |u.removed| == |u.removed.Keys|;
  }

  ghost predicate Buries(s: State, id: string, t: State) {
    && id !in s.removed
    && t.items == s.items - {id} && t.sequence == s.sequence + 1 && t.dirty
    && t.cached == s.cached && t.closed == s.closed && t.reset == s.reset
    && t.removed.Keys == s.removed.Keys + {id} && t.removed[id] == s.sequence + 1
    && (forall k :: k in s.removed ==> t.removed[k] == s.removed[k])
    && |t.removed| == |s.removed| + 1
  }

  lemma BuryEffect(s: State, id: string)
    requires Valid(s) && id in s.items
    ensures Buries(s, id, Bury(s, id))
  {
    BuryKeepsValid(s, id);
  }

  /** What removing one more id does, as far as it matters here. */
  ghost predicate OneRemoved(t: State, id: string, u: State) {
    && u.items == t.items - {id}
    && u.sequence == t.sequence + (if id in t.items then 1 else 0)
    && u.cached == t.cached && u.closed == t.closed && u.reset >= t.reset && u.dirty
    && u.removed.Keys <= t.removed.Keys + (if id in t.items then {id} else {})
    && (forall k :: k in t.removed ==> if k in u.removed then u.removed[k] == t.removed[k] else t.removed[k] <= u.reset)
    && (id in t.items ==> Tombstone(u, id, t.sequence + 1))
    && |u.removed| <= |t.removed| + (if id in t.items then 1 else 0)
    && (|t.removed| + (if id in t.items then 1 else 0) <= 512 ==> u.reset == t.reset)
  }

  lemma LiveNamedNext(s: State, ids: seq<string>, id: string)
    ensures Named(ids + [id]) == Named(ids) + {id}
    ensures s.items - Named(ids + [id]) == (s.items - Named(ids)) - {id}
    ensures LiveNamed(s, ids + [id]) == LiveNamed(s, ids) + if id in s.items then {id} else {}
    ensures |LiveNamed(s, ids + [id])| == |LiveNamed(s, ids)| + if id in s.items && id !in ids then 1 else 0
  {
    if id in s.items {
      assert LiveNamed(s, ids + [id]) == LiveNamed(s, ids) + {id};
    } else {
      assert LiveNamed(s, ids + [id]) == LiveNamed(s, ids);
    }
  }

  /** One more name. */
  lemma RemovesNext(s: State, ids: seq<string>, t: State, id: string, u: State)
    requires s.items.Keys !! s.removed.Keys && Removes(s, ids, t) && OneRemoved(t, id, u)
    ensures Removes(s, ids + [id], u)
  {
    hide Buried, OthersKept, Tombstone, UsesUp, OneRemoved, Named, LiveNamed;
    UsedUp(s, |LiveNamed(s, ids)|, t);
    KeysNext(s, ids, t, id, u);
    BuriedNext(s, ids, t, id, u);
    OthersNext(s, t, id, u);
    UsesUpNext(s, |LiveNamed(s, ids)|, t, id, u);
  }

  lemma KeysNext(s: State, ids: seq<string>, t: State, id: string, u: State)
    requires t.items == s.items - Named(ids) && t.removed.Keys <= s.removed.Keys + LiveNamed(s, ids)
    requires OneRemoved(t, id, u)
    ensures id in t.items <==> id in s.items && id !in ids
    ensures u.items == s.items - Named(ids + [id])
    ensures u.removed.Keys <= s.removed.Keys + LiveNamed(s, ids + [id])
    ensures |LiveNamed(s, ids + [id])| == |LiveNamed(s, ids)| + if id in t.items then 1 else 0
    ensures u.dirty
  {
    hide Tombstone;
    LiveNamedNext(s, ids, id);
  }

  lemma UsedUp(s: State, n: nat, t: State)
    requires UsesUp(s, n, t)
    ensures t.sequence == s.sequence + n
  {}

  lemma UsesUpNext(s: State, n: nat, t: State, id: string, u: State)
    requires UsesUp(s, n, t) && OneRemoved(t, id, u)
    ensures UsesUp(s, if id in t.items then n + 1 else n, u)
  {}

  lemma OthersNext(s: State, t: State, id: string, u: State)
    requires OthersKept(s, t) && OneRemoved(t, id, u) && (id in t.items ==> id !in s.removed)
    ensures OthersKept(s, u)
  {}

  lemma BuriedNext(s: State, ids: seq<string>, t: State, id: string, u: State)
    requires Buried(s, ids, t) && OneRemoved(t, id, u)
    requires id in t.items <==> id in s.items && id !in ids
    requires t.sequence == s.sequence + |LiveNamed(s, ids)|
    ensures Buried(s, ids + [id], u)
  {
    hide LiveNamed, Tombstone, OneRemoved;
    var more := ids + [id];
    forall i | 0 <= i < |more| && more[i] in s.items && more[i] !in more[..i]
      ensures Tombstone(u, more[i], Turn(s, more, i))
    {
      if i < |ids| {
        assert more[..i] == ids[..i];
        assert Tombstone(t, ids[i], Turn(s, ids, i));
        TombstoneStays(t, id, u, ids[i], Turn(s, ids, i));
      } else {
        assert more[..i] == ids;
        NewTombstone(t, id, u);
      }
    }
  }

  lemma NewTombstone(t: State, id: string, u: State)
    requires OneRemoved(t, id, u) && id in t.items
    ensures Tombstone(u, id, t.sequence + 1)
  {}

  lemma TombstoneStays(t: State, id: string, u: State, k: string, revision: int)
    requires OneRemoved(t, id, u) && Tombstone(t, k, revision) && (id in t.items ==> k != id)
    ensures Tombstone(u, k, revision)
  {}

  lemma RemovedOne(t: State, id: string)
    requires Valid(t)
    ensures OneRemoved(t, id, Remove(t, id))
  {
    hide Valid, Prune, Bury, Buries, Prunes, OneRemoved;
    if id in t.items {
      BuryEffect(t, id);
      PruneEffect(Bury(t, id));
      RemovedLive(t, id, Bury(t, id), Prune(Bury(t, id)));
    } else {
      RemovedUnknown(t, id);
    }
  }

  lemma RemovedLive(t: State, id: string, b: State, u: State)
    requires id in t.items && Buries(t, id, b) && Prunes(b, u)
    ensures OneRemoved(t, id, u)
  {}

  lemma RemovedUnknown(t: State, id: string)
    requires id !in t.items
    ensures OneRemoved(t, id, t.(dirty := true))
  {
    assert t.items - {id} == t.items;
  }

  lemma RemoveEffect(s: State, ids: seq<string>, t: State, id: string)
    requires Valid(s) && Valid(t) && Removes(s, ids, t)
    ensures Removes(s, ids + [id], Remove(t, id))
  {
    hide Removes, OneRemoved, Remove;
    RemovedOne(t, id);
    RemovesNext(s, ids, t, id, Remove(t, id));
  }

  lemma RemovesNothing(s: State)
    ensures Removes(s, [], s)
  {
    assert s.items - Named([]) == s.items;
    assert LiveNamed(s, []) == {};
  }

  /** The effect of a whole batch. */
  lemma {:induction false} RemoveManyEffect(s: State, ids: seq<string>)
    requires Valid(s)
    ensures Removes(s, ids, RemoveMany(s, ids))
  {
    hide Valid, Removes, Remove;
    if ids == [] {
      RemovesNothing(s);
    } else {
      var front := ids[..|ids| - 1];
      RemoveManyEffect(s, front);
      RemoveManyKeepsValid(s, front);
      RemoveEffect(s, front, RemoveMany(s, front), ids[|ids| - 1]);
      assert ids == front + [ids[|ids| - 1]];
    }
  }

  // ----- What a delta carries -----

  /** Changed since, as the protocol has it; everything is at a reset. */
  ghost predicate Carried(s: State, since: int, id: string) {
    id in s.items && (since <= 0 || since < s.reset || s.items[id].revision > since)
  }

  /**
    No answer without news or with an item JSON cannot express. Otherwise the changed items as
    they are and, unless everything is sent anyway, the ids removed since.
   */
  lemma DeltaContents(s: State, since: int)
    ensures match DeltaSince(s, since)
            case None =>
              since >= s.sequence
              || exists id :: Carried(s, since, id)
                              && !(s.items[id].progress.Finite? && s.items[id].speedMbps.Finite?)
            case Some(d) =>
              && since < s.sequence == d.sequence
              && (forall id :: id in d.items <==> Carried(s, since, id))
              && (forall id :: id in d.items ==>
                    && d.items[id].(revision := s.items[id].revision) == s.items[id]
                    && d.items[id].progress.Finite? && d.items[id].speedMbps.Finite?)
              && (d.reset <==> since <= 0 || since < s.reset)
              && (forall id :: id in d.removed <==> !d.reset && id in s.removed && s.removed[id] > since)
  {
    var items := ChangedItems(s, since);
    assert forall id :: id in items <==> Carried(s, since, id);
    if since < s.sequence && exists id :: id in items && !IsFinite(items[id]) {
      var id :| id in items && !IsFinite(items[id]);
      assert Carried(s, since, id) && !IsFinite(s.items[id]);
    }
  }

  /** Can be noticed at this id: it starts, is named in a removal, or is edited so that it shows. */
  ghost predicate Touches(s: State, op: Op, id: string) {
    match op
    case OpStart(k) => k == id
    case OpUpdate(k, edit) => k == id && id in s.items && !LookAlike(s.items[id], ApplyEdit(s.items[id], edit))
    case OpRemoveMany(ids) => id in ids
    case OpSnapshot => false
    case OpShutdown => false
  }

  /** Nothing newer is known of an id: neither an item nor a tombstone. */
  ghost predicate NotSince(s: State, id: string, since: int) {
    (id in s.items ==> s.items[id].revision <= since) && (id in s.removed ==> s.removed[id] <= since)
  }

  lemma UntouchedStep(s: State, op: Op, id: string, since: int)
    requires Valid(s) && !Touches(s, op, id) && NotSince(s, id, since)
    ensures NotSince(Step(s, op), id, since)
  {
    hide Valid, LookAlike, ApplyEdit, Start, Update, RemoveMany, Snapshot, Buried;
    if s.closed || op.OpShutdown? { return; }
    match op {
      case OpStart(k) => StartEffect(s, k);
      case OpUpdate(k, edit) => UpdateEffect(s, k, edit); EditKeepsRevision(s, id, edit);
      case OpRemoveMany(ids) => RemoveManyEffect(s, ids);
      case OpSnapshot => SnapshotEffect(s);
      case OpShutdown =>
    }
  }

  lemma EditKeepsRevision(s: State, id: string, edit: Edit)
    ensures id in s.items ==> ApplyEdit(s.items[id], edit).revision == s.items[id].revision
  {}

  lemma SnapshotEffect(s: State)
    ensures Snapshot(s).items == s.items && Snapshot(s).removed == s.removed
  {}

  /** The operations from the n-th on leave the id alone. */
  ghost predicate LeftAlone(ops: seq<Op>, n: nat, id: string)
    requires n <= |ops|
  {
    forall k :: n <= k < |ops| ==> !Touches(Run(ops[..k]), ops[k], id)
  }

  lemma {:induction false} LeftAloneStays(ops: seq<Op>, n: nat, id: string, since: int)
    requires n <= |ops| && since >= Run(ops[..n]).sequence && LeftAlone(ops, n, id)
    ensures NotSince(Run(ops), id, since)
  {
    hide Valid, Touches, Step;
    if n == |ops| {
      assert ops[..n] == ops;
      ReachableValid(ops);
      NothingNewer(Run(ops), id);
    } else {
      var front := ops[..|ops| - 1];
      assert front[..n] == ops[..n] && forall k :: n <= k < |front| ==> front[..k] == ops[..k];
      LeftAloneStays(front, n, id, since);
      ReachableValid(front);
      UntouchedStep(Run(front), ops[|ops| - 1], id, since);
    }
  }

  lemma NothingNewer(s: State, id: string)
    requires Valid(s)
    ensures NotSince(s, id, s.sequence)
  {
    if id in s.items { assert Known(s, id); }
    if id in s.removed { assert Known(s, id); }
  }

  /** Deltas are sparse: without a reset they mention no id that nothing touched since the cursor. */
  lemma DeltaSparse(ops: seq<Op>, n: nat, id: string, since: int)
    requires n <= |ops| && since >= Run(ops[..n]).sequence && LeftAlone(ops, n, id)
    ensures var answer := DeltaSince(Run(ops), since);
            answer.Some? && !answer.value.reset ==> id !in answer.value.items && id !in answer.value.removed
  {
    LeftAloneStays(ops, n, id, since);
    DeltaContents(Run(ops), since);
  }
}
