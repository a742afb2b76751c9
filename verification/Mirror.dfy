/**
  The consumer side of download progress (desktop/src/events.rs, `download_loop`): a client
  keeps a copy of the items and a cursor, polls the registry for deltas and applies them, while
  the registry moves on between the two. Convergence can only be up to the bridge buckets,
  because silent edits get no revision.
 */
module Mirror {
  import opened Common
  import opened Progress
  import opened ProgressEffects

  // ----- The loop's own variables -----

  /** The listener's copy together with `sequence` and `last_payload` of the loop. */
  datatype Client = Client(copy: map<string, ItemProgress>, cursor: int, last: Option<Delta>)

  const NEW_CLIENT := Client(map[], 0, None)

  function Applied(copy: map<string, ItemProgress>, d: Delta): map<string, ItemProgress> {
    if d.reset then d.items else (copy + d.items) - d.removed
  }

  /** A payload equal to the previous one is dropped; a reset may lower the cursor. */
  function Handle(c: Client, d: Delta): Client {
    if c.last == Some(d) then c
    else Client(Applied(c.copy, d), if d.reset || d.sequence > c.cursor then d.sequence else c.cursor, Some(d))
  }

  /** After a failed poll the loop reconnects from the beginning; the copy stays on screen. */
  function Reconnect(c: Client): Client {
    c.(cursor := 0, last := None)
  }

  class DownloadLoop {
    var copy: map<string, ItemProgress>
    var sequence: int
    var lastPayload: Option<Delta>

    function State(): Client
      reads this
    {
      Client(copy, sequence, lastPayload)
    }

    constructor ()
      ensures State() == NEW_CLIENT
    {
      copy, sequence, lastPayload := map[], 0, None;
    }

    /** The `Ok` arm of a poll; the empty string carries no news. */
    method OnPayload(payload: Option<Delta>) returns (emitted: bool)
      modifies this
      ensures State() == if payload.Some? then Handle(old(State()), payload.value) else old(State())
      ensures emitted <==> payload.Some? && old(lastPayload) != payload
    {
      if payload.None? || lastPayload == payload { return false; }
      var delta := payload.value;
      if delta.reset || delta.sequence > sequence { sequence := delta.sequence; }
      copy := Applied(copy, delta);
      lastPayload := payload;
      return true;
    }

    method OnError()
      modifies this
      ensures State() == Reconnect(old(State()))
      ensures sequence == 0 && lastPayload == None && copy == old(copy)
    {
      sequence := 0;
      lastPayload := None;
    }
  }

  // ----- Registry and client together -----

  /** A payload on its way to the client, and the registry's items when it was taken. */
  datatype Flight = Flight(delta: Delta, taken: map<string, ItemProgress>)

  datatype World = World(server: State, client: Client, flight: Option<Flight>)

  const INITIAL_WORLD := World(INITIAL, NEW_CLIENT, None)

  datatype Event =
    | Server(op: Op)   // any operation of any thread on the registry
    | Poll             // the registry answers the client's long poll
    | Deliver          // the loop handles the answer
    | Fail             // the poll failed, or the loop was stopped and started again

  ghost function Next(w: World, e: Event): World {
    match e
    case Server(op) => w.(server := Step(w.server, op))
    case Poll =>
      var answer := DeltaSince(w.server, w.client.cursor);
      if w.flight.None? && !w.server.closed && answer.Some?
      then w.(flight := Some(Flight(answer.value, w.server.items))) else w
    case Deliver =>
      if w.flight.Some? then w.(client := Handle(w.client, w.flight.value.delta), flight := None) else w
    case Fail => w.(client := Reconnect(w.client), flight := None)
  }

  ghost function After(events: seq<Event>): World {
    if events == [] then INITIAL_WORLD else Next(After(events[..|events| - 1]), events[|events| - 1])
  }

  // ----- What a copy is good for -----

  /**
    A copy taken at `cursor` can be brought up to date by a delta since `cursor`: it is right
    about everything not changed since, and each id it holds in vain has a newer tombstone.
    A cursor at zero or before the watermark promises nothing; the answer to it is a reset.
   */
  ghost predicate Synced(s: State, copy: map<string, ItemProgress>, cursor: int) {
    0 < cursor && s.reset <= cursor && !s.closed ==>
      && (forall id :: id in s.items && s.items[id].revision <= cursor ==>
                         id in copy && Bridge(copy[id]) == Bridge(s.items[id]))
      && (forall id :: id in copy && id !in s.items ==> id in s.removed && cursor < s.removed[id])
  }

  lemma PublishedBridge(item: ItemProgress)
    ensures Bridge(Published(item)) == Bridge(item)
  {}

  lemma SameViews(a: map<string, ItemProgress>, b: map<string, ItemProgress>)
    requires a.Keys == b.Keys && forall id :: id in a ==> Bridge(a[id]) == Bridge(b[id])
    ensures View(a) == View(b)
  {}

  /** Where each id of a patched copy comes from. */
  lemma PatchedIds(s: State, copy: map<string, ItemProgress>, cursor: int, d: Delta)
    requires Valid(s) && !s.closed && 0 < cursor && s.reset <= cursor && Synced(s, copy, cursor)
    requires DeltaSince(s, cursor) == Some(d)
    ensures Applied(copy, d).Keys == s.items.Keys
  {
    hide Bridge, Published, IsFinite, ValidCache;
    var result := Applied(copy, d);
    forall id | id in s.items ensures id in result { assert id !in d.removed; }
    forall id | id in result ensures id in s.items { assert id in d.items || (id in copy && id !in d.removed); }
  }

  lemma PatchedItem(s: State, copy: map<string, ItemProgress>, cursor: int, d: Delta, id: string)
    requires Valid(s) && !s.closed && 0 < cursor && s.reset <= cursor && Synced(s, copy, cursor)
    requires DeltaSince(s, cursor) == Some(d) && id in s.items
    ensures id in Applied(copy, d)
    ensures s.items[id].revision > cursor ==> Applied(copy, d)[id] == Published(s.items[id])
    ensures s.items[id].revision <= cursor ==> id in copy && Applied(copy, d)[id] == copy[id]
  {
    hide Bridge, Published, IsFinite, ValidCache;
    assert id !in d.removed;
  }

  /** Applying an answer to a synced copy yields exactly the registry's view. */
  lemma AnswerConverges(s: State, copy: map<string, ItemProgress>, cursor: int)
    requires Valid(s) && !s.closed && 0 <= cursor <= s.sequence && Synced(s, copy, cursor)
    requires DeltaSince(s, cursor).Some?
    ensures View(Applied(copy, DeltaSince(s, cursor).value)) == View(s.items)
  {
    var d := DeltaSince(s, cursor).value;
    var result := Applied(copy, d);
    if IsReset(s, cursor) {
      assert result.Keys == s.items.Keys;
      assert forall id :: id in result ==> result[id] == Published(s.items[id]);
    } else {
      PatchedIds(s, copy, cursor, d);
    }
    forall id | id in s.items ensures Bridge(result[id]) == Bridge(s.items[id]) {
      PublishedBridge(s.items[id]);
      if !IsReset(s, cursor) { PatchedItem(s, copy, cursor, d, id); }
    }
    SameViews(result, s.items);
  }

  /** A copy that shows the registry's view is synced at the registry's sequence. */
  lemma EqualViewsSynced(s: State, copy: map<string, ItemProgress>)
    requires View(copy) == View(s.items)
    ensures Synced(s, copy, s.sequence)
  {
    forall id | id in s.items ensures id in copy && Bridge(copy[id]) == Bridge(s.items[id]) {
      assert id in View(s.items) && id in View(copy);
      assert View(s.items)[id] == View(copy)[id];
    }
    forall id | id in copy ensures id in s.items { assert id in View(copy); }
  }

  /** Conversely, a synced copy at the registry's sequence shows the registry's view. */
  lemma CaughtUpViews(s: State, copy: map<string, ItemProgress>)
    requires Valid(s) && !s.closed && 0 < s.sequence && Synced(s, copy, s.sequence)
    ensures View(copy) == View(s.items)
  {
    forall id | id in s.items ensures id in copy && Bridge(copy[id]) == Bridge(s.items[id]) {
      assert Known(s, id) && Stamp(s, id) == s.items[id].revision;
    }
    forall id | id in s.removed ensures s.removed[id] <= s.sequence {
      assert Known(s, id) && Stamp(s, id) == s.removed[id];
    }
  }

  // ----- The registry's operations keep every copy synced -----

  lemma StartKeepsSynced(s: State, id: string, copy: map<string, ItemProgress>, cursor: int)
    requires Valid(s) && cursor <= s.sequence && Synced(s, copy, cursor)
    ensures Synced(Start(s, id), copy, cursor)
  {}

  lemma ReplaceKeepsSynced(s: State, id: string, edited: ItemProgress, copy: map<string, ItemProgress>, cursor: int)
    requires Valid(s) && cursor <= s.sequence && Synced(s, copy, cursor)
    requires id in s.items && edited.revision == s.items[id].revision
    ensures Synced(Replace(s, id, edited), copy, cursor)
  {
    hide Bridge, Valid;
    RevisionIrrelevant(edited, s.sequence + 1);
  }

  lemma RevisionIrrelevant(item: ItemProgress, revision: int)
    ensures Bridge(item.(revision := revision)) == Bridge(item)
  {}

  lemma BuryKeepsSynced(s: State, id: string, copy: map<string, ItemProgress>, cursor: int)
    requires Valid(s) && cursor <= s.sequence && Synced(s, copy, cursor) && id in s.items
    ensures Synced(Bury(s, id), copy, cursor)
  {}

  /** Pruning drops only tombstones at or below the new watermark. */
  lemma PruneKeepsSynced(s: State, copy: map<string, ItemProgress>, cursor: int)
    requires Synced(s, copy, cursor)
    ensures Synced(Prune(s), copy, cursor)
  {}

  lemma RemoveKeepsSynced(s: State, id: string, copy: map<string, ItemProgress>, cursor: int)
    requires Valid(s) && cursor <= s.sequence && Synced(s, copy, cursor)
    ensures Synced(Remove(s, id), copy, cursor)
  {
    if id in s.items {
      BuryKeepsSynced(s, id, copy, cursor);
      PruneKeepsSynced(Bury(s, id), copy, cursor);
    }
  }

  lemma {:induction false} RemoveManyKeepsSynced(s: State, ids: seq<string>,
                                                 copy: map<string, ItemProgress>, cursor: int)
    requires Valid(s) && cursor <= s.sequence && Synced(s, copy, cursor)
    ensures Synced(RemoveMany(s, ids), copy, cursor)
  {
    if ids != [] {
      var front := ids[..|ids| - 1];
      RemoveManyKeepsSynced(s, front, copy, cursor);
      RemoveManyKeepsValid(s, front);
      RemoveManySeq(s, front);
      RemoveKeepsSynced(RemoveMany(s, front), ids[|ids| - 1], copy, cursor);
    }
  }

  lemma StepKeepsSynced(s: State, op: Op, copy: map<string, ItemProgress>, cursor: int)
    requires Valid(s) && cursor <= s.sequence && Synced(s, copy, cursor)
    ensures Synced(Step(s, op), copy, cursor)
  {
    if s.closed || op.OpShutdown? { return; }
    match op {
      case OpStart(id) =>
        StartKeepsSynced(s, id, copy, cursor);
        assert Step(s, op) == Start(s, id);
      case OpUpdate(id, edit) =>
        if id in s.items { ReplaceKeepsSynced(s, id, ApplyEdit(s.items[id], edit), copy, cursor); }
        assert Step(s, op) == Update(s, id, edit);
      case OpRemoveMany(ids) =>
        RemoveManyKeepsSynced(s, ids, copy, cursor);
        assert Step(s, op) == RemoveMany(s, ids);
      case OpSnapshot =>
    }
  }

  // ----- Runs -----

  /** The state a flight will leave the client in is as good as one already applied. */
  ghost predicate WorldValid(w: World) {
    && Valid(w.server)
    && 0 <= w.client.cursor <= w.server.sequence
    && Synced(w.server, w.client.copy, w.client.cursor)
    && (w.server.sequence == 0 ==> w.client.copy == map[])
    && (w.client.last.Some? ==> w.client.last.value.sequence <= w.client.cursor)
    && (w.flight.Some? ==> FlightValid(w, w.flight.value))
  }

  ghost predicate FlightValid(w: World, f: Flight) {
    && w.client.cursor < f.delta.sequence <= w.server.sequence
    && View(Applied(w.client.copy, f.delta)) == View(f.taken)
    && Synced(w.server, Applied(w.client.copy, f.delta), f.delta.sequence)
  }

  lemma PollKeepsValid(w: World)
    requires WorldValid(w)
    ensures WorldValid(Next(w, Poll))
  {
    var answer := DeltaSince(w.server, w.client.cursor);
    if w.flight.None? && !w.server.closed && answer.Some? {
      AnswerConverges(w.server, w.client.copy, w.client.cursor);
      EqualViewsSynced(w.server, Applied(w.client.copy, answer.value));
    }
  }

  lemma ServerKeepsValid(w: World, op: Op)
    requires WorldValid(w)
    ensures WorldValid(Next(w, Server(op)))
  {
    StepKeepsValid(w.server, op);
    StepKeepsSynced(w.server, op, w.client.copy, w.client.cursor);
    if w.flight.Some? {
      var d := w.flight.value.delta;
      StepKeepsSynced(w.server, op, Applied(w.client.copy, d), d.sequence);
    }
  }

  lemma NextKeepsValid(w: World, e: Event)
    requires WorldValid(w)
    ensures WorldValid(Next(w, e))
  {
    match e {
      case Server(op) => ServerKeepsValid(w, op);
      case Poll => PollKeepsValid(w);
      case Deliver =>
      case Fail =>
    }
  }

  lemma {:induction false} AfterValid(events: seq<Event>)
    ensures WorldValid(After(events))
  {
    if events != [] {
      AfterValid(events[..|events| - 1]);
      NextKeepsValid(After(events[..|events| - 1]), events[|events| - 1]);
    }
  }

  /**
    Mirror convergence. In every run, however registry operations, polls, failures and
    deliveries interleave, a delivered payload is never dropped as a repetition, and after it
    the copy has exactly the ids and bridge states the registry had when it answered.
   */
  lemma DeliveryConverges(events: seq<Event>)
    requires After(events).flight.Some?
    ensures var w := After(events);
            var arrived := Next(w, Deliver).client;
            && w.client.last != Some(w.flight.value.delta)
            && View(arrived.copy) == View(w.flight.value.taken) && AllClose(arrived.copy, w.flight.value.taken)
            && arrived.cursor == w.flight.value.delta.sequence
  {
    AfterValid(events);
    hide AllClose;
    EqualViewsClose(Next(After(events), Deliver).client.copy, After(events).flight.value.taken);
  }

  /** Whenever the cursor has reached the registry's sequence, the copy is up to date. */
  lemma CaughtUpMeansEqual(events: seq<Event>)
    requires !After(events).server.closed
    requires After(events).client.cursor == After(events).server.sequence
    ensures View(After(events).client.copy) == View(After(events).server.items)
    ensures AllClose(After(events).client.copy, After(events).server.items)
  {
    AfterValid(events);
    var w := After(events);
    if w.server.sequence > 0 {
      CaughtUpViews(w.server, w.client.copy);
    } else {
      NothingYet(w.server);
    }
    hide AllClose;
    EqualViewsClose(w.client.copy, w.server.items);
  }

  lemma NothingYet(s: State)
    requires Valid(s) && s.sequence == 0
    ensures s.items == map[]
  {
    forall id | id in s.items ensures false { assert Known(s, id); }
  }

  /** Every item a delta since the cursor would carry can be expressed in JSON. */
  ghost predicate Expressible(s: State, cursor: int) {
    forall id :: id in ChangedItems(s, cursor) ==> IsFinite(ChangedItems(s, cursor)[id])
  }

  /**
    From any reachable point, one poll is answered exactly if something changed since the cursor
    and all changed items are finite. Answered at once and delivered, it brings the copy up to
    date; one that a changed item blocks leaves the copy as right or wrong as it was.
   */
  lemma OnePollSuffices(events: seq<Event>)
    requires After(events).flight.None? && !After(events).server.closed
    ensures var w := After(events);
            && (Next(w, Poll).flight.Some? <==>
                  w.client.cursor < w.server.sequence && Expressible(w.server, w.client.cursor))
            && (Next(w, Poll).flight.None? ==> Next(w, Poll) == w)
            && (View(Next(Next(w, Poll), Deliver).client.copy) == View(w.server.items) <==>
                  Expressible(w.server, w.client.cursor) || View(w.client.copy) == View(w.server.items))
  {
    hide AllClose;
    AfterValid(events);
    var w := After(events);
    var s, cursor := w.server, w.client.cursor;
    if cursor == s.sequence {
      CaughtUpMeansEqual(events);
    } else if Expressible(s, cursor) {
      AnswerConverges(s, w.client.copy, cursor);
    }
  }

  const SILENCED := [Server(OpStart("a")), Server(OpUpdate("a", SetProgress(NaN, 1, 0)))]

  /** The blocked case is reachable: an item whose progress is not a number silences its own delta. */
  lemma NonFiniteSilences()
    ensures var w := After(SILENCED);
            && w.flight.None? && !w.server.closed && !Expressible(w.server, w.client.cursor)
            && Next(w, Poll) == w
            && View(w.client.copy) != View(w.server.items)
  {
    assert SILENCED[..1] == [Server(OpStart("a"))] && SILENCED[..1][..0] == [];
    var w := After(SILENCED);
    assert After(SILENCED[..1]).server == Start(INITIAL, "a");
    assert "a" in w.server.items && !IsFinite(w.server.items["a"]);
    assert "a" in ChangedItems(w.server, 0) && !IsFinite(ChangedItems(w.server, 0)["a"]);
    assert "a" in View(w.server.items) && w.client == NEW_CLIENT;
  }
}
