/**
  The registry object of core/src/progress.rs: its methods update the fields in place, one
  critical section each, and are proved to take exactly the steps of module `Progress`.
 */
module ProgressRegistry {
  import opened Common
  import opened Progress
  import opened ProgressEffects
  import P = Progress

  datatype ProgressError = Closed

  function Insert(sorted: seq<int>, v: int): seq<int> {
    if sorted == [] || v < sorted[0] then [v] + sorted else [sorted[0]] + Insert(sorted[1..], v)
  }

  predicate Increasing(s: seq<int>) { forall i, j :: 0 <= i < j < |s| ==> s[i] < s[j] }

  function Elements(s: seq<int>): set<int> { set x | x in s }

  lemma {:induction false} InsertIncreasing(s: seq<int>, v: int)
    requires Increasing(s) && v !in s
    ensures Increasing(Insert(s, v))
    ensures Elements(Insert(s, v)) == Elements(s) + {v}
  {
    if s == [] || v < s[0] {
      ConsElements(v, s);
    } else {
      InsertIncreasing(s[1..], v);
      var rest := Insert(s[1..], v);
      assert s == [s[0]] + s[1..];
      ConsElements(s[0], s[1..]);
      ConsElements(s[0], rest);
      ConsIncreasing(s[0], rest);
    }
  }

  lemma ConsElements(v: int, s: seq<int>)
    ensures Elements([v] + s) == {v} + Elements(s)
  {}

  lemma ConsIncreasing(v: int, s: seq<int>)
    requires Increasing(s) && forall x :: x in Elements(s) ==> v < x
    ensures Increasing([v] + s)
  {
    forall i | 0 <= i < |s| ensures v < s[i] { assert s[i] in Elements(s); }
  }

  lemma {:induction false} DistinctCount(s: seq<int>)
    requires Increasing(s)
    ensures |Elements(s)| == |s|
  {
    if s != [] {
      var front, last := s[..|s| - 1], s[|s| - 1];
      DistinctCount(front);
      assert s == front + [last];
      assert Elements(s) == Elements(front) + {last};
    }
  }

  /** The middle of the sorted revisions is the cutoff the specification names. */
  lemma MiddleIsCutoff(removed: map<string, int>, sorted: seq<int>)
    requires |removed| > 0 && Increasing(sorted) && Elements(sorted) == removed.Values
    ensures removed.Values != {} && |sorted| > 0
    ensures sorted[|sorted| / 2] == Cutoff(removed)
  {
    NonEmptyValues(removed);
    DistinctCount(sorted);
    var k := |sorted| / 2;
    var values := removed.Values;
    KthHasRank(values, k);
    DistinctCount(sorted[..k]);
    assert Below(values, sorted[k]) == Elements(sorted[..k]) by {
      forall x | x in Below(values, sorted[k]) ensures x in Elements(sorted[..k]) {
        assert x in Elements(sorted);
        var i :| 0 <= i < |sorted| && sorted[i] == x;
        assert sorted[..k][i] == x;
      }
      forall x | x in Elements(sorted[..k]) ensures x in Below(values, sorted[k]) {
        var i :| 0 <= i < k && sorted[i] == x;
        assert x in Elements(sorted);
      }
    }
    assert sorted[k] in Elements(sorted);
    RankDecides(values, sorted[k], Kth(values, k));
  }

  method SortedRevisions(removed: map<string, int>) returns (sorted: seq<int>)
    requires Injective(removed)
    ensures Increasing(sorted) && Elements(sorted) == removed.Values
  {
    sorted := [];
    var pending := removed.Keys;
    while pending != {}
      invariant pending <= removed.Keys
      invariant Increasing(sorted)
      invariant forall x :: x in sorted <==> exists id :: id in removed.Keys - pending && removed[id] == x
      decreases |pending|
    {
      var id :| id in pending;
      ghost var before := sorted;
      InsertIncreasing(sorted, removed[id]);
      sorted := Insert(sorted, removed[id]);
      pending := pending - {id};
      forall x ensures x in sorted <==> exists k :: k in removed.Keys - pending && removed[k] == x {
        assert x in sorted <==> x in Elements(sorted);
        assert x in sorted <==> x in before || x == removed[id];
        if x in before {
          var k :| k in removed.Keys - (pending + {id}) && removed[k] == x;
          assert k in removed.Keys - pending;
        }
        if x == removed[id] { assert id in removed.Keys - pending; }
      }
    }
    forall x ensures x in Elements(sorted) <==> x in removed.Values {
      if x in removed.Values {
        var id :| id in removed && removed[id] == x;
        assert id in removed.Keys - pending && removed[id] == x;
      }
    }
  }

  class ProgressRegistry {
    var items: map<string, ItemProgress>
    var removed: map<string, int>
    var sequence: int
    var reset: int
    var dirty: bool
    var cached: map<string, ItemProgress>
    var closed: bool

    function State(): P.State
      reads this
    {
      P.State(items, removed, sequence, reset, dirty, cached, closed)
    }

    ghost predicate Valid()
      reads this
    {
      P.Valid(State())
    }

    constructor ()
      ensures Valid() && State() == INITIAL
    {
      items, removed, sequence, reset, dirty, cached, closed := map[], map[], 0, 0, true, map[], false;
    }

    method Advance() returns (revision: int)
      modifies this
      ensures revision == old(sequence) + 1
      ensures State() == old(State()).(sequence := revision, dirty := true)
    {
      sequence := sequence + 1;
      dirty := true;
      revision := sequence;
    }

    method Start(id: string) returns (r: Result<(), ProgressError>)
      requires Valid()
      modifies this
      ensures Valid() && State() == Step(old(State()), OpStart(id))
      ensures !old(closed) ==> Starts(old(State()), id, State())
      ensures r == if old(closed) then Err(Closed) else Ok(())
    {
      hide Starts;
      StepKeepsValid(State(), OpStart(id));
      ghost var after := Step(State(), OpStart(id));
      if closed { return Err(Closed); }
      var revision := Advance();
      items := items[id := Fresh(id, revision)];
      removed := removed - {id};
      assert State() == after;
      StartEffect(old(State()), id);
      return Ok(());
    }

    method Update(id: string, edit: Edit) returns (r: Result<(), ProgressError>)
      requires Valid()
      modifies this
      ensures Valid() && State() == Step(old(State()), OpUpdate(id, edit))
      ensures !old(closed) ==> Updates(old(State()), id, edit, State())
      ensures r == if old(closed) then Err(Closed) else Ok(())
    {
      hide Updates;
      StepKeepsValid(State(), OpUpdate(id, edit));
      if closed { return Err(Closed); }
      if id in items {
        var edited := ApplyEdit(items[id], edit);
        Store(id, edited);
      }
      UpdateEffect(old(State()), id, edit);
      return Ok(());
    }

    /** The edited item, with a new revision only if its bridge buckets changed. */
    method Store(id: string, edited: ItemProgress)
      requires id in items
      modifies this
      ensures State() == Replace(old(State()), id, edited)
    {
      ghost var after := Replace(State(), id, edited);
      var before := Bridge(items[id]);
      items := items[id := edited];
      if Bridge(edited) != before {
        var revision := Advance();
        items := items[id := edited.(revision := revision)];
      }
      assert State() == after;
    }

    method RemoveMany(ids: seq<string>) returns (r: Result<(), ProgressError>)
      requires Valid()
      modifies this
      ensures Valid() && State() == Step(old(State()), OpRemoveMany(ids))
      ensures !old(closed) ==> Removes(old(State()), ids, State())
      ensures r == if old(closed) then Err(Closed) else Ok(())
    {
      hide Removes;
      if closed { return Err(Closed); }
      ghost var start := State();
      for i := 0 to |ids|
        invariant Valid() && !closed
        invariant State() == P.RemoveMany(start, ids[..i])
      {
        assert ids[..i + 1][..i] == ids[..i];
        RemoveKeepsValid(State(), ids[i]);
        RemoveOne(ids[i]);
      }
      assert ids[..|ids|] == ids;
      RemoveManyEffect(start, ids);
      return Ok(());
    }

    /** One iteration of the loop over the removed ids. */
    method RemoveOne(id: string)
      requires Valid()
      modifies this
      ensures State() == Remove(old(State()), id)
    {
      hide P.Valid, Bridge, Prune;
      if id in items {
        BuriedInjective(State(), id);
        items := items - {id};
        var revision := Advance();
        removed := removed[id := revision];
        assert State() == Bury(old(State()), id);
        PruneTombstones();
        assert State() == Prune(Bury(old(State()), id));
      }
      dirty := true;
    }

    /** Past 512 tombstones, everything up to the median revision is forgotten. */
    method PruneTombstones()
      requires Injective(removed) && dirty
      modifies this`removed, this`reset
      ensures State() == Prune(old(State())) && dirty
    {
      hide Cutoff, Injective;
      if |removed| > TOMBSTONE_LIMIT {
        var revisions := SortedRevisions(removed);
        MiddleIsCutoff(removed, revisions);
        var cutoff := revisions[|revisions| / 2];
        removed := Retained(removed, cutoff);
        reset := if reset >= cutoff then reset else cutoff;
      }
    }

    /**
      The cached JSON shows the live items up to bridge equality; a stale cache and an item JSON
      cannot express give the empty document.
     */
    method Snapshot() returns (r: Result<map<string, ItemProgress>, ProgressError>)
      requires Valid()
      modifies this
      ensures Valid() && State() == Step(old(State()), OpSnapshot)
      ensures old(closed) ==> r == Err(Closed)
      ensures !old(closed) && old(dirty) && (exists id :: id in items && !IsFinite(items[id])) ==> r == Ok(map[])
      ensures !old(closed) && (!old(dirty) || forall id :: id in items ==> IsFinite(items[id])) ==>
                r.Ok? && View(r.value) == View(old(items))
    {
      StepKeepsValid(State(), OpSnapshot);
      if closed { return Err(Closed); }
      if dirty {
        if exists id :: id in items && !IsFinite(items[id]) { return Ok(map[]); }
        cached := items;
        dirty := false;
      }
      return Ok(cached);
    }

    method Close()
      requires Valid()
      modifies this
      ensures Valid() && State() == Step(old(State()), OpShutdown)
      ensures closed && items == map[] && removed == map[] && cached == map[]
    {
      StepKeepsValid(State(), OpShutdown);
      closed := true;
      items, removed, cached := map[], map[], map[];
    }
  }

  lemma BuriedInjective(s: P.State, id: string)
    requires P.Valid(s) && id in s.items
    ensures Injective(Bury(s, id).removed)
  {
    BuryKeepsValid(s, id);
    var t := Bury(s, id);
    forall a, b | a in t.removed && b in t.removed && a != b ensures t.removed[a] != t.removed[b] {
      assert Known(t, a) && Known(t, b) && Stamp(t, a) == t.removed[a] && Stamp(t, b) == t.removed[b];
    }
  }
}
