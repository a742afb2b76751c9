/**
  The registry object of extensions/src/auth.rs and its runs: a callback state is good for one
  consuming resolution.
 */
module AuthRegistry {
  import opened Common
  import opened Auth
  import A = Auth

  class AuthRegistry {
    var pending: Pending
    var owners: Owners
    var closed: bool

    function View(): A.State
      reads this
    {
      State(pending, owners)
    }

    /** Shutdown leaves nothing behind. */
    ghost predicate Valid()
      reads this
    {
      A.Valid(View()) && (closed ==> View() == EMPTY)
    }

    constructor ()
      ensures Valid() && !closed && View() == EMPTY
    {
      pending, owners, closed := map[], map[], false;
    }

    /** The first waiting request for a state, in map order, that has not expired. */
    method FindAlias(nonce: string, now: int) returns (heir: Option<string>)
      ensures Handover(pending, nonce, now, heir)
    {
      heir := None;
      var left := pending.Keys;
      while left != {}
        invariant left <= pending.Keys
        invariant heir.None? ==> forall id :: Alias(pending, id, nonce, now) ==> id in left
        invariant heir.Some? ==>
                    && Alias(pending, heir.value, nonce, now)
                    && forall id :: Alias(pending, id, nonce, now) && id !in left ==> !Less(id, heir.value)
        decreases |left|
      {
        var id :| id in left;
        left := left - {id};
        if pending[id].state == nonce && now - pending[id].createdAt < PENDING_TTL {
          if heir.None? {
            heir := Some(id);
            LessTotal(id, id);
          } else {
            ghost var best := heir.value;
            LessTotal(id, best);
            LessTotal(id, id);
            if Less(id, heir.value) {
              forall other | Alias(pending, other, nonce, now) && other !in left ensures !Less(other, id) {
                if Less(other, id) { LessTransitive(other, id, best); }
              }
              heir := Some(id);
            }
          }
        }
      }
    }

    method RemovePending(id: string, now: int)
      requires A.Valid(View())
      modifies this`pending, this`owners
      ensures A.Valid(View()) && Removed(old(View()), id, now, View())
      ensures pending == old(pending) - {id}
    {
      ghost var before := View();
      if id !in pending { return; }
      var request := pending[id];
      pending := pending - {id};
      if request.state in owners && owners[request.state] == id {
        owners := owners - {request.state};
        var heir := FindAlias(request.state, now);
        if heir.Some? { owners := owners[request.state := heir.value]; }
        assert owners == match heir case Some(next) => before.owners[request.state := next]
                                    case None => before.owners - {request.state};
      }
      assert Removed(before, id, now, View());
      RemovedKeepsValid(before, id, now, View());
    }

    /** A journal that cannot be written leaves both maps as they were. */
    method RegisterPending(asked: Request, generated: string, now: int, saved: bool) returns (r: Result<(), AuthError>)
      requires Valid()
      modifies this
      ensures Valid() && closed == old(closed)
      ensures r.Err? ==> View() == old(View())
      ensures Trim(asked.extensionId) == "" ==> r == Err(IdRequired)
      ensures Trim(asked.extensionId) != "" && closed ==> r == Err(EnvironmentClosed)
      ensures Trim(asked.extensionId) != "" && !closed ==>
                var request := Completed(asked, generated, now);
                r == if Conflicts(old(View()), request) then Err(AlreadyRegistered)
                     else if !saved then Err(NotSaved) else Ok(())
      ensures r.Ok? ==> Takes(old(View()), Register(Completed(asked, generated, now), now), View())
      ensures r.Ok? ==> Registered(old(View()), Completed(asked, generated, now), View())
      ensures !r.Ok? && Trim(asked.extensionId) != "" && !closed ==>
                !saved || TakenByAnother(old(View()), Completed(asked, generated, now))
      ensures r.Ok? ==> !TakenByAnother(old(View()), Completed(asked, generated, now))
    {
      hide Registered, TakenByAnother;
      if Trim(asked.extensionId) == "" { return Err(IdRequired); }
      var request := Completed(asked, generated, now);
      ConflictsMeaning(View(), request);
      if closed { return Err(EnvironmentClosed); }
      var previous, previousOwners := pending, owners;
      ghost var before := View();
      if request.state in owners && owners[request.state] != request.extensionId {
        var owner := owners[request.state];
        if !(owner in pending && SameChallenge(pending[owner], request)) { return Err(AlreadyRegistered); }
      }
      if request.extensionId in pending && pending[request.extensionId].state != request.state {
        RemovePending(request.extensionId, now);
        ReplacementSafe(before, request, now, View());
      }
      ghost var between := View();
      InsertedKeepsValid(between, request);
      if request.state !in owners { owners := owners[request.state := request.extensionId]; }
      pending := pending[request.extensionId := request];
      assert View() == Inserted(between, request);
      if !saved {
        pending := previous;
        owners := previousOwners;
        return Err(NotSaved);
      }
      TakesRegistered(before, request, now, View());
      return Ok(());
    }

    method ClearPending(id: string, now: int)
      requires Valid()
      modifies this
      ensures Valid() && closed == old(closed) && Takes(old(View()), Remove(id, now), View())
    {
      RemovePending(id, now);
    }

    /** Looking at a request drops it once it has expired. */
    method Pending(id: string, now: int) returns (r: Option<Request>)
      requires Valid()
      modifies this
      ensures Valid() && closed == old(closed)
      ensures var expired := id in old(pending) && now - old(pending)[id].createdAt >= PENDING_TTL;
              && (r == if id in old(pending) && !expired then Some(old(pending)[id]) else None)
              && if expired then Takes(old(View()), Remove(id, now), View()) else View() == old(View())
    {
      if id in pending && now - pending[id].createdAt >= PENDING_TTL { RemovePending(id, now); }
      return if id in pending then Some(pending[id]) else None;
    }

    /**
      `resolve_callback`: succeeds for the fresh owner of the state. Anything but a successful
      look without consuming forgets the state, even if the journal cannot be written.
     */
    method ResolveCallback(asked: string, consume: bool, now: int, saved: bool) returns (r: Result<string, AuthError>)
      requires Valid()
      modifies this
      ensures Valid() && closed == old(closed)
      ensures Trim(asked) == "" ==> r == Err(StateRequired) && View() == old(View())
      ensures Trim(asked) != "" ==>
                var nonce := Trim(asked);
                var valid := Resolves(old(View()), nonce, now);
                && Takes(old(View()), Resolve(nonce, now, consume), View())
                && r == if (!valid || consume) && !saved then Err(NotSaved)
                        else if valid then Ok(old(owners)[nonce]) else Err(InvalidState)
      ensures r.Ok? ==>
                var nonce, id := Trim(asked), r.value;
                && nonce in old(owners) && old(owners)[nonce] == id && id in old(pending)
                && old(pending)[id].state == nonce
                && old(pending)[id].createdAt <= now < old(pending)[id].createdAt + 180_000_000_000
                && (consume ==> nonce !in owners && forall k :: k in pending ==> pending[k].state != nonce)
      ensures r == Err(InvalidState) ==>
                var nonce := Trim(asked);
                nonce in old(owners) && old(owners)[nonce] in old(pending) ==>
                  var request := old(pending)[old(owners)[nonce]];
                  now < request.createdAt || now >= request.createdAt + 180_000_000_000
    {
      var nonce := Trim(asked);
      if nonce == "" { return Err(StateRequired); }
      var owner := if nonce in owners then Some(owners[nonce]) else None;
      var valid := owner.Some? && owner.value in pending && pending[owner.value].state == nonce
                   && Fresh(pending[owner.value], now);
      if !valid || consume {
        ForgottenKeepsValid(View(), nonce);
        owners := owners - {nonce};
        pending := map id | id in pending && pending[id].state != nonce :: pending[id];
        if !saved { return Err(NotSaved); }
      }
      if valid { return Ok(owner.value); } else { return Err(InvalidState); }
    }

    method Shutdown()
      requires Valid()
      modifies this
      ensures Valid() && closed && View() == EMPTY
    {
      pending, owners, closed := map[], map[], true;
    }
  }

  /** The Unicode White_Space characters. */
  predicate Space(c: char) {
    var code := c as int;
    || 0x09 <= code <= 0x0D || code == 0x20 || code == 0x85 || code == 0xA0 || code == 0x1680
    || 0x2000 <= code <= 0x200A || code == 0x2028 || code == 0x2029 || code == 0x202F || code == 0x205F
    || code == 0x3000
  }

  function LeadingSpace(s: string): (n: nat)
    ensures n <= |s| && (forall k :: 0 <= k < n ==> Space(s[k])) && (n < |s| ==> !Space(s[n]))
  {
    if s == "" || !Space(s[0]) then 0 else 1 + LeadingSpace(s[1..])
  }

  function TrailingSpace(s: string): (n: nat)
    ensures n <= |s| && (forall k :: |s| - n <= k < |s| ==> Space(s[k])) && (n < |s| ==> !Space(s[|s| - n - 1]))
  {
    if s == "" || !Space(s[|s| - 1]) then 0 else 1 + TrailingSpace(s[..|s| - 1])
  }

  /** The text without leading and trailing white space. */
  function Trim(s: string): (r: string)
    ensures r != "" ==> !Space(r[0]) && !Space(r[|r| - 1])
  {
    var t := s[LeadingSpace(s)..];
    t[..|t| - TrailingSpace(t)]
  }

  /** Leading and trailing white space goes, and only that. */
  lemma TrimIs(before: string, core: string, after: string)
    requires forall c :: c in before + after ==> Space(c)
    requires core != "" ==> !Space(core[0]) && !Space(core[|core| - 1])
    ensures Trim(before + core + after) == core
  {
    var s := before + core + after;
    if core == "" {
      AllSpace(s);
    } else {
      LeadingIs(before, core + after);
      assert s == before + (core + after);
      TrailingIs(core, after);
    }
  }

  lemma AllSpace(s: string)
    requires forall c :: c in s ==> Space(c)
    ensures Trim(s) == ""
  {}

  lemma {:induction false} LeadingIs(before: string, rest: string)
    requires (forall c :: c in before ==> Space(c)) && rest != "" && !Space(rest[0])
    ensures LeadingSpace(before + rest) == |before| && (before + rest)[|before|..] == rest
  {
    if before != "" {
      assert (before + rest)[1..] == before[1..] + rest;
      LeadingIs(before[1..], rest);
    }
  }

  lemma {:induction false} TrailingIs(core: string, after: string)
    requires (forall c :: c in after ==> Space(c)) && core != "" && !Space(core[|core| - 1])
    ensures TrailingSpace(core + after) == |after| && (core + after)[..|core|] == core
  {
    if after != "" {
      var front := after[..|after| - 1];
      assert (core + after)[..|core + after| - 1] == core + front;
      TrailingIs(core, front);
    }
  }

  /** Another extension waits for the state as its owner, with a different challenge. */
  ghost predicate TakenByAnother(s: A.State, request: Request) {
    && request.state in s.owners && s.owners[request.state] != request.extensionId
    && !(s.owners[request.state] in s.pending
         && var other := s.pending[s.owners[request.state]];
            && other.state == request.state && other.authUrl == request.authUrl
            && other.callbackUrl == request.callbackUrl && other.createdAt == request.createdAt)
  }

  /** The request waits, nobody else's request changed, and its state has an owner: the one it had, or the newcomer. */
  ghost predicate Registered(s: A.State, request: Request, t: A.State) {
    && t.pending == s.pending[request.extensionId := request]
    && request.state in t.owners
    && t.owners[request.state] == (if request.state in s.owners then s.owners[request.state] else request.extensionId)
    && forall n :: n in s.owners && s.owners[n] != request.extensionId ==> n in t.owners && t.owners[n] == s.owners[n]
  }

  lemma ConflictsMeaning(s: A.State, request: Request)
    ensures Conflicts(s, request) <==> TakenByAnother(s, request)
  {}

  lemma TakesRegistered(s: A.State, request: Request, now: int, t: A.State)
    requires A.Valid(s) && Takes(s, Register(request, now), t)
    ensures Registered(s, request, t)
  {
    var between: A.State :| t == Inserted(between, request)
      && if Replaces(s, request) then Removed(s, request.extensionId, now, between) else between == s;
    if Replaces(s, request) { RemovedElsewhere(s, request.extensionId, now, between); }
  }

  /** A removal leaves all other requests, and all states of other owners. */
  lemma RemovedElsewhere(s: A.State, id: string, now: int, t: A.State)
    requires A.Valid(s) && Removed(s, id, now, t) && id in s.pending
    ensures t.pending == s.pending - {id}
    ensures forall n :: n != s.pending[id].state ==>
              (n in t.owners <==> n in s.owners) && (n in t.owners ==> t.owners[n] == s.owners[n])
    ensures forall n :: n in s.owners && s.owners[n] != id ==> n in t.owners && t.owners[n] == s.owners[n]
  {
    var nonce := s.pending[id].state;
    if nonce in s.owners && s.owners[nonce] == id { OwnerRemoved(s, id, now, t, nonce); }
  }

  /** An empty state is generated, a missing creation time is now. */
  function Completed(request: Request, generated: string, now: int): (r: Request)
    ensures request.state != "" ==> r.state == request.state
    ensures request.state == "" ==> r.state == generated
    ensures request.createdAt != 0 ==> r.createdAt == request.createdAt
    ensures request.createdAt == 0 ==> r.createdAt == now
    ensures r.(state := request.state, createdAt := request.createdAt) == request
  {
    request.(state := if |request.state| == 0 then generated else request.state,
             createdAt := if request.createdAt == 0 then now else request.createdAt)
  }

  /** Dropping the extension's old challenge does not disturb the check for the new state. */
  lemma ReplacementSafe(s: A.State, request: Request, now: int, t: A.State)
    requires A.Valid(s) && !Conflicts(s, request) && Replaces(s, request)
    requires Removed(s, request.extensionId, now, t)
    ensures !Conflicts(t, request) && !Replaces(t, request)
  {
    var id := request.extensionId;
    var nonce := s.pending[id].state;
    if nonce in s.owners && s.owners[nonce] == id {
      OwnerRemoved(s, id, now, t, nonce);
    }
    assert request.state in t.owners <==> request.state in s.owners;
  }

  // ----- Runs -----

  datatype Op =
    | Register(request: Request, now: int)      // completed, accepted and saved
    | Remove(id: string, now: int)              // cleared, expired, or replaced
    | Resolve(nonce: string, now: int, consume: bool)
    | Close

  /** One critical section that changed or could have changed the maps. */
  ghost predicate Takes(s: A.State, op: Op, t: A.State) {
    match op
    case Register(request, now) =>
      && !Conflicts(s, request)
      && (exists between: A.State ::
            && t == Inserted(between, request)
            && (if Replaces(s, request) then Removed(s, request.extensionId, now, between) else between == s))
    case Remove(id, now) => Removed(s, id, now, t)
    case Resolve(nonce, now, consume) =>
      t == if Resolves(s, nonce, now) && !consume then s else Forgotten(s, nonce)
    case Close => t == EMPTY
  }

  /** Each critical section has one result. */
  lemma TakesUnique(s: A.State, op: Op, t: A.State, u: A.State)
    requires Takes(s, op, t) && Takes(s, op, u)
    ensures t == u
  {
    match op {
      case Register(request, now) =>
        var a: A.State :| t == Inserted(a, request)
          && if Replaces(s, request) then Removed(s, request.extensionId, now, a) else a == s;
        var b: A.State :| u == Inserted(b, request)
          && if Replaces(s, request) then Removed(s, request.extensionId, now, b) else b == s;
        if Replaces(s, request) { RemovedUnique(s, request.extensionId, now, a, b); }
      case Remove(id, now) => RemovedUnique(s, id, now, t, u);
      case Resolve(nonce, now, consume) =>
      case Close =>
    }
  }

  /** `states[i]` becomes `states[i + 1]` by `ops[i]`. */
  ghost predicate IsRun(states: seq<A.State>, ops: seq<Op>) {
    && |states| == |ops| + 1
    && states[0] == EMPTY
    && forall i :: 0 <= i < |ops| ==> Takes(states[i], ops[i], states[i + 1])
  }

  lemma TakesKeepsValid(s: A.State, op: Op, t: A.State)
    requires A.Valid(s) && Takes(s, op, t)
    ensures A.Valid(t)
    ensures forall n :: Unknown(s, n) && !(op.Register? && op.request.state == n) ==> Unknown(t, n)
  {
    match op {
      case Register(request, now) =>
        var between: A.State :| t == Inserted(between, request) &&
          if Replaces(s, request) then Removed(s, request.extensionId, now, between) else between == s;
        if Replaces(s, request) {
          RemovedKeepsValid(s, request.extensionId, now, between);
          ReplacementSafe(s, request, now, between);
        }
        InsertedKeepsValid(between, request);
      case Remove(id, now) => RemovedKeepsValid(s, id, now, t);
      case Resolve(nonce, now, consume) => ForgottenKeepsValid(s, nonce);
      case Close =>
    }
  }

  /** Ownership in every reachable state: an owner's pending request carries the owned state. */
  lemma {:induction false} RunValid(states: seq<A.State>, ops: seq<Op>, i: nat)
    requires IsRun(states, ops) && i <= |ops|
    ensures A.Valid(states[i])
  {
    if i > 0 {
      RunValid(states, ops, i - 1);
      TakesKeepsValid(states[i - 1], ops[i - 1], states[i]);
    }
  }

  lemma {:induction false} StaysUnknown(states: seq<A.State>, ops: seq<Op>, i: nat, j: nat, nonce: string)
    requires IsRun(states, ops) && i <= j <= |ops| && Unknown(states[i], nonce)
    requires forall k :: i <= k < j ==> !(ops[k].Register? && ops[k].request.state == nonce)
    ensures Unknown(states[j], nonce)
    decreases j - i
  {
    if i < j {
      RunValid(states, ops, j - 1);
      StaysUnknown(states, ops, i, j - 1, nonce);
      TakesKeepsValid(states[j - 1], ops[j - 1], states[j]);
    }
  }

  /**
    A callback state is good once: after a resolution that consumed it, or found it invalid, no
    later resolution succeeds unless the state was registered again in between.
   */
  lemma ResolvesOnce(states: seq<A.State>, ops: seq<Op>, i: nat, j: nat, nonce: string, now: int)
    requires IsRun(states, ops) && i < j < |ops|
    requires ops[i].Resolve? && ops[i].nonce == nonce
    requires ops[i].consume || !Resolves(states[i], nonce, ops[i].now)
    requires Resolves(states[j], nonce, now)
    ensures exists k :: i < k < j && ops[k].Register? && ops[k].request.state == nonce
  {
    RunValid(states, ops, i);
    ForgottenKeepsValid(states[i], nonce);
    assert Takes(states[i], ops[i], states[i + 1]);
    if !exists k :: i < k < j && ops[k].Register? && ops[k].request.state == nonce {
      StaysUnknown(states, ops, i + 1, j, nonce);
    }
  }

  function Challenge(id: string, createdAt: int): Request { Request(id, "url", "callback", "n", createdAt) }

  /**
    A fresh alias may be passed over: in this run `y` waits for the state within its time when
    its owner goes, but an alias from the future comes first in map order, so that nobody can
    resolve the state, and the attempt to makes it forgotten for `y` too.
   */
  lemma FutureAliasTakesOver() returns (states: seq<A.State>, ops: seq<Op>)
    ensures IsRun(states, ops) && |ops| > 0 && ops[|ops| - 1] == Remove("z", 200)
    ensures var last := states[|states| - 1];
            && "y" in last.pending && last.pending["y"].state == "n" && Fresh(last.pending["y"], 200)
            && !Resolves(last, "n", 200)
            && (forall t, consume :: Takes(last, Resolve("n", 200, consume), t) ==> Unknown(t, "n"))
  {
    var x, y, z, z' := Challenge("x", 1000), Challenge("y", 100), Challenge("z", 100), Challenge("z", 1000);
    var owners := map["n" := "z"];
    var s1 := State(map["z" := z], owners);
    var s2 := State(map["z" := z, "y" := y], owners);
    var s3 := State(map["z" := z', "y" := y], owners);
    var s4 := State(map["z" := z', "y" := y, "x" := x], owners);
    var s5 := State(map["y" := y, "x" := x], map["n" := "x"]);
    states := [EMPTY, s1, s2, s3, s4, s5];
    ops := [Register(z, 100), Register(y, 100), Register(z', 100), Register(x, 100), Remove("z", 200)];
    assert Takes(EMPTY, ops[0], s1) by { assert s1 == Inserted(EMPTY, z); }
    assert Takes(s1, ops[1], s2) by { assert s2 == Inserted(s1, y); }
    assert Takes(s2, ops[2], s3) by { assert s3 == Inserted(s2, z'); }
    assert Takes(s3, ops[3], s4) by { assert s4 == Inserted(s3, x); }
    assert Takes(s4, ops[4], s5) by {
      assert s5.pending == s4.pending - {"z"};
      assert Less("x", "y") && !Less("y", "x") && !Less("x", "x");
      assert FirstAlias(s5.pending, "x", "n", 200);
      assert Handover(s5.pending, "n", 200, Some("x"));
    }
  }
}
