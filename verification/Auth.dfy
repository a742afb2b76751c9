/**
  One-time ownership of callback states (extensions/src/auth.rs): which extension a browser
  callback belongs to, aliases that share a state, expiry, and journal writes that may fail.
  Each operation is one critical section; the clock reading and the outcome of the journal
  write are inputs.
 */
module Auth {
  import opened Common

  const PENDING_TTL: int := 180 * 1_000_000_000

  datatype Request = Request(extensionId: string, authUrl: string, callbackUrl: string, state: string, createdAt: int)

  type Pending = map<string, Request>
  type Owners = map<string, string>

  datatype State = State(pending: Pending, owners: Owners)

  const EMPTY := State(map[], map[])

  /** An owner is waiting for exactly the state it owns. */
  ghost predicate Valid(s: State) {
    && (forall id :: id in s.pending ==> s.pending[id].extensionId == id)
    && (forall n :: n in s.owners ==> s.owners[n] in s.pending && s.pending[s.owners[n]].state == n)
  }

  // ----- The order of the map -----

  function Less(a: string, b: string): bool {
    if b == [] then false
    else if a == [] then true
    else if a[0] != b[0] then a[0] < b[0]
    else Less(a[1..], b[1..])
  }

  lemma {:induction false} LessTotal(a: string, b: string)
    ensures a != b ==> (Less(a, b) <==> !Less(b, a))
    ensures a == b ==> !Less(a, b)
  {
    if a != [] && b != [] {
      assert a == [a[0]] + a[1..] && b == [b[0]] + b[1..];
      LessTotal(a[1..], b[1..]);
    }
  }

  /** After a common beginning either `a` ends or its next character is the smaller one. */
  lemma {:induction false} LessMeaning(a: string, b: string)
    ensures Less(a, b) <==> exists n: nat :: FirstDifference(a, b, n)
  {
    if a != [] && b != [] && a[0] == b[0] {
      LessMeaning(a[1..], b[1..]);
      if n: nat :| FirstDifference(a[1..], b[1..], n) {
        assert a[..n + 1] == [a[0]] + a[1..][..n] && b[..n + 1] == [b[0]] + b[1..][..n];
        assert FirstDifference(a, b, n + 1);
      }
      if n: nat :| FirstDifference(a, b, n) {
        assert n > 0 && a[1..][..n - 1] == a[..n][1..] && b[1..][..n - 1] == b[..n][1..];
        assert FirstDifference(a[1..], b[1..], n - 1);
      }
    } else {
      assert FirstDifference(a, b, 0) <==> Less(a, b);
      assert forall n: nat :: 0 < n <= |a| && n <= |b| ==> a[..n][0] == a[0] && b[..n][0] == b[0];
    }
  }

  ghost predicate FirstDifference(a: string, b: string, n: nat) {
    n <= |a| && n < |b| && a[..n] == b[..n] && (n == |a| || a[n] < b[n])
  }

  lemma {:induction false} LessTransitive(a: string, b: string, c: string)
    requires Less(a, b) && Less(b, c)
    ensures Less(a, c)
  {
    if a != [] && a[0] == b[0] && b[0] == c[0] { LessTransitive(a[1..], b[1..], c[1..]); }
  }

  /**
    Another request for the state that has not expired. Unlike a fresh one it may lie in the
    future, which `remove_pending` does not look at.
   */
  predicate Alias(p: Pending, id: string, nonce: string, now: int) {
    id in p && p[id].state == nonce && now - p[id].createdAt < PENDING_TTL
  }

  ghost predicate FirstAlias(p: Pending, id: string, nonce: string, now: int) {
    Alias(p, id, nonce, now) && forall other :: Alias(p, other, nonce, now) ==> !Less(other, id)
  }

  lemma FirstAliasUnique(p: Pending, a: string, b: string, nonce: string, now: int)
    requires FirstAlias(p, a, nonce, now) && FirstAlias(p, b, nonce, now)
    ensures a == b
  {
    LessTotal(a, b);
  }

  // ----- The steps -----

  /** Who gets an orphaned state: nobody, or the first alias in map order. */
  ghost predicate Handover(p: Pending, nonce: string, now: int, heir: Option<string>) {
    match heir
    case Some(id) => FirstAlias(p, id, nonce, now)
    case None => forall id :: !Alias(p, id, nonce, now)
  }

  /** The result of `remove_pending`. */
  ghost predicate Removed(s: State, id: string, now: int, t: State) {
    if id !in s.pending then t == s
    else
      var nonce := s.pending[id].state;
      && t.pending == s.pending - {id}
      && if nonce !in s.owners || s.owners[nonce] != id then t.owners == s.owners
         else exists heir ::
           && Handover(t.pending, nonce, now, heir)
           && t.owners == match heir case Some(next) => s.owners[nonce := next] case None => s.owners - {nonce}
  }

  /** The removal is determined: there is only one heir to hand a state to. */
  lemma RemovedUnique(s: State, id: string, now: int, t: State, u: State)
    requires Removed(s, id, now, t) && Removed(s, id, now, u)
    ensures t == u
  {
    if id in s.pending {
      var nonce := s.pending[id].state;
      if nonce in s.owners && s.owners[nonce] == id {
        var p := s.pending - {id};
        var a :| Handover(p, nonce, now, a)
          && t.owners == match a case Some(next) => s.owners[nonce := next] case None => s.owners - {nonce};
        var b :| Handover(p, nonce, now, b)
          && u.owners == match b case Some(next) => s.owners[nonce := next] case None => s.owners - {nonce};
        if a.Some? && b.Some? { FirstAliasUnique(p, a.value, b.value, nonce, now); }
      }
    }
  }

  datatype AuthError = IdRequired | AlreadyRegistered | NotSaved | StateRequired | InvalidState | EnvironmentClosed

  predicate SameChallenge(a: Request, b: Request) {
    a.state == b.state && a.authUrl == b.authUrl && a.callbackUrl == b.callbackUrl && a.createdAt == b.createdAt
  }

  /** Another extension owns the state with a different challenge. */
  predicate Conflicts(s: State, request: Request) {
    && request.state in s.owners && s.owners[request.state] != request.extensionId
    && !(s.owners[request.state] in s.pending && SameChallenge(s.pending[s.owners[request.state]], request))
  }

  function Replaces(s: State, request: Request): bool {
    request.extensionId in s.pending && s.pending[request.extensionId].state != request.state
  }

  /** `register_pending` after its checks: an owner keeps its state, a newcomer takes a free one. */
  function Inserted(s: State, request: Request): State {
    State(s.pending[request.extensionId := request],
          if request.state in s.owners then s.owners else s.owners[request.state := request.extensionId])
  }

  predicate Fresh(request: Request, now: int) { 0 <= now - request.createdAt < PENDING_TTL }

  /** The state's owner is waiting for it and within its time. */
  predicate Resolves(s: State, nonce: string, now: int) {
    && nonce in s.owners && s.owners[nonce] in s.pending
    && s.pending[s.owners[nonce]].state == nonce
    && Fresh(s.pending[s.owners[nonce]], now)
  }

  /** Every trace of a state removed. */
  function Forgotten(s: State, nonce: string): State {
    State(map id | id in s.pending && s.pending[id].state != nonce :: s.pending[id], s.owners - {nonce})
  }

  /** Nobody owns the state and nobody waits for it. */
  ghost predicate Unknown(s: State, nonce: string) {
    nonce !in s.owners && forall id :: id in s.pending ==> s.pending[id].state != nonce
  }

  // ----- What the steps keep -----

  lemma RemovedKeepsValid(s: State, id: string, now: int, t: State)
    requires Valid(s) && Removed(s, id, now, t)
    ensures Valid(t)
    ensures forall n :: Unknown(s, n) ==> Unknown(t, n)
  {
    if id in s.pending && s.pending[id].state in s.owners && s.owners[s.pending[id].state] == id {
      var nonce := s.pending[id].state;
      var heir :| Handover(t.pending, nonce, now, heir)
        && t.owners == match heir case Some(next) => s.owners[nonce := next] case None => s.owners - {nonce};
    }
  }

  /** Removing an owner hands its state to the first live alias, if any, and to nobody else. */
  lemma OwnerRemoved(s: State, id: string, now: int, t: State, nonce: string)
    requires Valid(s) && Removed(s, id, now, t) && nonce in s.owners && s.owners[nonce] == id
    ensures nonce in t.owners <==> exists other :: other != id && Alias(s.pending, other, nonce, now)
    ensures nonce in t.owners ==>
              && t.owners[nonce] != id
              && FirstAlias(t.pending, t.owners[nonce], nonce, now)
    ensures forall n :: n != nonce ==>
              (n in t.owners <==> n in s.owners) && (n in t.owners ==> t.owners[n] == s.owners[n])
  {
    var heir :| Handover(t.pending, nonce, now, heir)
      && t.owners == match heir case Some(next) => s.owners[nonce := next] case None => s.owners - {nonce};
    assert forall other :: other != id ==>
        (Alias(t.pending, other, nonce, now) <==> Alias(s.pending, other, nonce, now));
    assert !Alias(t.pending, id, nonce, now);
  }

  /**
    After its owner is removed, a state resolves exactly if the first unexpired alias does not
    lie in the future: a later alias that is fresh does not help.
   */
  lemma HeirResolves(s: State, id: string, now: int, t: State, nonce: string)
    requires Valid(s) && Removed(s, id, now, t) && nonce in s.owners && s.owners[nonce] == id
    ensures Resolves(t, nonce, now) <==>
            exists other :: FirstAlias(s.pending - {id}, other, nonce, now) && s.pending[other].createdAt <= now
  {
    OwnerRemoved(s, id, now, t, nonce);
    if nonce in t.owners {
      var heir := t.owners[nonce];
      forall other | FirstAlias(t.pending, other, nonce, now) ensures other == heir {
        FirstAliasUnique(t.pending, other, heir, nonce, now);
      }
    }
  }

  /** If no other request for the state lies in the future, it resolves exactly if a fresh alias exists. */
  lemma FreshAliasResolves(s: State, id: string, now: int, t: State, nonce: string)
    requires Valid(s) && Removed(s, id, now, t) && nonce in s.owners && s.owners[nonce] == id
    requires forall other :: other != id && Alias(s.pending, other, nonce, now) ==> s.pending[other].createdAt <= now
    ensures Resolves(t, nonce, now) <==>
            exists other :: other != id && Alias(s.pending, other, nonce, now) && Fresh(s.pending[other], now)
  {
    OwnerRemoved(s, id, now, t, nonce);
  }

  lemma InsertedKeepsValid(s: State, request: Request)
    requires Valid(s) && !Conflicts(s, request) && !Replaces(s, request)
    ensures Valid(Inserted(s, request))
    ensures forall n :: n != request.state && Unknown(s, n) ==> Unknown(Inserted(s, request), n)
    ensures request.state in s.owners ==> Inserted(s, request).owners == s.owners
    ensures request.state !in s.owners ==> Inserted(s, request).owners[request.state] == request.extensionId
  {}

  lemma ForgottenKeepsValid(s: State, nonce: string)
    requires Valid(s)
    ensures Valid(Forgotten(s, nonce)) && Unknown(Forgotten(s, nonce), nonce)
    ensures forall n :: Unknown(s, n) ==> Unknown(Forgotten(s, nonce), n)
    ensures forall n, now :: n != nonce ==> (Resolves(Forgotten(s, nonce), n, now) <==> Resolves(s, n, now))
  {}
}
