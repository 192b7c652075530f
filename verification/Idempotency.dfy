/**
 Idempotent requests: the in-memory backend, and the claim protocol under any
 interleaving of requests, each of which reads the clock before it takes the backend's lock.
 */
module Idempotency {
  import opened Base
  import opened IdempotencyKeys

  // ----- The backend -----

  datatype Response = Response(status: nat, headers: seq<(string, string)>, body: string)

  predicate Cacheable(r: Response) {
    r.status < 500
  }

  datatype Entry = InProgress(fingerprint: string) | Completed(fingerprint: string, response: Response)

  datatype Slot = Slot(entry: Entry, expiresAt: nat)

  type Table = map<string, Slot>

  /** The entry that keeps a request read at `now` from claiming `key`. */
  function Existing(table: Table, key: string, now: nat): Option<Entry> {
    if key in table && table[key].expiresAt > now then Some(table[key].entry) else None
  }

  function AfterBegin(table: Table, key: string, entry: Entry, now: nat, ttl: nat): Table {
    if Existing(table, key, now).Some? then table else table[key := Slot(entry, now + ttl)]
  }

  datatype Outcome = Proceed | Replay(response: Response) | KeyReuse | StillRunning | InvalidKey

  function Answer(existing: Option<Entry>, fingerprint: string): Outcome {
    match existing
    case None => Proceed
    case Some(e) =>
      if e.fingerprint != fingerprint then KeyReuse
      else if e.InProgress? then StillRunning
      else Replay(e.response)
  }

  function AfterComplete(table: Table, key: string, fingerprint: string, r: Response, now: nat, ttl: nat): Table {
    if Cacheable(r) then table[key := Slot(Completed(fingerprint, r), now + ttl)] else table - {key}
  }

  class Service {
    var entries: Table
    const ttl: nat

    constructor (ttl: nat)
      ensures entries == map[] && this.ttl == ttl
    {
      this.ttl := ttl;
      entries := map[];
    }

    method TryBegin(key: string, entry: Entry, now: nat) returns (existing: Option<Entry>)
      modifies this
      ensures existing == Existing(old(entries), key, now)
      ensures entries == AfterBegin(old(entries), key, entry, now, ttl)
    {
      if key in entries && entries[key].expiresAt > now {
        return Some(entries[key].entry);
      }
      entries := entries[key := Slot(entry, now + ttl)];
      existing := None;
    }

    method Begin(scope: Scope, key: string, fingerprint: string, now: nat) returns (outcome: Outcome)
      modifies this
      ensures !ValidKey(key) ==> outcome == InvalidKey && entries == old(entries)
      ensures ValidKey(key) ==>
                && outcome == Answer(Existing(old(entries), StorageKey(scope, key), now), fingerprint)
                && entries == AfterBegin(old(entries), StorageKey(scope, key), InProgress(fingerprint), now, ttl)
    {
      var ok := ValidateKey(key);
      if !ok {
        return InvalidKey;
      }
      var existing := TryBegin(StorageKey(scope, key), InProgress(fingerprint), now);
      match existing {
        case None => outcome := Proceed;
        case Some(e) =>
          if e.fingerprint != fingerprint {
            outcome := KeyReuse;
          } else if e.InProgress? {
            outcome := StillRunning;
          } else {
            outcome := Replay(e.response);
          }
      }
    }

    method Complete(storageKey: string, fingerprint: string, r: Response, now: nat)
      modifies this
      ensures entries == AfterComplete(old(entries), storageKey, fingerprint, r, now, ttl)
    {
      if !Cacheable(r) {
        entries := entries - {storageKey};
      } else {
        entries := entries[storageKey := Slot(Completed(fingerprint, r), now + ttl)];
      }
    }

    method Abandon(storageKey: string)
      modifies this
      ensures entries == old(entries) - {storageKey}
    {
      entries := entries - {storageKey};
    }
  }

  // ----- Interleaved requests -----

  datatype Request = Request(scope: Scope, key: string, fingerprint: string)

  function KeyOf(r: Request): string {
    StorageKey(r.scope, r.key)
  }

  /**
   Where a request is: about to claim with a clock reading in hand, running with the claim it was
   given, or about to store its response with a clock reading in hand. The last two hold a claim.
   */
  datatype Phase =
    | Claiming(request: Request, readAt: nat)
    | Running(request: Request, deadline: nat)
    | Storing(request: Request, deadline: nat, response: Response, readAt: nat)

  predicate Outstanding(p: Phase) {
    p.Running? || p.Storing?
  }

  /** A response stored for a request, or given back to one. */
  datatype Served = Served(request: Request, response: Response)

  datatype System = System(
    table: Table, now: nat, requests: map<nat, Phase>, stored: set<Served>, replayed: set<Served>)

  /** Time passes; a request arrives, claims, finishes, stores; or it fails or is abandoned and releases its key. */
  datatype Act =
    | Tick(now: nat)
    | Arrive(id: nat, request: Request)
    | Claim(id: nat)
    | Finish(id: nat, response: Response)
    | Store(id: nat)
    | Release(id: nat)

  ghost predicate Enabled(s: System, act: Act) {
    match act
    case Tick(now) => s.now <= now
    case Arrive(id, request) => id !in s.requests && ValidKey(request.key)
    case Claim(id) => id in s.requests && s.requests[id].Claiming?
    case Finish(id, response) => id in s.requests && s.requests[id].Running? && Cacheable(response)
    case Store(id) => id in s.requests && s.requests[id].Storing?
    case Release(id) => id in s.requests && s.requests[id].Running?
  }

  ghost function After(s: System, act: Act, ttl: nat): System
    requires Enabled(s, act)
  {
    match act
    case Tick(now) => s.(now := now)
    case Arrive(id, request) => s.(requests := s.requests[id := Claiming(request, s.now)])
    case Claim(id) => Claimed(s, id, ttl)
    case Finish(id, response) =>
      var p := s.requests[id];
      s.(requests := s.requests[id := Storing(p.request, p.deadline, response, s.now)])
    case Store(id) => Stored(s, id, ttl)
    case Release(id) => s.(table := s.table - {KeyOf(s.requests[id].request)}, requests := s.requests - {id})
  }

  /** The backend's lock is held: the request claims its key, is answered from the table, or is refused. */
  function Claimed(s: System, id: nat, ttl: nat): System
    requires id in s.requests && s.requests[id].Claiming?
  {
    var p := s.requests[id];
    var r := p.request;
    var table := AfterBegin(s.table, KeyOf(r), InProgress(r.fingerprint), p.readAt, ttl);
    match Answer(Existing(s.table, KeyOf(r), p.readAt), r.fingerprint)
    case Proceed => s.(table := table, requests := s.requests[id := Running(r, p.readAt + ttl)])
    case Replay(response) => s.(requests := s.requests - {id}, replayed := s.replayed + {Served(r, response)})
    case _ => s.(requests := s.requests - {id})
  }

  /** The backend's lock is held: the response replaces the claim. */
  function Stored(s: System, id: nat, ttl: nat): System
    requires id in s.requests && s.requests[id].Storing?
  {
    var p := s.requests[id];
    s.(table := AfterComplete(s.table, KeyOf(p.request), p.request.fingerprint, p.response, p.readAt, ttl),
       requests := s.requests - {id},
       stored := s.stored + {Served(p.request, p.response)})
  }

  const EMPTY := System(map[], 0, map[], {}, {})

  ghost predicate StepAt(states: seq<System>, acts: seq<Act>, ttl: nat, i: nat)
    requires |states| == |acts| + 1 && i < |acts|
  {
    Enabled(states[i], acts[i]) && states[i + 1] == After(states[i], acts[i], ttl)
  }

  ghost predicate Run(states: seq<System>, acts: seq<Act>, ttl: nat) {
    && |states| == |acts| + 1
    && states[0] == EMPTY
    && forall i {:trigger StepAt(states, acts, ttl, i)} :: 0 <= i < |acts| ==> StepAt(states, acts, ttl, i)
  }

  // ----- At most one outstanding claim -----

  /** Request `id` holds a claim on `key`. */
  predicate Holds(s: System, id: nat, key: string) {
    id in s.requests && Outstanding(s.requests[id]) && KeyOf(s.requests[id].request) == key
  }

  ghost predicate Exclusive(s: System) {
    forall i, j, key :: Holds(s, i, key) && Holds(s, j, key) ==> i == j
  }

  /** An outstanding claim owns the slot of its key. */
  ghost predicate Owned(s: System) {
    forall id, key :: Holds(s, id, key) ==>
      key in s.table && s.table[key] == Slot(InProgress(s.requests[id].request.fingerprint), s.requests[id].deadline)
  }

  /** The clock reading a request claims with is before the deadline of every outstanding claim on its key. */
  ghost predicate Timely(s: System, id: nat)
    requires id in s.requests && s.requests[id].Claiming?
  {
    forall holder :: Holds(s, holder, KeyOf(s.requests[id].request)) ==>
        s.requests[id].readAt < s.requests[holder].deadline
  }

  /** Claiming a key someone holds succeeds exactly when the clock reading is not before the holder's deadline. */
  lemma SecondClaimIff(s: System, ttl: nat, holder: nat, id: nat)
    requires Owned(s) && Enabled(s, Claim(id)) && Holds(s, holder, KeyOf(s.requests[id].request))
    ensures Holds(Claimed(s, id, ttl), id, KeyOf(s.requests[id].request)) <==>
              s.requests[id].readAt >= s.requests[holder].deadline
  {
    assert id !in (s.requests - {id});
  }

  lemma ClaimEffect(s: System, id: nat, ttl: nat, other: nat, key: string)
    requires Enabled(s, Claim(id)) && other != id
    ensures Holds(Claimed(s, id, ttl), other, key) <==> Holds(s, other, key)
    ensures Holds(s, other, key) ==> Claimed(s, id, ttl).requests[other] == s.requests[other]
  {
  }

  lemma ClaimExclusiveIff(s: System, id: nat, ttl: nat)
    requires Owned(s) && Exclusive(s) && Enabled(s, Claim(id))
    ensures Exclusive(Claimed(s, id, ttl)) <==> Timely(s, id)
  {
    var t, wanted := Claimed(s, id, ttl), KeyOf(s.requests[id].request);
    forall holder | Holds(s, holder, wanted)
      ensures Holds(t, holder, wanted) && holder != id
      ensures Holds(t, id, wanted) <==> s.requests[id].readAt >= s.requests[holder].deadline
    {
      ClaimEffect(s, id, ttl, holder, wanted);
      SecondClaimIff(s, ttl, holder, id);
    }
    if Timely(s, id) {
      forall i, j, key | Holds(t, i, key) && Holds(t, j, key)
        ensures i == j
      {
        if i != id { ClaimEffect(s, id, ttl, i, key); }
        if j != id { ClaimEffect(s, id, ttl, j, key); }
      }
    }
  }

  lemma OtherStepKeepsExclusive(s: System, act: Act, ttl: nat)
    requires Exclusive(s) && Enabled(s, act) && !act.Claim?
    ensures Exclusive(After(s, act, ttl))
  {
    var t := After(s, act, ttl);
    forall i, key | Holds(t, i, key)
      ensures Holds(s, i, key)
    {
    }
  }

  lemma ClaimKeepsOwned(s: System, id: nat, ttl: nat)
    requires Owned(s) && Enabled(s, Claim(id)) && Exclusive(Claimed(s, id, ttl))
    ensures Owned(Claimed(s, id, ttl))
  {
    var t := Claimed(s, id, ttl);
    forall other, key | Holds(t, other, key)
      ensures key in t.table &&
                t.table[key] == Slot(InProgress(t.requests[other].request.fingerprint), t.requests[other].deadline)
    {
      if other != id {
        ClaimEffect(s, id, ttl, other, key);
        assert key == KeyOf(s.requests[id].request) ==> !Holds(t, id, key);
      }
    }
  }

  lemma OtherStepKeepsOwned(s: System, act: Act, ttl: nat)
    requires Owned(s) && Exclusive(s) && Enabled(s, act) && !act.Claim?
    ensures Owned(After(s, act, ttl))
  {
    var t := After(s, act, ttl);
    forall id, key | Holds(t, id, key)
      ensures key in t.table &&
                t.table[key] == Slot(InProgress(t.requests[id].request.fingerprint), t.requests[id].deadline)
    {
      assert Holds(s, id, key);
      if act.Store? || act.Release? {
        assert key == KeyOf(s.requests[act.id].request) ==> Holds(s, act.id, key);
      }
    }
  }

  lemma {:induction false} OwnedWhileExclusive(states: seq<System>, acts: seq<Act>, ttl: nat, n: nat)
    requires Run(states, acts, ttl) && n <= |acts| && forall k :: 0 <= k <= n ==> Exclusive(states[k])
    ensures Owned(states[n])
    decreases n
  {
    if n > 0 {
      OwnedWhileExclusive(states, acts, ttl, n - 1);
      assert StepAt(states, acts, ttl, n - 1);
      if acts[n - 1].Claim? {
        ClaimKeepsOwned(states[n - 1], acts[n - 1].id, ttl);
      } else {
        OtherStepKeepsOwned(states[n - 1], acts[n - 1], ttl);
      }
    }
  }

  ghost predicate TimelyAt(states: seq<System>, acts: seq<Act>, i: nat)
    requires |states| == |acts| + 1 && i < |acts| && Enabled(states[i], acts[i])
  {
    acts[i].Claim? ==> Timely(states[i], acts[i].id)
  }

  lemma {:induction false} TimelyIsExclusive(states: seq<System>, acts: seq<Act>, ttl: nat, n: nat)
    requires Run(states, acts, ttl) && n <= |acts|
    requires forall i :: 0 <= i < n ==> StepAt(states, acts, ttl, i) && TimelyAt(states, acts, i)
    ensures forall k :: 0 <= k <= n ==> Exclusive(states[k])
    decreases n
  {
    if n > 0 {
      TimelyIsExclusive(states, acts, ttl, n - 1);
      OwnedWhileExclusive(states, acts, ttl, n - 1);
      assert StepAt(states, acts, ttl, n - 1) && TimelyAt(states, acts, n - 1);
      if acts[n - 1].Claim? {
        ClaimExclusiveIff(states[n - 1], acts[n - 1].id, ttl);
      } else {
        OtherStepKeepsExclusive(states[n - 1], acts[n - 1], ttl);
      }
    }
  }

  /**
   No two claims on one key are ever outstanding together in a run, if and only if every claim is made
   with a clock reading before the deadlines of the claims then outstanding on its key.
   */
  lemma ClaimsExcludeIff(states: seq<System>, acts: seq<Act>, ttl: nat)
    requires Run(states, acts, ttl)
    ensures (forall k :: 0 <= k <= |acts| ==> Exclusive(states[k])) <==>
            (forall i :: 0 <= i < |acts| ==> StepAt(states, acts, ttl, i) && TimelyAt(states, acts, i))
  {
    if forall k :: 0 <= k <= |acts| ==> Exclusive(states[k]) {
      forall i | 0 <= i < |acts|
        ensures StepAt(states, acts, ttl, i) && TimelyAt(states, acts, i)
      {
        assert StepAt(states, acts, ttl, i);
        if acts[i].Claim? {
          OwnedWhileExclusive(states, acts, ttl, i);
          assert Exclusive(states[i]) && Exclusive(states[i + 1]);
          ClaimExclusiveIff(states[i], acts[i].id, ttl);
        }
      }
    }
    if forall i :: 0 <= i < |acts| ==> StepAt(states, acts, ttl, i) && TimelyAt(states, acts, i) {
      TimelyIsExclusive(states, acts, ttl, |acts|);
    }
  }

  /** Every outstanding claim is still within its time to live. */
  ghost predicate Prompt(s: System) {
    forall id :: id in s.requests && Outstanding(s.requests[id]) ==> s.now < s.requests[id].deadline
  }

  lemma {:induction false} ReadsThePast(states: seq<System>, acts: seq<Act>, ttl: nat, n: nat, id: nat)
    requires Run(states, acts, ttl) && n <= |acts| && id in states[n].requests && states[n].requests[id].Claiming?
    ensures states[n].requests[id].readAt <= states[n].now
    decreases n
  {
    if n > 0 {
      assert StepAt(states, acts, ttl, n - 1);
      if id in states[n - 1].requests && states[n - 1].requests[id].Claiming? {
        ReadsThePast(states, acts, ttl, n - 1, id);
      }
    }
  }

  /** If every claim is settled within its time to live, no two claims on one key are ever outstanding together. */
  lemma PromptClaimsExclude(states: seq<System>, acts: seq<Act>, ttl: nat, n: nat, i: nat, j: nat, key: string)
    requires Run(states, acts, ttl) && n <= |acts| && forall k :: 0 <= k < |acts| ==> Prompt(states[k])
    requires Holds(states[n], i, key) && Holds(states[n], j, key)
    ensures i == j
  {
    forall k | 0 <= k < |acts|
      ensures StepAt(states, acts, ttl, k) && TimelyAt(states, acts, k)
    {
      assert StepAt(states, acts, ttl, k) && Prompt(states[k]);
      if acts[k].Claim? {
        ReadsThePast(states, acts, ttl, k, acts[k].id);
      }
    }
    ClaimsExcludeIff(states, acts, ttl);
  }

  lemma Extended(states: seq<System>, acts: seq<Act>, act: Act, ttl: nat)
    returns (longer: seq<System>, moreActs: seq<Act>)
    requires Run(states, acts, ttl) && Enabled(Last(states), act)
    ensures Run(longer, moreActs, ttl) && moreActs == acts + [act] && Last(longer) == After(Last(states), act, ttl)
  {
    longer, moreActs := states + [After(Last(states), act, ttl)], acts + [act];
    forall i | 0 <= i < |moreActs|
      ensures StepAt(longer, moreActs, ttl, i)
    {
      assert i < |acts| ==> StepAt(states, acts, ttl, i);
    }
  }

  /** A claim held past its deadline is given away: for every request and time to live, a run with two holders. */
  lemma OverdueClaimsOverlap(r: Request, ttl: nat) returns (states: seq<System>, acts: seq<Act>)
    requires ValidKey(r.key)
    ensures Run(states, acts, ttl) && Holds(Last(states), 0, KeyOf(r)) && Holds(Last(states), 1, KeyOf(r))
  {
    states, acts := Extended([EMPTY], [], Arrive(0, r), ttl);
    states, acts := Extended(states, acts, Claim(0), ttl);
    assert Last(states).table == map[KeyOf(r) := Slot(InProgress(r.fingerprint), ttl)];
    assert Last(states).requests == map[0 := Running(r, ttl)];
    states, acts := Extended(states, acts, Tick(ttl), ttl);
    states, acts := Extended(states, acts, Arrive(1, r), ttl);
    states, acts := Extended(states, acts, Claim(1), ttl);
  }

  // ----- A stored response is served until it expires -----

  /** The response `p` was storing is in the table, and nobody holds its key. */
  ghost predicate Kept(s: System, p: Phase, ttl: nat)
    requires p.Storing?
  {
    && KeyOf(p.request) in s.table
    && s.table[KeyOf(p.request)] == Slot(Completed(p.request.fingerprint, p.response), p.readAt + ttl)
    && forall id :: !Holds(s, id, KeyOf(p.request))
  }

  lemma StoreKeeps(s: System, id: nat, ttl: nat)
    requires Exclusive(s) && Enabled(s, Store(id)) && Cacheable(s.requests[id].response)
    ensures Kept(Stored(s, id, ttl), s.requests[id], ttl)
  {
    var t, key := Stored(s, id, ttl), KeyOf(s.requests[id].request);
    forall other
      ensures !Holds(t, other, key)
    {
      assert Holds(s, id, key) && (Holds(t, other, key) ==> Holds(s, other, key));
    }
  }

  lemma StepKeepsResponse(s: System, act: Act, ttl: nat, p: Phase)
    requires p.Storing? && Kept(s, p, ttl) && Enabled(s, act)
    requires act.Claim? ==> s.requests[act.id].readAt < p.readAt + ttl
    ensures Kept(After(s, act, ttl), p, ttl)
  {
    var t, key := After(s, act, ttl), KeyOf(p.request);
    if act.Store? || act.Release? {
      assert !Holds(s, act.id, key);
    }
    forall id
      ensures !Holds(t, id, key)
    {
      assert !Holds(s, id, key);
    }
  }

  lemma {:induction false} StoringIsCacheable(states: seq<System>, acts: seq<Act>, ttl: nat, n: nat, id: nat)
    requires Run(states, acts, ttl) && n <= |acts| && id in states[n].requests && states[n].requests[id].Storing?
    ensures Cacheable(states[n].requests[id].response)
    decreases n
  {
    if n > 0 {
      assert StepAt(states, acts, ttl, n - 1);
      if id in states[n - 1].requests && states[n - 1].requests[id].Storing? {
        StoringIsCacheable(states, acts, ttl, n - 1, id);
      }
    }
  }

  /** Once stored with no rival claim, a response stays in the table until it expires, whatever runs meanwhile. */
  lemma {:induction false} ResponseStays(states: seq<System>, acts: seq<Act>, ttl: nat, n: nat, id: nat, m: nat)
    requires Run(states, acts, ttl) && n < m <= |acts| && acts[n] == Store(id) && StepAt(states, acts, ttl, n)
    requires Exclusive(states[n]) && states[m].now < states[n].requests[id].readAt + ttl
    ensures Kept(states[m], states[n].requests[id], ttl)
    decreases m
  {
    if m == n + 1 {
      StoringIsCacheable(states, acts, ttl, n, id);
      StoreKeeps(states[n], id, ttl);
    } else {
      var act := acts[m - 1];
      assert StepAt(states, acts, ttl, m - 1) && states[m - 1].now <= states[m].now;
      ResponseStays(states, acts, ttl, n, id, m - 1);
      if act.Claim? {
        ReadsThePast(states, acts, ttl, m - 1, act.id);
      }
      StepKeepsResponse(states[m - 1], act, ttl, states[n].requests[id]);
    }
  }

  /** Until then a repeat of the request is answered with it, and another request under the key is refused. */
  lemma RepeatIsReplayed(states: seq<System>, acts: seq<Act>, ttl: nat, n: nat, id: nat, m: nat, repeat: nat)
    requires Run(states, acts, ttl) && n < m < |acts| && acts[n] == Store(id) && StepAt(states, acts, ttl, n)
    requires Exclusive(states[n]) && states[m].now < states[n].requests[id].readAt + ttl
    requires acts[m] == Claim(repeat) && StepAt(states, acts, ttl, m)
    requires KeyOf(states[m].requests[repeat].request) == KeyOf(states[n].requests[id].request)
    ensures var first, again := states[n].requests[id], states[m].requests[repeat].request;
            && repeat !in states[m + 1].requests
            && (again.fingerprint == first.request.fingerprint ==>
                  states[m + 1].replayed == states[m].replayed + {Served(again, first.response)})
            && (again.fingerprint != first.request.fingerprint ==> states[m + 1].replayed == states[m].replayed)
  {
    ResponseStays(states, acts, ttl, n, id, m);
    ReadsThePast(states, acts, ttl, m, repeat);
  }

  // ----- What the other answers mean -----

  /** While a request holds the key in time, the same request is told it is running, and another is refused. */
  lemma HeldKeyAnswers(s: System, holder: nat, id: nat)
    requires Owned(s) && Enabled(s, Claim(id)) && Holds(s, holder, KeyOf(s.requests[id].request))
    requires s.requests[id].readAt < s.requests[holder].deadline
    ensures var p, held := s.requests[id], s.requests[holder].request;
            Answer(Existing(s.table, KeyOf(p.request), p.readAt), p.request.fingerprint) ==
              if p.request.fingerprint == held.fingerprint then StillRunning else KeyReuse
  {
  }

  /** Over every run whose claims exclude each other so far. */
  lemma RunningKeyAnswers(states: seq<System>, acts: seq<Act>, ttl: nat, n: nat, holder: nat, id: nat)
    requires Run(states, acts, ttl) && n < |acts| && acts[n] == Claim(id) && StepAt(states, acts, ttl, n)
    requires forall k :: 0 <= k <= n ==> Exclusive(states[k])
    requires Holds(states[n], holder, KeyOf(states[n].requests[id].request))
    requires states[n].requests[id].readAt < states[n].requests[holder].deadline
    ensures var s := states[n];
            var p, held := s.requests[id], s.requests[holder].request;
            && Answer(Existing(s.table, KeyOf(p.request), p.readAt), p.request.fingerprint) ==
                 (if p.request.fingerprint == held.fingerprint then StillRunning else KeyReuse)
            && states[n + 1] == s.(requests := s.requests - {id})
  {
    OwnedWhileExclusive(states, acts, ttl, n);
    HeldKeyAnswers(states[n], holder, id);
  }

  /** Settling a key: a response below 500 is found until it expires, a server error leaves nothing, other keys stay. */
  lemma CompleteMeaning(table: Table, key: string, fingerprint: string, r: Response, now: nat, ttl: nat, other: string,
      later: nat)
    ensures var after := AfterComplete(table, key, fingerprint, r, now, ttl);
            && Existing(after, key, later) ==
                 (if r.status < 500 && later < now + ttl then Some(Completed(fingerprint, r)) else None)
            && (other != key ==> Existing(after, other, later) == Existing(table, other, later))
  {
  }
}
