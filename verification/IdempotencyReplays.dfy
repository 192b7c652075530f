/** Whose response a replay gives back: with genuine fingerprints always the request's own, with free ones not quite. */
module IdempotencyReplays {
  import opened Base
  import opened IdempotencyKeys
  import opened Idempotency

  /** Some response in `stored` explains a completed slot. */
  ghost predicate Explained(s: System, key: string) {
    key in s.table && s.table[key].entry.Completed? ==>
      exists w :: w in s.stored && KeyOf(w.request) == key &&
          s.table[key].entry == Completed(w.request.fingerprint, w.response)
  }

  lemma {:induction false} CompletedIsExplained(states: seq<System>, acts: seq<Act>, ttl: nat, n: nat, key: string)
    requires Run(states, acts, ttl) && n <= |acts|
    ensures Explained(states[n], key)
    decreases n
  {
    if n > 0 {
      var s, t, act := states[n - 1], states[n], acts[n - 1];
      CompletedIsExplained(states, acts, ttl, n - 1, key);
      assert StepAt(states, acts, ttl, n - 1);
      if act.Store? && KeyOf(s.requests[act.id].request) == key {
        assert Served(s.requests[act.id].request, s.requests[act.id].response) in t.stored;
      } else if key in t.table && t.table[key].entry.Completed? {
        assert key in s.table && s.table[key] == t.table[key];
      }
    }
  }

  /** Every request that arrives is one of these. */
  ghost predicate ArrivesFrom(acts: seq<Act>, requests: iset<Request>) {
    forall i :: 0 <= i < |acts| && acts[i].Arrive? ==> acts[i].request in requests
  }

  ghost predicate Proper(r: Request, requests: iset<Request>) {
    ValidKey(r.key) && r in requests
  }

  /** What the service holds, stores and answers are requests that arrived, with valid keys. */
  lemma {:induction false} RequestsProper(
      states: seq<System>, acts: seq<Act>, ttl: nat, n: nat, requests: iset<Request>)
    requires Run(states, acts, ttl) && n <= |acts| && ArrivesFrom(acts, requests)
    ensures forall id :: id in states[n].requests ==> Proper(states[n].requests[id].request, requests)
    ensures forall w :: w in states[n].stored ==> Proper(w.request, requests)
    ensures forall r :: r in states[n].replayed ==> Proper(r.request, requests)
    decreases n
  {
    if n > 0 {
      RequestsProper(states, acts, ttl, n - 1, requests);
      assert StepAt(states, acts, ttl, n - 1);
    }
  }

  /** The replayed response was stored under the same storage key and fingerprint. */
  ghost predicate Matches(w: Served, r: Served) {
    KeyOf(w.request) == KeyOf(r.request) && w.request.fingerprint == r.request.fingerprint && w.response == r.response
  }

  lemma ClaimReplaysMatch(s: System, id: nat, ttl: nat, r: Served) returns (w: Served)
    requires Enabled(s, Claim(id)) && Explained(s, KeyOf(s.requests[id].request))
    requires r in Claimed(s, id, ttl).replayed && r !in s.replayed
    ensures w in s.stored && Matches(w, r)
  {
    var p := s.requests[id];
    var existing := Existing(s.table, KeyOf(p.request), p.readAt);
    w :| w in s.stored && KeyOf(w.request) == KeyOf(p.request) &&
         existing == Some(Completed(w.request.fingerprint, w.response));
  }

  /** Over every run, each replay gives back a response stored under the same storage key and fingerprint. */
  lemma {:induction false} ReplaysMatch(states: seq<System>, acts: seq<Act>, ttl: nat, n: nat, r: Served)
    returns (w: Served)
    requires Run(states, acts, ttl) && n <= |acts| && r in states[n].replayed
    ensures w in states[n].stored && Matches(w, r)
    decreases n
  {
    assert n > 0;
    var s, act := states[n - 1], acts[n - 1];
    assert StepAt(states, acts, ttl, n - 1);
    if r in s.replayed {
      w := ReplaysMatch(states, acts, ttl, n - 1, r);
    } else {
      CompletedIsExplained(states, acts, ttl, n - 1, KeyOf(s.requests[act.id].request));
      w := ClaimReplaysMatch(s, act.id, ttl, r);
    }
  }

  // ----- Genuine fingerprints -----

  const ZERO: char := '\0'

  /** What a fingerprint hashes: method, path and body, with a zero byte between them. */
  function Preimage(s: Scope, body: string): string {
    s.method_ + [ZERO] + (s.path + [ZERO] + body)
  }

  type Hash = string -> string

  /** The fingerprint is the hash of the request with this body. */
  ghost predicate Genuine(hash: Hash, r: Request, body: string) {
    r.fingerprint == hash(Preimage(r.scope, body))
  }

  ghost predicate Fingerprinted(hash: Hash, r: Request) {
    exists body :: Genuine(hash, r, body)
  }

  ghost predicate Collides(hash: Hash, x: string, y: string) {
    x != y && hash(x) == hash(y)
  }

  /** Confusable methods differ where the shorter one ends, so their preimages do. */
  lemma ConfusablePreimages(s: Scope, b: string, t: Scope, c: string)
    requires Confusable(s.method_, t.method_)
    ensures Preimage(s, b) != Preimage(t, c)
  {
    ConfusableShape(s.method_, t.method_);
    var i := |s.method_|;
    assert Preimage(s, b)[i] == ZERO && Preimage(t, c)[i] == ':';
  }

  /** A storage key and a preimage together determine the whole request, whatever bytes it is made of. */
  lemma KeyAndPreimageDetermine(r: Request, b: string, w: Request, c: string)
    requires ValidKey(r.key) && ValidKey(w.key) && KeyOf(r) == KeyOf(w)
    requires Preimage(r.scope, b) == Preimage(w.scope, c)
    ensures r.scope == w.scope && r.key == w.key && b == c
  {
    if (r.scope, r.key) != (w.scope, w.key) {
      SharedIsConfusable(r.scope, r.key, w.scope, w.key);
      if Confusable(r.scope.method_, w.scope.method_) {
        ConfusablePreimages(r.scope, b, w.scope, c);
      } else {
        ConfusablePreimages(w.scope, c, r.scope, b);
      }
    }
    var m, p := r.scope.method_, r.scope.path;
    CutAtLength(m + [ZERO], p + [ZERO] + b, m + [ZERO], p + [ZERO] + c);
    CutAtLength(p + [ZERO], b, p + [ZERO], c);
  }

  ghost predicate ArrivesGenuine(acts: seq<Act>, hash: Hash) {
    ArrivesFrom(acts, iset r: Request | Fingerprinted(hash, r))
  }

  /**
   Over every run whose fingerprints are genuine, a replay answers a request with the same user, method, path,
   key and body as the one the response was stored for; otherwise their preimages collide. No condition on the
   methods, paths or bodies.
   */
  lemma GenuineReplays(states: seq<System>, acts: seq<Act>, ttl: nat, n: nat, hash: Hash, r: Served)
    returns (w: Served, b: string, c: string)
    requires Run(states, acts, ttl) && n <= |acts| && ArrivesGenuine(acts, hash) && r in states[n].replayed
    ensures w in states[n].stored && w.response == r.response
    ensures Genuine(hash, r.request, b) && Genuine(hash, w.request, c)
    ensures forall x, y :: Genuine(hash, r.request, x) && Genuine(hash, w.request, y) ==>
              (w.request == r.request && x == y) ||
              Collides(hash, Preimage(r.request.scope, x), Preimage(w.request.scope, y))
  {
    w := ReplaysMatch(states, acts, ttl, n, r);
    var genuine := iset q: Request | Fingerprinted(hash, q);
    RequestsProper(states, acts, ttl, n, genuine);
    assert Proper(r.request, genuine) && Proper(w.request, genuine);
    b :| Genuine(hash, r.request, b);
    c :| Genuine(hash, w.request, c);
    forall x, y | Genuine(hash, r.request, x) && Genuine(hash, w.request, y)
      ensures (w.request == r.request && x == y) ||
              Collides(hash, Preimage(r.request.scope, x), Preimage(w.request.scope, y))
    {
      if Preimage(r.request.scope, x) == Preimage(w.request.scope, y) {
        KeyAndPreimageDetermine(r.request, x, w.request, y);
      }
    }
  }

  /**
   While a request holds a key or its response is kept, a different request that shares the storage key is
   refused with a key-reuse error, unless their preimages collide.
   */
  lemma SharedKeyRefused(s: System, id: nat, hash: Hash, b: string, other: Request, c: string)
    requires Enabled(s, Claim(id)) && ValidKey(s.requests[id].request.key) && ValidKey(other.key)
    requires var r := s.requests[id].request;
             && KeyOf(r) == KeyOf(other) && Genuine(hash, r, b) && Genuine(hash, other, c)
             && (r.scope, r.key, b) != (other.scope, other.key, c)
             && !Collides(hash, Preimage(r.scope, b), Preimage(other.scope, c))
    requires var existing := Existing(s.table, KeyOf(other), s.requests[id].readAt);
             existing.Some? && existing.value.fingerprint == other.fingerprint
    ensures var r := s.requests[id].request;
            Answer(Existing(s.table, KeyOf(r), s.requests[id].readAt), r.fingerprint) == KeyReuse
  {
    var r := s.requests[id].request;
    if Preimage(r.scope, b) == Preimage(other.scope, c) {
      KeyAndPreimageDetermine(r, b, other, c);
    }
  }

  // ----- Fingerprints chosen freely -----

  /** Every request that arrives has one of the methods. */
  ghost predicate ArrivesWith(acts: seq<Act>, methods: iset<string>) {
    forall i :: 0 <= i < |acts| && acts[i].Arrive? ==> acts[i].request.scope.method_ in methods
  }

  ghost predicate Distinguishable(methods: iset<string>) {
    forall m, n :: m in methods && n in methods ==> !Confusable(m, n)
  }

  /**
   Over every run, prompt or not, whose methods are not confusable, a replayed response is one stored
   for a request with the same user, method, path, key and fingerprint.
   */
  lemma ReplaysAreFaithful(states: seq<System>, acts: seq<Act>, ttl: nat, n: nat, methods: iset<string>)
    requires Run(states, acts, ttl) && n <= |acts| && ArrivesWith(acts, methods) && Distinguishable(methods)
    ensures states[n].replayed <= states[n].stored
  {
    var requests := iset q: Request | q.scope.method_ in methods;
    RequestsProper(states, acts, ttl, n, requests);
    forall r | r in states[n].replayed
      ensures r in states[n].stored
    {
      var w := ReplaysMatch(states, acts, ttl, n, r);
      assert Proper(w.request, requests) && Proper(r.request, requests);
      KeyDetermines(w.request, r.request, methods);
      assert w == r;
    }
  }

  lemma KeyDetermines(a: Request, b: Request, methods: iset<string>)
    requires ValidKey(a.key) && ValidKey(b.key) && KeyOf(a) == KeyOf(b)
    requires Distinguishable(methods) && a.scope.method_ in methods && b.scope.method_ in methods
    ensures a.scope == b.scope && a.key == b.key
  {
    if (a.scope, a.key) != (b.scope, b.key) {
      SharedIsConfusable(a.scope, a.key, b.scope, b.key);
    }
  }

  /** A request served from the start, with nothing else going on. */
  lemma ServeOne(a: Request, r: Response, ttl: nat) returns (states: seq<System>, acts: seq<Act>)
    requires ValidKey(a.key) && Cacheable(r)
    ensures Run(states, acts, ttl) && acts == [Arrive(0, a), Claim(0), Finish(0, r), Store(0)]
    ensures Last(states) ==
              EMPTY.(table := map[KeyOf(a) := Slot(Completed(a.fingerprint, r), ttl)], stored := {Served(a, r)})
  {
    states, acts := Extended([EMPTY], [], Arrive(0, a), ttl);
    states, acts := Extended(states, acts, Claim(0), ttl);
    assert Last(states).requests == map[0 := Running(a, ttl)];
    states, acts := Extended(states, acts, Finish(0, r), ttl);
    assert Last(states).requests == map[0 := Storing(a, ttl, r, 0)];
    states, acts := Extended(states, acts, Store(0), ttl);
    assert Last(states).requests == map[];
  }

  /** Two requests that share a storage key and a fingerprint: the second is given the first one's response. */
  lemma SharedKeyReplays(a: Request, b: Request, r: Response, ttl: nat) returns (states: seq<System>, acts: seq<Act>)
    requires ValidKey(a.key) && ValidKey(b.key) && KeyOf(a) == KeyOf(b) && a.fingerprint == b.fingerprint
    requires a != b && Cacheable(r) && ttl > 0
    ensures Run(states, acts, ttl) && Served(b, r) in Last(states).replayed && Last(states).stored == {Served(a, r)}
    ensures forall i :: 0 <= i < |acts| && acts[i].Arrive? ==> acts[i].request == a || acts[i].request == b
  {
    states, acts := ServeOne(a, r, ttl);
    states, acts := Extended(states, acts, Arrive(1, b), ttl);
    states, acts := Extended(states, acts, Claim(1), ttl);
  }

  /** A confusable pair of methods and one fingerprint for both: a run in which a replay is not faithful. */
  lemma ConfusableReplays(m: string, n: string, ttl: nat) returns (states: seq<System>, acts: seq<Act>)
    requires Confusable(m, n) && ttl > 0
    ensures Run(states, acts, ttl) && ArrivesWith(acts, iset{m, n})
    ensures !(states[|acts|].replayed <= states[|acts|].stored)
  {
    var key := SomeValidKey();
    var s, t := ConfusableShare(m, n, "", key);
    var a, b, r := Request(s, key, ""), Request(t, key, ""), Response(200, [], "");
    states, acts := SharedKeyReplays(a, b, r, ttl);
    assert Served(b, r) !in {Served(a, r)};
  }

  /** In every run with these methods, every replay gives back a response stored for that very request. */
  ghost predicate AlwaysFaithful(methods: iset<string>, ttl: nat) {
    forall states: seq<System>, acts: seq<Act>, n: nat ::
      Run(states, acts, ttl) && ArrivesWith(acts, methods) && n <= |acts| ==> states[n].replayed <= states[n].stored
  }

  /** With fingerprints chosen freely, replays are always faithful exactly when no two of the methods are confusable. */
  lemma ReplaysFaithfulIff(methods: iset<string>, ttl: nat)
    requires ttl > 0
    ensures AlwaysFaithful(methods, ttl) <==> Distinguishable(methods)
  {
    if Distinguishable(methods) {
      forall states: seq<System>, acts: seq<Act>, n: nat |
        Run(states, acts, ttl) && ArrivesWith(acts, methods) && n <= |acts|
        ensures states[n].replayed <= states[n].stored
      {
        ReplaysAreFaithful(states, acts, ttl, n, methods);
      }
    } else {
      var m, n :| m in methods && n in methods && Confusable(m, n);
      var states, acts := ConfusableReplays(m, n, ttl);
      assert ArrivesWith(acts, methods);
      assert !(states[|acts|].replayed <= states[|acts|].stored);
    }
  }
}
