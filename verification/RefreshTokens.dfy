/**
 Refresh-token families: single-use tokens, tombstones that detect reuse, and revocation of a whole
 family. Rotation holds the store's lock twice, so other requests may run between its two halves.
 */
module RefreshTokens {
  import opened Base

  const REFRESH_TOKEN_EXPIRY_SECS := 604_800

  /** What the store keeps under the hash of a token. */
  datatype Record =
    | Live(subject: string, expiresAt: nat, family: string)
    | Tombstone(family: string, expiresAt: nat)

  type Store = map<string, Record>

  function Purge(store: Store, now: nat): Store {
    map h | h in store && store[h].expiresAt >= now :: store[h]
  }

  function DropFamily(store: Store, family: string): Store {
    map h | h in store && store[h].family != family :: store[h]
  }

  /** The first critical section of a rotation has three answers. */
  datatype Begun = Proceed(subject: string, family: string) | ReuseDetected | Unknown

  function Begin(store: Store, hash: string, now: nat): (Store, Begun) {
    var purged := Purge(store, now);
    if hash !in purged then (purged, Unknown)
    else
      match purged[hash]
      case Live(subject, expiresAt, family) => (purged[hash := Tombstone(family, expiresAt)], Proceed(subject, family))
      case Tombstone(family, _) => (DropFamily(purged, family), ReuseDetected)
  }

  function Insert(store: Store, hash: string, subject: string, family: string, issuedAt: nat, now: nat): Store {
    Purge(store, now)[hash := Live(subject, issuedAt + REFRESH_TOKEN_EXPIRY_SECS, family)]
  }

  function Revoked(store: Store, hash: string): Store {
    if hash in store then DropFamily(store, store[hash].family) else store
  }

  class TokenStore {
    var tokens: Store

    constructor ()
      ensures tokens == map[]
    {
      tokens := map[];
    }

    method PurgeExpired(now: nat)
      modifies this
      ensures tokens == Purge(old(tokens), now)
    {
      tokens := map h | h in tokens && tokens[h].expiresAt >= now :: tokens[h];
    }

    method Issue(hash: string, subject: string, family: string, issuedAt: nat, now: nat)
      modifies this
      ensures tokens == Insert(old(tokens), hash, subject, family, issuedAt, now)
    {
      PurgeExpired(now);
      tokens := tokens[hash := Live(subject, issuedAt + REFRESH_TOKEN_EXPIRY_SECS, family)];
    }

    /**
     The first half of `rotate_refresh_token`. The source also has a branch for a live token past its
     expiry; the purge just before it removes every such token, so that branch is never taken.
     */
    method BeginRotation(hash: string, now: nat) returns (r: Begun)
      modifies this
      ensures (tokens, r) == Begin(old(tokens), hash, now)
    {
      PurgeExpired(now);
      if hash !in tokens {
        return Unknown;
      }
      match tokens[hash] {
        case Live(subject, expiresAt, family) =>
          if now > expiresAt {
            assert false;
          }
          tokens := tokens[hash := Tombstone(family, expiresAt)];
          r := Proceed(subject, family);
        case Tombstone(family, _) =>
          tokens := map h | h in tokens && tokens[h].family != family :: tokens[h];
          r := ReuseDetected;
      }
    }

    method Revoke(hash: string)
      modifies this
      ensures tokens == Revoked(old(tokens), hash)
    {
      if hash in tokens {
        var family := tokens[hash].family;
        tokens := map h | h in tokens && tokens[h].family != family :: tokens[h];
      }
    }
  }

  // ----- The service as interleaved critical sections -----

  /** A rotation between its two halves. */
  datatype Flight = Flight(subject: string, family: string)

  /**
   The store and the rotations in flight, with history: the hashes ever issued, the subject each
   family was opened for, and the hashes whose rotation succeeded, in order.
   */
  datatype System = System(
    store: Store, flights: map<nat, Flight>,
    issued: set<string>, families: map<string, string>, rotated: seq<string>)

  datatype Act =
    | Login(subject: string, family: string, hash: string, issuedAt: nat, now: nat)
    | Start(request: nat, hash: string, now: nat)
    | Finish(request: nat, hash: string, issuedAt: nat, now: nat)
    | Abort(request: nat)
    | RevokeToken(hash: string)

  const EMPTY := System(map[], map[], {}, map[], [])

  /** Random token values and family ids are fresh; each clock reading is arbitrary. */
  ghost predicate Next(s: System, act: Act, t: System) {
    match act
    case Login(subject, family, hash, issuedAt, now) =>
      && hash !in s.issued && family !in s.families
      && t == s.(store := Insert(s.store, hash, subject, family, issuedAt, now),
                 issued := s.issued + {hash}, families := s.families[family := subject])
    case Start(request, hash, now) =>
      var (store, begun) := Begin(s.store, hash, now);
      && request !in s.flights
      && t == if begun.Proceed?
              then s.(store := store,
                      flights := s.flights[request := Flight(begun.subject, begun.family)],
                      rotated := s.rotated + [hash])
              else s.(store := store)
    case Finish(request, hash, issuedAt, now) =>
      && request in s.flights && hash !in s.issued
      && var f := s.flights[request];
         t == s.(store := Insert(s.store, hash, f.subject, f.family, issuedAt, now),
                 flights := s.flights - {request}, issued := s.issued + {hash})
    case Abort(request) =>
      request in s.flights && t == s.(flights := s.flights - {request})
    case RevokeToken(hash) =>
      t == s.(store := Revoked(s.store, hash))
  }

  ghost predicate Run(states: seq<System>, acts: seq<Act>) {
    && |states| == |acts| + 1
    && states[0] == EMPTY
    && forall i :: 0 <= i < |acts| ==> Next(states[i], acts[i], states[i + 1])
  }

  /** Who can still produce a live token of a family: a live token, or a rotation in flight. */
  datatype Holder = Token(hash: string) | Rotation(request: nat)

  ghost predicate Holds(s: System, h: Holder, family: string) {
    match h
    case Token(hash) => hash in s.store && s.store[hash].Live? && s.store[hash].family == family
    case Rotation(request) => request in s.flights && s.flights[request].family == family
  }

  ghost function Holders(s: System, family: string): set<Holder> {
    (set hash | hash in s.store && Holds(s, Token(hash), family) :: Token(hash)) +
    (set request | request in s.flights && Holds(s, Rotation(request), family) :: Rotation(request))
  }

  ghost predicate HeldOnce(s: System) {
    forall a, b, family :: Holds(s, a, family) && Holds(s, b, family) ==> a == b
  }

  ghost predicate Recorded(s: System) {
    && (forall hash :: hash in s.store ==> hash in s.issued && s.store[hash].family in s.families)
    && (forall hash :: hash in s.store && s.store[hash].Live? ==>
        s.families[s.store[hash].family] == s.store[hash].subject)
    && (forall r :: r in s.flights ==>
        s.flights[r].family in s.families && s.families[s.flights[r].family] == s.flights[r].subject)
  }

  ghost predicate SingleUse(s: System) {
    && Distinct(s.rotated)
    && (forall hash :: hash in s.rotated ==> hash in s.issued && !(hash in s.store && s.store[hash].Live?))
  }

  ghost predicate Invariant(s: System) {
    HeldOnce(s) && Recorded(s) && SingleUse(s)
  }

  lemma InsertKeepsHeld(s: System, act: Act, t: System)
    requires Invariant(s) && Next(s, act, t) && (act.Login? || act.Finish?)
    ensures HeldOnce(t)
  {
    forall a, b, family | Holds(t, a, family) && Holds(t, b, family) ensures a == b {
      if act.Login? {
        assert a == Token(act.hash) || Holds(s, a, family);
        assert b == Token(act.hash) || Holds(s, b, family);
      } else {
        var held := s.flights[act.request].family;
        assert Holds(s, Rotation(act.request), held);
        assert (a == Token(act.hash) && family == held) || (Holds(s, a, family) && a != Rotation(act.request));
        assert (b == Token(act.hash) && family == held) || (Holds(s, b, family) && b != Rotation(act.request));
      }
    }
  }

  lemma StartKeepsHeld(s: System, act: Act, t: System)
    requires Invariant(s) && Next(s, act, t) && act.Start?
    ensures HeldOnce(t)
  {
    var begun := Begin(s.store, act.hash, act.now).1;
    forall a, b, family | Holds(t, a, family) && Holds(t, b, family) ensures a == b {
      if begun.Proceed? {
        assert Holds(s, Token(act.hash), begun.family);
        assert (a == Rotation(act.request) && family == begun.family) || (Holds(s, a, family) && a != Token(act.hash));
        assert (b == Rotation(act.request) && family == begun.family) || (Holds(s, b, family) && b != Token(act.hash));
      } else {
        assert Holds(s, a, family) && Holds(s, b, family);
      }
    }
  }

  lemma DropKeepsHeld(s: System, act: Act, t: System)
    requires Invariant(s) && Next(s, act, t) && (act.Abort? || act.RevokeToken?)
    ensures HeldOnce(t)
  {
    forall a, b, family | Holds(t, a, family) && Holds(t, b, family) ensures a == b {
      assert Holds(s, a, family) && Holds(s, b, family);
    }
  }

  lemma StepKeepsRecorded(s: System, act: Act, t: System)
    requires Invariant(s) && Next(s, act, t)
    ensures Recorded(t)
  {}

  lemma StepKeepsSingleUse(s: System, act: Act, t: System)
    requires Invariant(s) && Next(s, act, t)
    ensures SingleUse(t)
  {}

  lemma StepKeepsInvariant(s: System, act: Act, t: System)
    requires Invariant(s) && Next(s, act, t)
    ensures Invariant(t)
  {
    StepKeepsRecorded(s, act, t);
    StepKeepsSingleUse(s, act, t);
    match act
    case Start(_, _, _) => StartKeepsHeld(s, act, t);
    case Login(_, _, _, _, _) => InsertKeepsHeld(s, act, t);
    case Finish(_, _, _, _) => InsertKeepsHeld(s, act, t);
    case _ => DropKeepsHeld(s, act, t);
  }

  lemma {:induction false} RunKeepsInvariant(states: seq<System>, acts: seq<Act>, n: nat)
    requires Run(states, acts) && n <= |acts|
    ensures Invariant(states[n])
    decreases n
  {
    if n > 0 {
      RunKeepsInvariant(states, acts, n - 1);
      StepKeepsInvariant(states[n - 1], acts[n - 1], states[n]);
    }
  }

  // ----- Main results -----

  /** Whom a holder of the family stands for. */
  ghost function SubjectOf(s: System, h: Holder, family: string): string
    requires Holds(s, h, family)
  {
    match h
    case Token(hash) => s.store[hash].subject
    case Rotation(request) => s.flights[request].subject
  }

  /** In every reachable state a family has at most one live token or rotation in flight, and one subject. */
  lemma AtMostOneHolder(states: seq<System>, acts: seq<Act>, n: nat, family: string)
    requires Run(states, acts) && n <= |acts|
    ensures |Holders(states[n], family)| <= 1
    ensures forall h :: Holds(states[n], h, family) ==>
              family in states[n].families && SubjectOf(states[n], h, family) == states[n].families[family]
  {
    RunKeepsInvariant(states, acts, n);
    var holders := Holders(states[n], family);
    if h :| h in holders {
      assert holders == {h};
    }
  }

  /** Each refresh token is rotated successfully at most once in a run. */
  lemma RotatesAtMostOnce(states: seq<System>, acts: seq<Act>, i: nat, j: nat)
    requires Run(states, acts) && i < j < |states[|acts|].rotated|
    ensures states[|acts|].rotated[i] != states[|acts|].rotated[j]
  {
    RunKeepsInvariant(states, acts, |acts|);
  }

  /** The family was opened and nobody can produce a live token of it any more. */
  ghost predicate Extinct(s: System, family: string) {
    family in s.families && forall h :: !Holds(s, h, family)
  }

  lemma StepKeepsExtinct(s: System, act: Act, t: System, family: string)
    requires Invariant(s) && Next(s, act, t) && Extinct(s, family)
    ensures Extinct(t, family)
  {
    forall h ensures !Holds(t, h, family) {
      match act
      case Start(request, hash, now) =>
        var begun := Begin(s.store, hash, now).1;
        assert !Holds(s, Token(hash), family) && !Holds(s, h, family);
      case Finish(request, _, _, _) =>
        assert !Holds(s, Rotation(request), family) && !Holds(s, h, family);
      case _ => assert !Holds(s, h, family);
    }
  }

  /** A family that is extinct stays so. */
  lemma {:induction false} ExtinctForever(states: seq<System>, acts: seq<Act>, i: nat, j: nat, family: string)
    requires Run(states, acts) && i <= j <= |acts| && Extinct(states[i], family)
    ensures Extinct(states[j], family)
    decreases j
  {
    if i < j {
      ExtinctForever(states, acts, i, j - 1, family);
      RunKeepsInvariant(states, acts, j - 1);
      StepKeepsExtinct(states[j - 1], acts[j - 1], states[j], family);
    }
  }

  /** The step dropped every record of the family: it was revoked, or a retired token of it presented again in time. */
  ghost predicate DropsFamily(s: System, act: Act, family: string) {
    match act
    case RevokeToken(hash) => hash in s.store && s.store[hash].family == family
    case Start(_, hash, now) =>
      && hash in s.store && s.store[hash].Tombstone? && s.store[hash].family == family
      && now <= s.store[hash].expiresAt
    case _ => false
  }

  ghost predicate InFlight(s: System, family: string) {
    exists request :: request in s.flights && s.flights[request].family == family
  }

  /** Revocation ends a family exactly when no rotation of it is in flight. */
  lemma RevocationEndsFamilyIff(s: System, act: Act, t: System, family: string)
    requires Invariant(s) && Next(s, act, t) && DropsFamily(s, act, family)
    ensures forall hash :: hash in t.store ==> t.store[hash].family != family
    ensures Extinct(t, family) <==> !InFlight(s, family)
  {
    if InFlight(s, family) {
      var request :| request in s.flights && s.flights[request].family == family;
      assert Holds(t, Rotation(request), family);
    } else {
      forall h ensures !Holds(t, h, family) {}
    }
  }

  /**
   And a rotation that was in flight does bring the revoked family back: any run that ends in such a
   revocation goes on to one with a live token of the family, whatever the clock then reads.
   */
  lemma RevocationUndone(states: seq<System>, acts: seq<Act>, family: string, hash: string, issuedAt: nat, now: nat)
    returns (finish: Act, last: System)
    requires Run(states, acts) && acts != [] && DropsFamily(states[|acts| - 1], Last(acts), family)
    requires InFlight(states[|acts| - 1], family) && hash !in Last(states).issued
    ensures Run(states + [last], acts + [finish]) && Holds(last, Token(hash), family)
    ensures finish.Finish? && finish.request in states[|acts| - 1].flights
    ensures finish.hash == hash && finish.issuedAt == issuedAt && finish.now == now
  {
    var s, t := states[|acts| - 1], states[|acts|];
    var request :| request in s.flights && s.flights[request].family == family;
    assert Next(s, Last(acts), t);
    finish := Finish(request, hash, issuedAt, now);
    last := Finished(t, finish);
    Extended(states, acts, finish, last);
  }

  ghost function Finished(s: System, act: Act): System
    requires act.Finish? && act.request in s.flights
  {
    var f := s.flights[act.request];
    s.(store := Insert(s.store, act.hash, f.subject, f.family, act.issuedAt, act.now),
       flights := s.flights - {act.request}, issued := s.issued + {act.hash})
  }

  lemma Extended(states: seq<System>, acts: seq<Act>, act: Act, last: System)
    requires Run(states, acts) && Next(states[|acts|], act, last)
    ensures Run(states + [last], acts + [act])
  {
    var longer, more := states + [last], acts + [act];
    forall i | 0 <= i < |more|
      ensures Next(longer[i], more[i], longer[i + 1])
    {
      assert i < |acts| ==> Next(states[i], acts[i], states[i + 1]);
    }
  }

  /** One such run from the start: log in, begin to rotate, revoke, and finish rotating, at any times in order. */
  lemma RevocationUndoneFromStart(subject: string, family: string, first: string, second: string, t0: nat, t1: nat,
      t2: nat)
    returns (states: seq<System>, acts: seq<Act>)
    requires first != second && t0 <= t1 <= t2 && t1 <= t0 + REFRESH_TOKEN_EXPIRY_SECS
    ensures Run(states, acts) && |acts| == 4 && acts[2] == RevokeToken(first) && DropsFamily(states[2], acts[2], family)
    ensures acts[0] == Login(subject, family, first, t0, t0) && acts[1] == Start(0, first, t1)
    ensures acts[3] == Finish(0, second, t2, t2)
    ensures Holds(states[4], Token(second), family)
  {
    var expiry := t0 + REFRESH_TOKEN_EXPIRY_SECS;
    var live, retired := map[first := Live(subject, expiry, family)], map[first := Tombstone(family, expiry)];
    var s1 := System(live, map[], {first}, map[family := subject], []);
    assert Purge(map[], t0) == map[] && Purge(live, t1) == live && live[first := Tombstone(family, expiry)] == retired;
    var s2 := s1.(store := retired, flights := map[0 := Flight(subject, family)], rotated := [first]);
    assert DropFamily(retired, family) == map[];
    var s3 := s2.(store := map[]);
    states, acts := [EMPTY], [];
    Extended(states, acts, Login(subject, family, first, t0, t0), s1);
    states, acts := states + [s1], acts + [Login(subject, family, first, t0, t0)];
    Extended(states, acts, Start(0, first, t1), s2);
    states, acts := states + [s2], acts + [Start(0, first, t1)];
    Extended(states, acts, RevokeToken(first), s3);
    states, acts := states + [s3], acts + [RevokeToken(first)];
    var finish, last := RevocationUndone(states, acts, family, second, t2, t2);
    states, acts := states + [last], acts + [finish];
  }

  /** Over a run: once a family is revoked with no rotation in flight, it never has a live token again. */
  lemma RevokedFamilyStaysDead(states: seq<System>, acts: seq<Act>, i: nat, j: nat, family: string)
    requires Run(states, acts) && i < j <= |acts|
    requires DropsFamily(states[i], acts[i], family) && !InFlight(states[i], family)
    ensures forall hash :: hash in states[j].store && states[j].store[hash].Live? ==>
              states[j].store[hash].family != family
  {
    RunKeepsInvariant(states, acts, i);
    RevocationEndsFamilyIff(states[i], acts[i], states[i + 1], family);
    ExtinctForever(states, acts, i + 1, j, family);
    forall hash | hash in states[j].store && states[j].store[hash].Live?
      ensures states[j].store[hash].family != family
    {
      assert !Holds(states[j], Token(hash), family);
    }
  }
}
