/** How long a refresh token lives and what presenting it comes to, told from the acts of a run and their times. */
module RefreshTokenLives {
  import opened Base
  import opened RefreshTokens

  const WEEK: nat := 7 * 24 * 60 * 60

  /** The act issues the token of this hash. */
  ghost predicate Issues(act: Act, hash: string) {
    (act.Login? || act.Finish?) && act.hash == hash
  }

  /** The act presents the token for rotation. */
  ghost predicate Presents(act: Act, hash: string) {
    act.Start? && act.hash == hash
  }

  /** The act reads a clock past the time; a revocation reads none. */
  ghost predicate ReadsPast(act: Act, time: nat) {
    (act.Login? || act.Start? || act.Finish?) && act.now > time
  }

  /** What is known of a token from the act that issued it: its record, if it still has one. */
  ghost predicate Matches(s: System, hash: string, family: string, expiry: nat) {
    hash in s.issued && (hash in s.store ==> s.store[hash].family == family && s.store[hash].expiresAt == expiry)
  }

  ghost predicate IsLive(s: System, hash: string) {
    hash in s.store && s.store[hash].Live?
  }

  /** A step forgets a token exactly when it reads a clock past its expiry or drops its family. */
  lemma StepForgets(s: System, act: Act, t: System, hash: string, family: string, expiry: nat)
    requires Next(s, act, t) && Matches(s, hash, family, expiry)
    ensures Matches(t, hash, family, expiry)
    ensures hash in t.store <==> hash in s.store && !ReadsPast(act, expiry) && !DropsFamily(s, act, family)
    ensures hash in t.store ==> (IsLive(t, hash) <==> IsLive(s, hash) && !Presents(act, hash))
  {
  }

  /** The `j`-th act leaves the records of the family that expire at `expiry`. */
  ghost predicate Spares(states: seq<System>, acts: seq<Act>, j: nat, family: string, expiry: nat)
    requires j < |acts| < |states|
  {
    !ReadsPast(acts[j], expiry) && !DropsFamily(states[j], acts[j], family)
  }

  /** The act that issued the token leaves it live, in some family, for a week from the time it was issued at. */
  lemma IssuedLive(states: seq<System>, acts: seq<Act>, i: nat, hash: string)
    requires Run(states, acts) && i < |acts| && Issues(acts[i], hash)
    ensures IsLive(states[i + 1], hash)
    ensures Matches(states[i + 1], hash, states[i + 1].store[hash].family, acts[i].issuedAt + WEEK)
    ensures acts[i].Login? ==> states[i + 1].store[hash].family == acts[i].family
  {
    assert Next(states[i], acts[i], states[i + 1]);
  }

  /**
   The store, told from the acts. A token has a record if and only if no act since it was issued read a clock
   past its expiry, a week after it was issued, or dropped its family; and the record is live if and only if
   the token was not presented since.
   */
  lemma {:induction false} StoreFromActs(states: seq<System>, acts: seq<Act>, i: nat, n: nat, hash: string)
    requires Run(states, acts) && i < n <= |acts| && Issues(acts[i], hash)
    ensures IsLive(states[i + 1], hash)
    ensures var family, expiry := states[i + 1].store[hash].family, acts[i].issuedAt + WEEK;
            && Matches(states[n], hash, family, expiry)
            && (hash in states[n].store <==> forall j :: i < j < n ==> Spares(states, acts, j, family, expiry))
            && (IsLive(states[n], hash) <==>
                 hash in states[n].store && forall j :: i < j < n ==> !Presents(acts[j], hash))
    decreases n
  {
    IssuedLive(states, acts, i, hash);
    if i + 1 < n {
      var family, expiry := states[i + 1].store[hash].family, acts[i].issuedAt + WEEK;
      StoreFromActs(states, acts, i, n - 1, hash);
      assert Next(states[n - 1], acts[n - 1], states[n]);
      StepForgets(states[n - 1], acts[n - 1], states[n], hash, family, expiry);
      assert Spares(states, acts, n - 1, family, expiry) <==>
             !ReadsPast(acts[n - 1], expiry) && !DropsFamily(states[n - 1], acts[n - 1], family);
    }
  }

  /** The `n`-th act begins a rotation. */
  ghost predicate Rotates(states: seq<System>, n: nat, hash: string)
    requires n + 1 < |states|
  {
    states[n + 1].rotated == states[n].rotated + [hash]
  }

  lemma StartRotatesIff(s: System, act: Act, t: System)
    requires Next(s, act, t) && act.Start?
    ensures t.rotated == s.rotated + [act.hash] <==> IsLive(s, act.hash) && act.now <= s.store[act.hash].expiresAt
    ensures t.rotated == s.rotated + [act.hash] ==>
              act.request in t.flights && t.flights[act.request].family == s.store[act.hash].family
  {
    assert |s.rotated + [act.hash]| != |s.rotated|;
  }

  /**
   A presented token is rotated if and only if the clock reads no more than a week after the token was issued,
   and since then it was not presented before, no act read a clock past that week, and none dropped its family.
   The rotation is then in flight for the token's own family.
   */
  lemma RotatesIff(states: seq<System>, acts: seq<Act>, i: nat, n: nat, hash: string)
    requires Run(states, acts) && i < n < |acts| && Issues(acts[i], hash) && Presents(acts[n], hash)
    ensures IsLive(states[i + 1], hash)
    ensures var family, expiry := states[i + 1].store[hash].family, acts[i].issuedAt + WEEK;
            && (Rotates(states, n, hash) <==>
                 && acts[n].now <= expiry
                 && (forall j :: i < j < n ==> Spares(states, acts, j, family, expiry))
                 && (forall j :: i < j < n ==> !Presents(acts[j], hash)))
            && (Rotates(states, n, hash) ==>
                 acts[n].request in states[n + 1].flights && states[n + 1].flights[acts[n].request].family == family)
  {
    StoreFromActs(states, acts, i, n, hash);
    assert Next(states[n], acts[n], states[n + 1]);
    StartRotatesIff(states[n], acts[n], states[n + 1]);
  }

  /** A token that no act issued is not rotated. */
  lemma UnissuedNeverRotates(states: seq<System>, acts: seq<Act>, n: nat, hash: string)
    requires Run(states, acts) && n < |acts| && Presents(acts[n], hash)
    requires forall i :: 0 <= i < n ==> !Issues(acts[i], hash)
    ensures !Rotates(states, n, hash)
  {
    UnissuedIsUnknown(states, acts, n, hash);
    assert Next(states[n], acts[n], states[n + 1]);
    StartRotatesIff(states[n], acts[n], states[n + 1]);
  }

  lemma {:induction false} UnissuedIsUnknown(states: seq<System>, acts: seq<Act>, n: nat, hash: string)
    requires Run(states, acts) && n <= |acts| && forall i :: 0 <= i < n ==> !Issues(acts[i], hash)
    ensures hash !in states[n].store
    decreases n
  {
    if n > 0 {
      UnissuedIsUnknown(states, acts, n - 1, hash);
      assert Next(states[n - 1], acts[n - 1], states[n]);
    }
  }

  /**
   Reuse is detected: a token presented again within its week, when nothing dropped its family meanwhile and no
   clock was read past the week, ends every record of its family.
   */
  lemma ReuseEndsFamily(states: seq<System>, acts: seq<Act>, i: nat, k: nat, n: nat, hash: string)
    requires Run(states, acts) && i < k < n < |acts| && Issues(acts[i], hash)
    requires Presents(acts[k], hash) && Presents(acts[n], hash) && acts[n].now <= acts[i].issuedAt + WEEK
    requires IsLive(states[i + 1], hash)
    requires var family, expiry := states[i + 1].store[hash].family, acts[i].issuedAt + WEEK;
             forall j :: i < j < n ==> Spares(states, acts, j, family, expiry)
    ensures var family, left := states[i + 1].store[hash].family, states[n + 1].store;
            && DropsFamily(states[n], acts[n], family)
            && forall h :: h in left ==> left[h].family != family
  {
    StoreFromActs(states, acts, i, n, hash);
    assert !IsLive(states[n], hash) && hash in states[n].store;
    RunKeepsInvariant(states, acts, n);
    RevocationEndsFamilyIff(states[n], acts[n], states[n + 1], states[i + 1].store[hash].family);
  }
}
