/**
 The signing keyring with overlapping rotation, and the promise it makes to access tokens: while a
 token has not expired, its key id still names the key that signed it.
 */
module SecretKeyring {
  import opened Base

  datatype KeyringError = EmptyKeyId | InvalidKeyId | DuplicateKeyId | InvalidOverlap | InactiveKey

  /** One version of a secret; `value` is the key material. */
  datatype Version<T> = Version(id: string, value: T, expiresAt: Option<U64>)

  datatype Ring<T> = Ring(current: Version<T>, previous: map<string, Version<T>>, overlap: U64)

  predicate IdChar(c: char) {
    'a' <= c <= 'z' || 'A' <= c <= 'Z' || '0' <= c <= '9' || c == '.' || c == '_' || c == '-'
  }

  function ValidateId(id: string): Option<KeyringError> {
    if id == "" then Some(EmptyKeyId)
    else if exists c :: c in id && !IdChar(c) then Some(InvalidKeyId)
    else None
  }

  predicate Active<T>(v: Version<T>, now: U64) {
    v.expiresAt.None? || v.expiresAt.value > now
  }

  /** The keys a token may be verified with: the current one and the previous ones still active. */
  predicate Verifies<T(==)>(ring: Ring<T>, v: Version<T>, now: U64) {
    v == ring.current || (v.id in ring.previous && ring.previous[v.id] == v && Active(v, now))
  }

  /** `verification_key`: the version called `id`, if it may still be used. */
  function Lookup<T>(ring: Ring<T>, id: string, now: U64): Option<Version<T>> {
    if ring.current.id == id then Some(ring.current)
    else if id in ring.previous && Active(ring.previous[id], now) then Some(ring.previous[id])
    else None
  }

  /** A key id has at least one character, all of them letters, digits, dots, underscores or hyphens. */
  ghost predicate ProperId(id: string) {
    && |id| > 0
    && forall i :: 0 <= i < |id| ==>
         || 'a' <= id[i] <= 'z' || 'A' <= id[i] <= 'Z' || '0' <= id[i] <= '9'
         || id[i] == '.' || id[i] == '_' || id[i] == '-'
  }

  /** An id passes exactly when it is proper; of the others the empty one has an error of its own. */
  lemma ValidateIdIff(id: string)
    ensures ValidateId(id).None? <==> ProperId(id)
    ensures ValidateId(id) == Some(EmptyKeyId) <==> id == ""
  {
    if ValidateId(id).None? {
      assert forall i :: 0 <= i < |id| ==> id[i] in id && IdChar(id[i]);
    }
  }

  /** Key ids are proper and name one version each, and the current version never expires. */
  ghost predicate Valid<T(!new)>(ring: Ring<T>) {
    && ring.overlap > 0
    && ProperId(ring.current.id) && (forall id :: id in ring.previous ==> ProperId(id))
    && ring.current.expiresAt.None?
    && ring.current.id !in ring.previous
    && (forall id :: id in ring.previous ==> ring.previous[id].id == id && ring.previous[id].expiresAt.Some?)
  }

  function Retain<T>(previous: map<string, Version<T>>, now: U64): map<string, Version<T>> {
    map id | id in previous && Active(previous[id], now) :: previous[id]
  }

  function Rotated<T>(ring: Ring<T>, v: Version<T>, now: U64): Ring<T> {
    var retired := ring.current.(expiresAt := Some(SatAdd(now, ring.overlap)));
    Ring(v, Retain(ring.previous[retired.id := retired], now), ring.overlap)
  }

  /** What `rotate` answers. */
  function RotateError<T>(ring: Ring<T>, v: Version<T>): Option<KeyringError> {
    if ValidateId(v.id).Some? then ValidateId(v.id)
    else if v.expiresAt.Some? then Some(InactiveKey)
    else if ring.current.id == v.id || v.id in ring.previous then Some(DuplicateKeyId)
    else None
  }

  class Keyring<T(!new)> {
    var current: Version<T>
    var previous: map<string, Version<T>>
    var overlap: U64

    ghost function View(): Ring<T>
      reads this
    {
      Ring(current, previous, overlap)
    }

    constructor Unchecked(current: Version<T>, previous: map<string, Version<T>>, overlap: U64)
      ensures View() == Ring(current, previous, overlap)
    {
      this.current, this.previous, this.overlap := current, previous, overlap;
    }

    /** `SecretKeyring::new`: keys without an expiry get the overlap; the first fault met is reported. */
    static method Create(current: Version<T>, previous: seq<Version<T>>, now: U64, overlap: U64)
      returns (r: Result<Keyring<T>, KeyringError>)
      ensures r.Ok? ==> fresh(r.value) && Valid(r.value.View())
      ensures r.Ok? ==> r.value.View().current == current && r.value.View().overlap == overlap
      ensures r.Ok? ==> forall id :: id in r.value.View().previous ==> Active(r.value.View().previous[id], now)
      ensures r.Ok? ==> forall id :: id in r.value.View().previous <==>
                exists i :: 0 <= i < |previous| && previous[i].id == id
      ensures r.Ok? ==> forall i :: 0 <= i < |previous| ==>
                previous[i].id in r.value.View().previous &&
                r.value.View().previous[previous[i].id] == WithDefault(previous[i], now, overlap)
      ensures r.Err? <==> CurrentFault(current, overlap).Some? || !GoodPrevious(current.id, previous, now, overlap)
      ensures r.Err? && CurrentFault(current, overlap).Some? ==> r.error == CurrentFault(current, overlap).value
      ensures r.Err? && CurrentFault(current, overlap).None? ==>
                exists i :: FirstFault(current.id, previous, i, now, overlap, r.error)
    {
      if overlap == 0 {
        return Err(InvalidOverlap);
      }
      if ValidateId(current.id).Some? {
        return Err(ValidateId(current.id).value);
      }
      if current.expiresAt.Some? {
        return Err(InactiveKey);
      }
      ValidateIdIff(current.id);
      var table: map<string, Version<T>> := map[];
      var i := 0;
      while i < |previous|
        invariant 0 <= i <= |previous|
        invariant forall id :: id in table ==> ProperId(id)
        invariant forall id :: id in table <==> exists j :: 0 <= j < i && previous[j].id == id
        invariant current.id !in table
        invariant forall id :: id in table ==> table[id].id == id && table[id].expiresAt.Some? && Active(table[id], now)
        invariant forall j :: 0 <= j < i ==> FaultAt(current.id, previous, j, now, overlap).None?
        invariant forall j :: 0 <= j < i ==> table[previous[j].id] == WithDefault(previous[j], now, overlap)
      {
        var v := previous[i];
        ValidateIdIff(v.id);
        if ValidateId(v.id).Some? {
          assert FirstFault(current.id, previous, i, now, overlap, ValidateId(v.id).value);
          return Err(ValidateId(v.id).value);
        }
        if v.id == current.id || v.id in table {
          assert FirstFault(current.id, previous, i, now, overlap, DuplicateKeyId);
          return Err(DuplicateKeyId);
        }
        v := WithDefault(v, now, overlap);
        if !Active(v, now) {
          assert FirstFault(current.id, previous, i, now, overlap, InactiveKey);
          return Err(InactiveKey);
        }
        table := table[v.id := v];
        i := i + 1;
      }
      var ring := new Keyring<T>.Unchecked(current, table, overlap);
      r := Ok(ring);
    }

    method Rotate(v: Version<T>, now: U64) returns (error: Option<KeyringError>)
      requires Valid(View())
      modifies this
      ensures error == RotateError(old(View()), v)
      ensures View() == if error.None? then Rotated(old(View()), v, now) else old(View())
      ensures Valid(View())
    {
      ValidateIdIff(v.id);
      if ValidateId(v.id).Some? {
        return ValidateId(v.id);
      }
      if v.expiresAt.Some? {
        return Some(InactiveKey);
      }
      if current.id == v.id || v.id in previous {
        return Some(DuplicateKeyId);
      }
      var retired := current.(expiresAt := Some(SatAdd(now, overlap)));
      current := v;
      previous := previous[retired.id := retired];
      previous := map id | id in previous && Active(previous[id], now) :: previous[id];
      error := None;
    }

    method VerificationKey(id: string, now: U64) returns (v: Option<Version<T>>)
      ensures v == Lookup(View(), id, now)
    {
      if current.id == id {
        v := Some(current);
      } else if id in previous && Active(previous[id], now) {
        v := Some(previous[id]);
      } else {
        v := None;
      }
    }
  }

  function WithDefault<T>(v: Version<T>, now: U64, overlap: U64): Version<T> {
    if v.expiresAt.None? then v.(expiresAt := Some(SatAdd(now, overlap))) else v
  }

  /** What is wrong before any old key is looked at. */
  function CurrentFault<T>(current: Version<T>, overlap: U64): Option<KeyringError> {
    if overlap == 0 then Some(InvalidOverlap)
    else if ValidateId(current.id).Some? then ValidateId(current.id)
    else if current.expiresAt.Some? then Some(InactiveKey)
    else None
  }

  /** What is wrong with the `i`-th old key: its id, an id used before, or an expiry in the past. */
  ghost function FaultAt<T>(current: string, previous: seq<Version<T>>, i: nat, now: U64, overlap: U64)
    : Option<KeyringError>
    requires i < |previous|
  {
    var v := previous[i];
    if ValidateId(v.id).Some? then ValidateId(v.id)
    else if v.id == current || exists j :: 0 <= j < i && previous[j].id == v.id then Some(DuplicateKeyId)
    else if !Active(WithDefault(v, now, overlap), now) then Some(InactiveKey)
    else None
  }

  ghost predicate FirstFault<T>(
    current: string, previous: seq<Version<T>>, i: nat, now: U64, overlap: U64, error: KeyringError)
  {
    && i < |previous|
    && FaultAt(current, previous, i, now, overlap) == Some(error)
    && forall j :: 0 <= j < i ==> FaultAt(current, previous, j, now, overlap).None?
  }

  ghost predicate GoodPrevious<T>(current: string, previous: seq<Version<T>>, now: U64, overlap: U64) {
    forall i :: 0 <= i < |previous| ==> FaultAt(current, previous, i, now, overlap).None?
  }

  /** A zero overlap is reported first, then a bad id of the current key, then its expiry. */
  lemma CurrentFaultMeaning<T>(current: Version<T>, overlap: U64)
    ensures CurrentFault(current, overlap) == Some(InvalidOverlap) <==> overlap == 0
    ensures CurrentFault(current, overlap) == Some(InactiveKey) <==>
              overlap > 0 && ProperId(current.id) && current.expiresAt.Some?
    ensures CurrentFault(current, overlap).None? <==> overlap > 0 && ProperId(current.id) && current.expiresAt.None?
  {
    ValidateIdIff(current.id);
  }

  /** Of an old key a bad id is reported first, then an id used before, then an expiry that is not ahead. */
  lemma FaultMeaning<T>(current: string, previous: seq<Version<T>>, i: nat, now: U64, overlap: U64)
    requires i < |previous| && overlap > 0
    ensures var v, fault := previous[i], FaultAt(current, previous, i, now, overlap);
            var used := v.id == current || exists j :: 0 <= j < i && previous[j].id == v.id;
            var over := if v.expiresAt.Some? then v.expiresAt.value <= now else now == U64_MAX;
            && (fault == Some(DuplicateKeyId) <==> ProperId(v.id) && used)
            && (fault == Some(InactiveKey) <==> ProperId(v.id) && !used && over)
            && (fault.None? <==> ProperId(v.id) && !used && !over)
  {
    ValidateIdIff(previous[i].id);
    DefaultExpiryLasts(previous[i], now, overlap, now);
  }

  /** The lookup finds a usable version by id, and the only one there is. */
  lemma LookupFindsTheKey<T(!new)>(ring: Ring<T>, id: string, now: U64)
    requires Valid(ring)
    ensures forall v: Version<T> :: Lookup(ring, id, now) == Some(v) <==> v.id == id && Verifies(ring, v, now)
  {}

  /** A key given without an expiry stays usable for the overlap, one with an expiry until then. */
  lemma DefaultExpiryLasts<T>(v: Version<T>, now: U64, overlap: U64, later: U64)
    ensures WithDefault(v, now, overlap).id == v.id && WithDefault(v, now, overlap).value == v.value
    ensures Active(WithDefault(v, now, overlap), later) <==>
              if v.expiresAt.Some? then later < v.expiresAt.value else later < now + overlap && later < U64_MAX
  {
  }

  /**
   A rotation goes through exactly for a proper id that no key of the ring has, without an expiry. A bad id is
   reported before an expiry, and an expiry before an id already in use.
   */
  lemma RotationAcceptedIff<T(!new)>(ring: Ring<T>, v: Version<T>)
    ensures var used := v.id == ring.current.id || v.id in ring.previous;
            && (RotateError(ring, v).None? <==> ProperId(v.id) && v.expiresAt.None? && !used)
            && (RotateError(ring, v) == Some(InactiveKey) <==> ProperId(v.id) && v.expiresAt.Some?)
            && (RotateError(ring, v) == Some(DuplicateKeyId) <==> ProperId(v.id) && v.expiresAt.None? && used)
            && (RotateError(ring, v) == Some(EmptyKeyId) <==> v.id == "")
  {
    ValidateIdIff(v.id);
  }

  /**
   After a rotation the new key is current, the replaced one is kept for the overlap, and of the older ones
   exactly those are kept, unchanged, that had not expired. At 2^64 - 1 there is no time left to keep one for.
   */
  lemma RotationKeeps<T(!new)>(ring: Ring<T>, v: Version<T>, now: U64, id: string)
    requires Valid(ring) && RotateError(ring, v).None?
    ensures var after, replaced := Rotated(ring, v, now), ring.current.id;
            && Valid(after) && after.current == v
            && (id != replaced ==>
                 (id in after.previous <==> id in ring.previous && now < ring.previous[id].expiresAt.value))
            && (id != replaced && id in after.previous ==> after.previous[id] == ring.previous[id])
            && (replaced in after.previous <==> now < U64_MAX)
            && (now < U64_MAX ==>
                 after.previous[replaced] == ring.current.(expiresAt := Some(Clip(now + ring.overlap))))
  {
    ValidateIdIff(v.id);
  }

  // ----- Tokens over runs of rotations -----

  /** An access token: when it was issued, the key id in its header, and the key it was signed with. */
  datatype Token<T> = Token(iat: U64, kid: string, signer: T)

  datatype Act<T> = Issue(iat: U64) | Rotate(v: Version<T>, at: U64) | Wait

  /** The ring, the tokens issued so far and the time. */
  datatype World<T> = World(ring: Ring<T>, tokens: seq<Token<T>>, now: U64)

  /**
   One step of the service. Both issuing and rotating read the clock first and take the ring's lock
   later. A token may carry a time arbitrarily far in the past; a rotation lags by at most `lag`.
   */
  ghost predicate Next<T(!new)>(w: World<T>, act: Act<T>, u: World<T>, lag: U64) {
    && w.now <= u.now
    && match act
       case Issue(iat) =>
         && iat <= u.now && u.ring == w.ring
         && u.tokens == w.tokens + [Token(iat, w.ring.current.id, w.ring.current.value)]
       case Rotate(v, at) =>
         && at <= u.now <= at + lag
         && u.tokens == w.tokens
         && u.ring == if RotateError(w.ring, v).None? then Rotated(w.ring, v, at) else w.ring
       case Wait => u.ring == w.ring && u.tokens == w.tokens
  }

  ghost predicate Run<T(!new)>(worlds: seq<World<T>>, acts: seq<Act<T>>, lag: U64) {
    && |worlds| == |acts| + 1
    && Valid(worlds[0].ring) && worlds[0].tokens == []
    && forall i :: 0 <= i < |acts| ==> Next(worlds[i], acts[i], worlds[i + 1], lag)
  }

  /** The ring holds the token's signer under its key id for as long as the token lives; its expiry is a 64-bit time. */
  ghost predicate Honoured<T(!new)>(ring: Ring<T>, t: Token<T>, now: U64, lifetime: U64) {
    || (ring.current.id == t.kid && ring.current.value == t.signer)
    || (ring.current.id != t.kid && t.kid in ring.previous && ring.previous[t.kid].value == t.signer &&
        ring.previous[t.kid].expiresAt.Some? && ring.previous[t.kid].expiresAt.value >= t.iat + lifetime)
    || t.iat + lifetime <= now
    || t.iat + lifetime > U64_MAX
  }

  lemma RotationKeepsValid<T(!new)>(ring: Ring<T>, v: Version<T>, at: U64)
    requires Valid(ring) && RotateError(ring, v).None?
    ensures Valid(Rotated(ring, v, at))
  {
    ValidateIdIff(v.id);
  }

  lemma RotationHonours<T(!new)>(ring: Ring<T>, v: Version<T>, t: Token<T>, before: U64, at: U64, now: U64,
      lifetime: U64, lag: U64)
    requires Valid(ring) && RotateError(ring, v).None? && before <= now && t.iat <= before
    requires at <= now <= at + lag && lifetime + lag <= ring.overlap
    requires Honoured(ring, t, before, lifetime)
    ensures Honoured(Rotated(ring, v, at), t, now, lifetime)
  {}

  lemma {:induction false} RunHonours<T(!new)>(worlds: seq<World<T>>, acts: seq<Act<T>>, n: nat, lifetime: U64,
      lag: U64)
    requires Run(worlds, acts, lag) && n <= |acts| && lifetime + lag <= worlds[0].ring.overlap
    ensures Valid(worlds[n].ring) && worlds[n].ring.overlap == worlds[0].ring.overlap
    ensures forall t :: t in worlds[n].tokens ==>
              t.iat <= worlds[n].now && Honoured(worlds[n].ring, t, worlds[n].now, lifetime)
    decreases n
  {
    if n > 0 {
      RunHonours(worlds, acts, n - 1, lifetime, lag);
      var w, u := worlds[n - 1], worlds[n];
      assert Next(w, acts[n - 1], u, lag);
      if acts[n - 1].Rotate? && RotateError(w.ring, acts[n - 1].v).None? {
        RotationKeepsValid(w.ring, acts[n - 1].v, acts[n - 1].at);
      }
      forall t | t in u.tokens ensures t.iat <= u.now && Honoured(u.ring, t, u.now, lifetime) {
        match acts[n - 1]
        case Rotate(v, at) =>
          if RotateError(w.ring, v).None? {
            RotationHonours(w.ring, v, t, w.now, at, u.now, lifetime, lag);
          }
        case _ =>
      }
    }
  }

  /** The lookup of the token's key id returns the key that signed it. */
  ghost predicate Resolves<T(!new)>(ring: Ring<T>, t: Token<T>, now: U64) {
    var found := Lookup(ring, t.kid, now);
    found.Some? && found.value.id == t.kid && found.value.value == t.signer
  }

  ghost predicate Unexpired<T(!new)>(t: Token<T>, now: U64, lifetime: U64) {
    now < t.iat + lifetime <= U64_MAX
  }

  /**
   With an overlap of at least the token lifetime (and the lag of the clock reads), over any run of
   rotations, the key id of a token that has not expired still resolves to the key that signed it.
   */
  lemma UnexpiredTokensVerify<T(!new)>(worlds: seq<World<T>>, acts: seq<Act<T>>, n: nat, lifetime: U64, lag: U64,
      t: Token<T>)
    requires Run(worlds, acts, lag) && n <= |acts| && lifetime + lag <= worlds[0].ring.overlap
    requires t in worlds[n].tokens && Unexpired(t, worlds[n].now, lifetime)
    ensures Resolves(worlds[n].ring, t, worlds[n].now)
  {
    RunHonours(worlds, acts, n, lifetime, lag);
  }

  /** The promise for one lifetime, overlap and lag: every run, every unexpired token. */
  ghost predicate AlwaysResolves(lifetime: U64, overlap: U64, lag: U64) {
    forall worlds: seq<World<nat>>, acts: seq<Act<nat>>, n: nat, t: Token<nat> ::
      Run(worlds, acts, lag) && worlds[0].ring.overlap == overlap && n <= |acts| &&
      t in worlds[n].tokens && Unexpired(t, worlds[n].now, lifetime) ==>
        Resolves(worlds[n].ring, t, worlds[n].now)
  }

  /** A shorter overlap breaks it: a token issued, its key rotated away with a late clock, looked up when it ends. */
  lemma ShortOverlapFails(lifetime: U64, overlap: U64, lag: U64)
    returns (worlds: seq<World<nat>>, acts: seq<Act<nat>>, t: Token<nat>)
    requires 0 < overlap < lifetime + lag <= U64_MAX && 0 < lifetime
    ensures Run(worlds, acts, lag) && worlds[0].ring.overlap == overlap && |acts| == 3
    ensures t in worlds[3].tokens && Unexpired(t, worlds[3].now, lifetime)
    ensures !Resolves(worlds[3].ring, t, worlds[3].now)
  {
    var a, b := Version("a", 1, None), Version("b", 2, None);
    var ring := Ring(a, map[], overlap);
    t := Token(lag, "a", 1);
    acts := [Issue(lag), Rotate(b, 0), Wait];
    assert RotateError(ring, b).None?;
    var rotated := Rotated(ring, b, 0);
    var end := if overlap <= lag then lag else overlap;
    worlds := [World(ring, [], 0), World(ring, [t], lag), World(rotated, [t], lag), World(rotated, [t], end)];
  }

  /** The promise holds exactly when the overlap is at least the lifetime and the lag together. */
  lemma OverlapSufficesIff(lifetime: U64, overlap: U64, lag: U64)
    requires overlap > 0 && lifetime > 0 && lifetime + lag <= U64_MAX
    ensures AlwaysResolves(lifetime, overlap, lag) <==> lifetime + lag <= overlap
  {
    if lifetime + lag <= overlap {
      forall worlds: seq<World<nat>>, acts: seq<Act<nat>>, n: nat, t: Token<nat> |
        Run(worlds, acts, lag) && worlds[0].ring.overlap == overlap && n <= |acts| &&
        t in worlds[n].tokens && Unexpired(t, worlds[n].now, lifetime)
        ensures Resolves(worlds[n].ring, t, worlds[n].now)
      {
        UnexpiredTokensVerify(worlds, acts, n, lifetime, lag, t);
      }
    } else {
      var worlds, acts, t := ShortOverlapFails(lifetime, overlap, lag);
    }
  }
}
