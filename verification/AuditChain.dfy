/**
 The tamper-evident audit log. The keyed hash is a parameter: nothing is assumed of it, and the
 results that need collision resistance name the colliding messages instead.
 */
module AuditChain {
  import opened Base

  type Byte = b: nat | b < 256

  /** A byte string whose length fits the 64-bit length prefix. */
  type Bytes = s: seq<Byte> | |s| <= U64_MAX

  /** Hex-encoded HMAC-SHA256 of a message under a key. */
  type Mac = (seq<Byte>, seq<Byte>) -> Bytes

  // ----- Field encoding -----

  /** The `width` low-order bytes of `n`, most significant first. */
  function BigEndian(n: nat, width: nat): (b: seq<Byte>)
    ensures |b| == width
  {
    if width == 0 then [] else BigEndian(n / 256, width - 1) + [n % 256]
  }

  function FromBigEndian(b: seq<Byte>): nat {
    if b == [] then 0 else FromBigEndian(Init(b)) * 256 + Last(b)
  }

  function Pow256(width: nat): nat {
    if width == 0 then 1 else 256 * Pow256(width - 1)
  }

  lemma {:induction false} BigEndianInverse(n: nat, width: nat)
    requires n < Pow256(width)
    ensures FromBigEndian(BigEndian(n, width)) == n
  {
    if width > 0 {
      BigEndianInverse(n / 256, width - 1);
    }
  }

  lemma U64Fits(n: U64)
    ensures n < Pow256(8)
  {
    assert Pow256(4) == 0x1_0000_0000;
    assert Pow256(8) == 256 * 256 * 256 * 256 * Pow256(4);
  }

  /** A field as it is absorbed: its length as eight bytes, then its bytes. */
  function Absorb(field: Bytes): seq<Byte> {
    BigEndian(|field|, 8) + field
  }

  function Encode(fields: seq<Bytes>): seq<Byte> {
    if fields == [] then [] else Absorb(fields[0]) + Encode(fields[1..])
  }

  /** Reads one field off the front: eight bytes of length, then as many bytes. */
  function TakeField(input: seq<Byte>): Option<(seq<Byte>, seq<Byte>)> {
    if |input| < 8 || |input| < 8 + FromBigEndian(input[..8]) then None
    else
      var end := 8 + FromBigEndian(input[..8]);
      Some((input[8..end], input[end..]))
  }

  /** Reads `count` fields and nothing after them. */
  function Decode(input: seq<Byte>, count: nat): Option<seq<seq<Byte>>> {
    if count == 0 then if input == [] then Some([]) else None
    else
      var first := TakeField(input);
      if first.None? then None
      else
        var rest := Decode(first.value.1, count - 1);
        if rest.None? then None else Some([first.value.0] + rest.value)
  }

  lemma FieldReadBack(field: Bytes, rest: seq<Byte>)
    ensures TakeField(Absorb(field) + rest) == Some((field, rest))
  {
    var input := Absorb(field) + rest;
    assert input[..8] == BigEndian(|field|, 8);
    U64Fits(|field|);
    BigEndianInverse(|field|, 8);
    assert input[8..8 + |field|] == field && input[8 + |field|..] == rest;
  }

  /** Decoding an encoded list of fields gives the fields back. */
  lemma {:induction false} DecodeEncode(fields: seq<Bytes>)
    ensures Decode(Encode(fields), |fields|) == Some(fields)
  {
    if fields != [] {
      FieldReadBack(fields[0], Encode(fields[1..]));
      DecodeEncode(fields[1..]);
      assert fields == [fields[0]] + fields[1..];
    }
  }

  /** The length-prefixed encoding of equally many fields determines each of them. */
  lemma EncodeInjective(a: seq<Bytes>, b: seq<Bytes>)
    requires |a| == |b| && Encode(a) == Encode(b)
    ensures a == b
  {
    DecodeEncode(a);
    DecodeEncode(b);
  }

  /** Feeds the fields to the hash one after another. */
  method AbsorbAll(fields: seq<Bytes>) returns (input: seq<Byte>)
    ensures input == Encode(fields)
  {
    input := [];
    var i := 0;
    while i < |fields|
      invariant 0 <= i <= |fields|
      invariant input + Encode(fields[i..]) == Encode(fields)
    {
      assert fields[i..][1..] == fields[i + 1..];
      input := input + BigEndian(|fields[i]|, 8) + fields[i];
      i := i + 1;
    }
    assert input + Encode([]) == input;
  }

  // ----- Entries -----

  /** The time stamp is kept in its RFC 3339 rendering, which is what is hashed. */
  datatype Record = Record(managerId: Bytes, action: Bytes, actor: Bytes, timestamp: Bytes)

  datatype Event = Event(sequence: U64, record: Record, prevHash: Bytes, entryHash: Bytes)

  /** The link of the first entry: 64 zero digits. */
  function GenesisHash(): Bytes {
    seq(64, _ => 48)
  }

  /** The fields hashed for an entry, in order. */
  function Fields(prevHash: Bytes, sequence: U64, r: Record): seq<Bytes> {
    [prevHash, BigEndian(sequence, 8), r.managerId, r.action, r.actor, r.timestamp]
  }

  /** The message hashed for an entry. */
  function Message(prevHash: Bytes, sequence: U64, r: Record): seq<Byte> {
    Encode(Fields(prevHash, sequence, r))
  }

  /** What is hashed, read back: link, sequence number, manager, action, actor and time stamp, in that order. */
  lemma MessageReadBack(p: Bytes, i: U64, r: Record) returns (number: seq<Byte>)
    ensures Decode(Message(p, i, r), 6) == Some([p, number, r.managerId, r.action, r.actor, r.timestamp])
    ensures |number| == 8 && FromBigEndian(number) == i
  {
    DecodeEncode(Fields(p, i, r));
    number := BigEndian(i, 8);
    U64Fits(i);
    BigEndianInverse(i, 8);
  }

  /** The hashed message determines everything in the entry but its own hash. */
  lemma MessageInjective(p: Bytes, i: U64, r: Record, q: Bytes, j: U64, s: Record)
    requires Message(p, i, r) == Message(q, j, s)
    ensures p == q && i == j && r == s
  {
    var m := MessageReadBack(p, i, r);
    var n := MessageReadBack(q, j, s);
    var a := [p, m, r.managerId, r.action, r.actor, r.timestamp];
    var b := [q, n, s.managerId, s.action, s.actor, s.timestamp];
    assert a[0] == b[0] && a[1] == b[1] && a[2] == b[2] && a[3] == b[3] && a[4] == b[4] && a[5] == b[5];
  }

  function Key(key: Option<seq<Byte>>): seq<Byte> {
    if key.Some? then key.value else []
  }

  function EntryFor(mac: Mac, key: Option<seq<Byte>>, prevHash: Bytes, sequence: U64, r: Record): Event {
    Event(sequence, r, prevHash, mac(Key(key), Message(prevHash, sequence, r)))
  }

  function HeadHash(entries: seq<Event>): Bytes {
    if entries == [] then GenesisHash() else Last(entries).entryHash
  }

  /** The chain that appending `records` in turn builds. */
  function Build(mac: Mac, key: Option<seq<Byte>>, records: seq<Record>): (entries: seq<Event>)
    requires |records| <= U64_MAX
    ensures |entries| == |records|
  {
    if records == [] then []
    else
      var before := Build(mac, key, Init(records));
      before + [EntryFor(mac, key, HeadHash(before), |before|, Last(records))]
  }

  function Records(entries: seq<Event>): (r: seq<Record>)
    ensures |r| == |entries|
  {
    if entries == [] then [] else Records(Init(entries)) + [Last(entries).record]
  }

  datatype ChainError =
    | SequenceGap(position: nat, sequence: nat)
    | BrokenLink(position: nat, expected: Bytes, found: Bytes)
    | HashMismatch(position: nat, expected: Bytes, found: Bytes)

  /** What `verify` says about entry `i` when all before it are right. */
  function CheckEntry(mac: Mac, key: Option<seq<Byte>>, entries: seq<Event>, i: nat): Option<ChainError>
    requires i < |entries| <= U64_MAX
  {
    var e, expected := entries[i], HeadHash(entries[..i]);
    var recomputed := mac(Key(key), Message(e.prevHash, e.sequence, e.record));
    if e.sequence != i then Some(SequenceGap(i, e.sequence))
    else if e.prevHash != expected then Some(BrokenLink(i, expected, e.prevHash))
    else if recomputed != e.entryHash then Some(HashMismatch(i, recomputed, e.entryHash))
    else None
  }

  class Chain {
    const mac: Mac
    const key: Option<seq<Byte>>
    var entries: seq<Event>

    constructor (mac: Mac, key: Option<seq<Byte>>)
      ensures this.mac == mac && this.key == key && entries == []
    {
      this.mac, this.key, entries := mac, key, [];
    }

    method ComputeHash(prevHash: Bytes, sequence: U64, r: Record) returns (hash: Bytes)
      ensures hash == mac(Key(key), Message(prevHash, sequence, r))
      ensures key.Some? ==> hash == mac(key.value, Message(prevHash, sequence, r))
      ensures key.None? ==> hash == mac([], Message(prevHash, sequence, r))
    {
      var input := AbsorbAll(Fields(prevHash, sequence, r));
      hash := mac(if key.Some? then key.value else [], input);
    }

    method Append(r: Record) returns (e: Event)
      requires |entries| < U64_MAX
      modifies this
      ensures e == EntryFor(mac, key, HeadHash(old(entries)), |old(entries)|, r)
      ensures entries == old(entries) + [e]
      ensures Accepted(mac, key, old(entries)) ==> Accepted(mac, key, entries)
    {
      var prevHash := HeadHash(entries);
      var hash := ComputeHash(prevHash, |entries|, r);
      e := Event(|entries|, r, prevHash, hash);
      entries := entries + [e];
      assert Init(entries) == old(entries);
      AcceptedSnoc(mac, key, entries);
      LastEntryBuilt(mac, key, entries);
    }

    /** Reports the first entry that is out of place, or nothing. */
    method Verify() returns (error: Option<ChainError>)
      requires |entries| <= U64_MAX
      ensures error.None? <==> forall i :: 0 <= i < |entries| ==> CheckEntry(mac, key, entries, i).None?
      ensures error.Some? ==> exists i :: 0 <= i < |entries| && error == CheckEntry(mac, key, entries, i) &&
                                          (forall j :: 0 <= j < i ==> CheckEntry(mac, key, entries, j).None?)
    {
      var expected := GenesisHash();
      var i := 0;
      while i < |entries|
        invariant 0 <= i <= |entries|
        invariant expected == HeadHash(entries[..i])
        invariant forall j :: 0 <= j < i ==> CheckEntry(mac, key, entries, j).None?
      {
        var e := entries[i];
        ghost var verdict := CheckEntry(mac, key, entries, i);
        if e.sequence != i {
          return Some(SequenceGap(i, e.sequence));
        }
        if e.prevHash != expected {
          return Some(BrokenLink(i, expected, e.prevHash));
        }
        var recomputed := ComputeHash(e.prevHash, e.sequence, e.record);
        if recomputed != e.entryHash {
          return Some(HashMismatch(i, recomputed, e.entryHash));
        }
        expected := e.entryHash;
        i := i + 1;
      }
      error := None;
    }
  }

  // ----- Main results -----

  ghost predicate Accepted(mac: Mac, key: Option<seq<Byte>>, entries: seq<Event>) {
    |entries| <= U64_MAX && forall i :: 0 <= i < |entries| ==> CheckEntry(mac, key, entries, i).None?
  }

  lemma AcceptedSnoc(mac: Mac, key: Option<seq<Byte>>, entries: seq<Event>)
    requires entries != [] && |entries| <= U64_MAX
    ensures Accepted(mac, key, entries) <==>
              Accepted(mac, key, Init(entries)) && CheckEntry(mac, key, entries, |entries| - 1).None?
  {
    var n := |entries| - 1;
    forall i | 0 <= i < n ensures CheckEntry(mac, key, Init(entries), i) == CheckEntry(mac, key, entries, i) {
      assert Init(entries)[..i] == entries[..i];
    }
  }

  /** The last entry passes exactly when it is the one `append` would have added. */
  lemma LastEntryBuilt(mac: Mac, key: Option<seq<Byte>>, entries: seq<Event>)
    requires entries != [] && |entries| <= U64_MAX
    ensures var n := |entries| - 1;
            CheckEntry(mac, key, entries, n).None? <==>
              Last(entries) == EntryFor(mac, key, HeadHash(Init(entries)), n, Last(entries).record)
  {}

  /**
   What is wrong with an entry, told by the entry `append` would have put in its place: the first of sequence
   number, link and hash that differ, with the value it should have and the value it has.
   */
  lemma FaultAgainstBuilt(mac: Mac, key: Option<seq<Byte>>, entries: seq<Event>, i: nat)
    requires i < |entries| <= U64_MAX
    ensures var e := entries[i];
            var built := EntryFor(mac, key, HeadHash(entries[..i]), i, e.record);
            CheckEntry(mac, key, entries, i) ==
              if e.sequence != built.sequence then Some(SequenceGap(i, e.sequence))
              else if e.prevHash != built.prevHash then Some(BrokenLink(i, built.prevHash, e.prevHash))
              else if e.entryHash != built.entryHash then Some(HashMismatch(i, built.entryHash, e.entryHash))
              else None
  {
  }

  /** The first entry of an accepted chain links to 64 zero digits, and each other entry to the one before it. */
  lemma AcceptedLinks(mac: Mac, key: Option<seq<Byte>>, entries: seq<Event>, i: nat)
    requires Accepted(mac, key, entries) && i < |entries|
    ensures i == 0 ==> |entries[i].prevHash| == 64 && forall b :: b in entries[i].prevHash ==> b == '0' as nat
    ensures i > 0 ==> entries[i].prevHash == entries[i - 1].entryHash
    ensures entries[i].sequence == i
  {
    assert CheckEntry(mac, key, entries, i).None?;
  }

  lemma RecordsSnoc(entries: seq<Event>)
    requires entries != []
    ensures Init(Records(entries)) == Records(Init(entries)) && Last(Records(entries)) == Last(entries).record
  {}

  /** `verify` accepts exactly the chains that `append` builds from the records they hold. */
  lemma {:induction false} AcceptedIffBuilt(mac: Mac, key: Option<seq<Byte>>, entries: seq<Event>)
    requires |entries| <= U64_MAX
    ensures Accepted(mac, key, entries) <==> entries == Build(mac, key, Records(entries))
    decreases |entries|
  {
    if entries != [] {
      var init, last := Init(entries), Last(entries);
      AcceptedIffBuilt(mac, key, init);
      AcceptedSnoc(mac, key, entries);
      LastEntryBuilt(mac, key, entries);
      RecordsSnoc(entries);
      BuildSnoc(mac, key, entries, Records(entries));
    }
  }

  lemma BuildSnoc(mac: Mac, key: Option<seq<Byte>>, entries: seq<Event>, records: seq<Record>)
    requires entries != [] && |entries| == |records| <= U64_MAX
    ensures entries == Build(mac, key, records) <==>
              Init(entries) == Build(mac, key, Init(records)) &&
              Last(entries) == EntryFor(mac, key, HeadHash(Init(entries)), |entries| - 1, Last(records))
  {
    assert entries == Init(entries) + [Last(entries)];
    assert Init(Build(mac, key, records)) == Build(mac, key, Init(records));
  }

  /** Every prefix of an accepted chain is accepted, so truncation alone is never detected. */
  lemma PrefixAccepted(mac: Mac, key: Option<seq<Byte>>, entries: seq<Event>, n: nat)
    requires Accepted(mac, key, entries) && n <= |entries|
    ensures Accepted(mac, key, entries[..n])
  {
    forall i | 0 <= i < n ensures CheckEntry(mac, key, entries[..n], i).None? {
      assert entries[..n][..i] == entries[..i];
      assert CheckEntry(mac, key, entries, i).None?;
    }
  }

  /** Two different messages with the same hash. */
  datatype Collision = Collision(first: seq<Byte>, second: seq<Byte>)

  ghost predicate Collides(mac: Mac, key: Option<seq<Byte>>, c: Collision) {
    c.first != c.second && mac(Key(key), c.first) == mac(Key(key), c.second)
  }

  function MessageOf(e: Event): seq<Byte> {
    Message(e.prevHash, e.sequence, e.record)
  }

  /**
   Two accepted non-empty chains under one key with the same head hash are the same entry by entry,
   length included; otherwise messages hashed in them collide.
   */
  lemma {:induction false} HeadDeterminesChain(mac: Mac, key: Option<seq<Byte>>, a: seq<Event>, b: seq<Event>)
    returns (c: Option<Collision>)
    requires a != [] && b != [] && Accepted(mac, key, a) && Accepted(mac, key, b) && HeadHash(a) == HeadHash(b)
    ensures c.None? ==> a == b
    ensures c.Some? ==> Collides(mac, key, c.value)
    ensures c.Some? ==> exists e, f :: e in a && f in b && c.value == Collision(MessageOf(e), MessageOf(f))
    decreases |a|
  {
    var e, f := Last(a), Last(b);
    HeadOfAccepted(mac, key, a);
    HeadOfAccepted(mac, key, b);
    if MessageOf(e) != MessageOf(f) {
      return Some(Collision(MessageOf(e), MessageOf(f)));
    }
    MessageInjective(e.prevHash, e.sequence, e.record, f.prevHash, f.sequence, f.record);
    assert a == Init(a) + [e] && b == Init(b) + [f];
    c := None;
    if |a| > 1 {
      c := HeadDeterminesChain(mac, key, Init(a), Init(b));
    }
  }

  /** The head of an accepted chain hashes its own message, knows its place and links to the rest. */
  lemma HeadOfAccepted(mac: Mac, key: Option<seq<Byte>>, a: seq<Event>)
    requires a != [] && Accepted(mac, key, a)
    ensures HeadHash(a) == mac(Key(key), MessageOf(Last(a)))
    ensures Last(a).sequence == |a| - 1 && Last(a).prevHash == HeadHash(Init(a))
    ensures Accepted(mac, key, Init(a))
  {
    assert CheckEntry(mac, key, a, |a| - 1).None?;
    AcceptedSnoc(mac, key, a);
  }

  /**
   Tampering: a chain that differs from an accepted one but keeps its head hash is rejected, unless
   the forger found two messages with the same hash.
   */
  lemma TamperingDetected(mac: Mac, key: Option<seq<Byte>>, genuine: seq<Event>, forged: seq<Event>)
    requires Accepted(mac, key, genuine) && genuine != [] && forged != [] && forged != genuine
    requires HeadHash(forged) == HeadHash(genuine)
    requires forall e, f :: e in genuine && f in forged ==> !Collides(mac, key, Collision(MessageOf(e), MessageOf(f)))
    ensures !Accepted(mac, key, forged)
  {
    if Accepted(mac, key, forged) {
      var c := HeadDeterminesChain(mac, key, genuine, forged);
    }
  }
}
