/** The storage key of an idempotent request: what it determines, which methods confuse it, and which keys are valid. */
module IdempotencyKeys {
  import opened Base
  import opened Text

  // ----- Storage keys -----

  datatype Scope = Scope(user: string, method_: string, path: string)

  /** `idem:<len>:<user>:<method>:<len>:<path>:<key>` */
  function StorageKey(s: Scope, key: string): string {
    "idem:" + (ToDecimal(|s.user|) + ":" + (s.user + (":" + (Endpoint(s.method_, s.path) + (":" + key)))))
  }

  /** `<method>:<len>:<path>` */
  function Endpoint(m: string, path: string): string {
    m + ":" + (ToDecimal(|path|) + ":" + path)
  }

  lemma CutAt(sep: char, a: string, x: string, b: string, y: string)
    requires sep !in a && sep !in b && a + [sep] + x == b + [sep] + y
    ensures a == b && x == y
  {
    SplitOnceAt(a, sep, x);
    SplitOnceAt(b, sep, y);
  }

  lemma CutAtLength(a: string, x: string, b: string, y: string)
    requires |a| == |b| && a + x == b + y
    ensures a == b && x == y
  {
    assert a == (a + x)[..|a|] && b == (b + y)[..|b|];
    assert x == (a + x)[|a|..] && y == (b + y)[|b|..];
  }

  /** A length-prefixed text and what follows it are determined by their concatenation. */
  lemma CutPrefixed(a: string, x: string, b: string, y: string)
    requires ToDecimal(|a|) + ":" + (a + x) == ToDecimal(|b|) + ":" + (b + y)
    ensures a == b && x == y
  {
    CutAt(':', ToDecimal(|a|), a + x, ToDecimal(|b|), b + y);
    DecimalRoundTrip(|a|);
    DecimalRoundTrip(|b|);
    CutAtLength(a, x, b, y);
  }

  /** A storage key determines the user, and then the endpoint and the key as one text. */
  lemma StorageKeyCut(s: Scope, key: string, t: Scope, other: string)
    requires StorageKey(s, key) == StorageKey(t, other)
    ensures s.user == t.user
    ensures Endpoint(s.method_, s.path) + (":" + key) == Endpoint(t.method_, t.path) + (":" + other)
  {
    var x, y := Endpoint(s.method_, s.path) + (":" + key), Endpoint(t.method_, t.path) + (":" + other);
    var u, v := ToDecimal(|s.user|) + ":" + (s.user + (":" + x)), ToDecimal(|t.user|) + ":" + (t.user + (":" + y));
    CutAtLength("idem:", u, "idem:", v);
    CutPrefixed(s.user, ":" + x, t.user, ":" + y);
    CutAtLength(":", x, ":", y);
  }

  /** With methods free of colons, the storage key determines user, method, path and key. */
  lemma StorageKeyInjective(s: Scope, key: string, t: Scope, other: string)
    requires ':' !in s.method_ && ':' !in t.method_
    requires StorageKey(s, key) == StorageKey(t, other)
    ensures s == t && key == other
  {
    StorageKeyCut(s, key, t, other);
    var p := ToDecimal(|s.path|) + ":" + (s.path + (":" + key));
    var q := ToDecimal(|t.path|) + ":" + (t.path + (":" + other));
    assert Endpoint(s.method_, s.path) + (":" + key) == s.method_ + ":" + p;
    assert Endpoint(t.method_, t.path) + (":" + other) == t.method_ + ":" + q;
    CutAt(':', s.method_, p, t.method_, q);
    CutPrefixed(s.path, ":" + key, t.path, ":" + other);
    CutAtLength(":", key, ":", other);
  }

  predicate IsHex(c: char) {
    '0' <= c <= '9' || 'a' <= c <= 'f' || 'A' <= c <= 'F'
  }

  predicate HexOfLength(part: string, n: nat) {
    |part| == n && forall c :: c in part ==> IsHex(c)
  }

  ghost predicate Fits(parts: seq<string>, lengths: seq<nat>) {
    |parts| == |lengths| && forall i :: 0 <= i < |parts| ==> HexOfLength(parts[i], lengths[i])
  }

  const UUID: seq<nat> := [8, 4, 4, 4, 12]

  ghost predicate ValidKey(key: string) {
    Fits(Split(key, '-'), UUID)
  }

  method ValidateKey(key: string) returns (ok: bool)
    ensures ok == ValidKey(key)
  {
    var parts := Split(key, '-');
    ok := |parts| == |UUID|;
    var i := 0;
    while ok && i < |parts|
      invariant 0 <= i <= |parts|
      invariant ok ==> |parts| == |UUID| && forall k :: 0 <= k < i ==> HexOfLength(parts[k], UUID[k])
      invariant !ok ==> !Fits(parts, UUID)
    {
      ok := HexOfLength(parts[i], UUID[i]);
      i := i + 1;
    }
  }

  /** Text told from left to right: runs of hexadecimal digits of the given lengths with a hyphen between them. */
  predicate Grouped(text: string, lengths: seq<nat>)
    requires lengths != []
    decreases |lengths|
  {
    var n := lengths[0];
    if |lengths| == 1 then HexOfLength(text, n)
    else |text| > n && HexOfLength(text[..n], n) && text[n] == '-' && Grouped(text[n + 1..], lengths[1..])
  }

  lemma FitsCons(first: string, rest: seq<string>, lengths: seq<nat>)
    requires lengths != []
    ensures Fits([first] + rest, lengths) <==> HexOfLength(first, lengths[0]) && Fits(rest, lengths[1..])
  {
    var parts := [first] + rest;
    assert parts[0] == first && parts[1..] == rest;
    if Fits(parts, lengths) {
      assert forall i :: 0 <= i < |rest| ==> rest[i] == parts[i + 1] && lengths[1..][i] == lengths[i + 1];
    }
  }

  lemma HexHasNoHyphen(text: string, n: nat)
    requires HexOfLength(text, n)
    ensures '-' !in text
  {
    assert !IsHex('-');
  }

  lemma SplitCons(before: string, after: string)
    requires '-' !in before
    ensures Split(before + "-" + after, '-') == [before] + Split(after, '-')
  {
    SplitOnceAt(before, '-', after);
  }

  lemma GroupedCons(before: string, after: string, lengths: seq<nat>)
    requires |lengths| > 1 && HexOfLength(before, lengths[0])
    ensures Grouped(before + "-" + after, lengths) <==> Grouped(after, lengths[1..])
  {
    var text, n := before + "-" + after, lengths[0];
    assert text[..n] == before && text[n + 1..] == after && text[n] == '-';
  }

  lemma {:induction false} GroupedFits(text: string, lengths: seq<nat>)
    requires lengths != [] && Grouped(text, lengths)
    ensures Fits(Split(text, '-'), lengths)
    decreases |lengths|
  {
    var n := lengths[0];
    if |lengths| == 1 {
      HexHasNoHyphen(text, n);
    } else {
      var before, after := text[..n], text[n + 1..];
      assert text == before + "-" + after;
      GroupedFits(after, lengths[1..]);
      HexHasNoHyphen(before, n);
      SplitCons(before, after);
      FitsCons(before, Split(after, '-'), lengths);
    }
  }

  lemma {:induction false} FitsGrouped(text: string, lengths: seq<nat>)
    requires lengths != [] && Fits(Split(text, '-'), lengths)
    ensures Grouped(text, lengths)
    decreases |lengths|
  {
    if '-' in text {
      var cut := SplitOnce(text, '-').value;
      SplitCons(cut.0, cut.1);
      FitsCons(cut.0, Split(cut.1, '-'), lengths);
      FitsGrouped(cut.1, lengths[1..]);
      GroupedCons(cut.0, cut.1, lengths);
    }
  }

  predicate HexBetween(text: string, lo: nat, hi: nat)
    requires lo <= hi <= |text|
  {
    forall i :: lo <= i < hi ==> IsHex(text[i])
  }

  lemma HexSlice(text: string, lo: nat, hi: nat)
    requires lo <= hi <= |text|
    ensures HexOfLength(text[lo..hi], hi - lo) <==> HexBetween(text, lo, hi)
  {
    var part := text[lo..hi];
    if HexOfLength(part, hi - lo) {
      assert forall i :: lo <= i < hi ==> text[i] == part[i - lo] && part[i - lo] in part;
    }
  }

  /** The first group of the text from `at` on, and the rest. */
  lemma GroupedFrom(text: string, at: nat, lengths: seq<nat>)
    requires at <= |text| && lengths != []
    ensures var end := at + lengths[0];
            Grouped(text[at..], lengths) <==>
              && end <= |text| && HexBetween(text, at, end)
              && if |lengths| == 1 then end == |text|
                 else end < |text| && text[end] == '-' && Grouped(text[end + 1..], lengths[1..])
  {
    var rest, n := text[at..], lengths[0];
    if n <= |rest| {
      HexSlice(text, at, at + n);
      assert rest[..n] == text[at..at + n];
      assert n < |rest| ==> rest[n] == text[at + n] && rest[n + 1..] == text[at + n + 1..];
      assert n == |rest| ==> rest == text[at..at + n];
    }
  }

  /** Thirty-six characters: hyphens at the places 8, 13, 18 and 23, hexadecimal digits at all others. */
  ghost predicate LooksLikeUuid(key: string) {
    && |key| == 36
    && forall i :: 0 <= i < 36 ==>
         if i == 8 || i == 13 || i == 18 || i == 23 then key[i] == '-'
         else '0' <= key[i] <= '9' || 'a' <= key[i] <= 'f' || 'A' <= key[i] <= 'F'
  }

  lemma UuidLength(key: string, lengths: seq<nat>)
    requires lengths == [8, 4, 4, 4, 12]
    ensures Grouped(key, lengths) ==> |key| == 36
  {
    var four, three := lengths[1..], lengths[2..];
    assert four[1..] == three && three[1..] == [4, 12] && [4, 12][1..] == [12] && [12][1..] == [];
    assert Span([12]) == 13 && Span([4, 12]) == 18 && Span(three) == 23 && Span(four) == 28;
    if Grouped(key, lengths) {
      GroupedLength(key, lengths);
    }
  }

  lemma GroupedIff(key: string)
    ensures Grouped(key, [8, 4, 4, 4, 12]) <==> LooksLikeUuid(key)
  {
    UuidLength(key, [8, 4, 4, 4, 12]);
    if |key| == 36 {
      assert key[0..] == key;
      GroupedFrom(key, 0, [8, 4, 4, 4, 12]);
      GroupedFrom(key, 9, [4, 4, 4, 12]);
      GroupedFrom(key, 14, [4, 4, 12]);
      GroupedFrom(key, 19, [4, 12]);
      GroupedFrom(key, 24, [12]);
    }
  }

  /** Splitting at hyphens and checking the pieces accepts exactly the texts that look like a UUID. */
  lemma ValidKeyIff(key: string)
    ensures ValidKey(key) <==> LooksLikeUuid(key)
  {
    if ValidKey(key) { FitsGrouped(key, UUID); }
    if Grouped(key, UUID) { GroupedFits(key, UUID); }
    GroupedIff(key);
  }

  function Span(lengths: seq<nat>): nat {
    if lengths == [] then 0 else lengths[0] + 1 + Span(lengths[1..])
  }

  lemma {:induction false} GroupedLength(text: string, lengths: seq<nat>)
    requires lengths != [] && Grouped(text, lengths)
    ensures |text| + 1 == Span(lengths)
    decreases |lengths|
  {
    if |lengths| > 1 {
      GroupedLength(text[lengths[0] + 1..], lengths[1..]);
    }
  }

  lemma ValidKeyLength(key: string)
    requires ValidKey(key)
    ensures |key| + 1 == Span(UUID)
  {
    FitsGrouped(key, UUID);
    GroupedLength(key, UUID);
  }

  /** Zeros in groups of the given lengths. */
  function Zeros(lengths: seq<nat>): string
    requires lengths != []
  {
    var group := seq(lengths[0], _ => '0');
    if |lengths| == 1 then group else group + "-" + Zeros(lengths[1..])
  }

  lemma {:induction false} ZerosGrouped(lengths: seq<nat>)
    requires lengths != []
    ensures Grouped(Zeros(lengths), lengths)
    decreases |lengths|
  {
    var n, group := lengths[0], seq(lengths[0], _ => '0');
    if |lengths| > 1 {
      ZerosGrouped(lengths[1..]);
      assert Zeros(lengths)[..n] == group && Zeros(lengths)[n + 1..] == Zeros(lengths[1..]);
    }
  }

  lemma SomeValidKey() returns (key: string)
    ensures ValidKey(key)
  {
    key := Zeros(UUID);
    ZerosGrouped(UUID);
    GroupedFits(key, UUID);
  }

  // ----- Which methods confuse storage keys -----

  /**
   `n` is `m` followed by a colon, a path length and `tail`, and that length is one a path ending in `tail` can have.
   */
  ghost predicate Ambiguous(m: string, n: string, tail: string, j: nat) {
    && n == m + ":" + (ToDecimal(|tail| + 1 + |ToDecimal(j)| + j) + tail)
    && (tail == "" || tail[0] == ':')
  }

  ghost predicate Confusable(m: string, n: string) {
    exists tail: string, j: nat :: Ambiguous(m, n, tail, j)
  }

  /** What follows a shorter method in a shared endpoint text. */
  lemma RestMeets(p: string, x: string, q: string) returns (tail: string)
    requires ToDecimal(|p|) + ":" + p == x + ":" + (ToDecimal(|q|) + ":" + q)
    ensures x == ToDecimal(|p|) + tail && (tail == "" || tail[0] == ':')
    ensures |p| == |tail| + 1 + |ToDecimal(|q|)| + |q|
  {
    var d, rest := ToDecimal(|p|), ToDecimal(|q|) + ":" + q;
    if ':' in x {
      var cut := SplitOnce(x, ':').value;
      assert x + ":" + rest == cut.0 + ":" + (cut.1 + ":" + rest);
      CutAt(':', d, p, cut.0, cut.1 + ":" + rest);
      tail := ":" + cut.1;
    } else {
      CutAt(':', d, p, x, rest);
      tail := "";
    }
  }

  lemma EndpointsMeet(m: string, p: string, n: string, q: string)
    requires Endpoint(m, p) == Endpoint(n, q) && |m| < |n|
    ensures Confusable(m, n)
  {
    var e, x := Endpoint(m, p), n[|m| + 1..];
    assert n == e[..|n|] && m == e[..|m|] && e[|m|] == ':';
    assert n == m + ":" + x;
    CutAtLength(m + ":", ToDecimal(|p|) + ":" + p, m + ":", x + ":" + (ToDecimal(|q|) + ":" + q));
    var tail := RestMeets(p, x, q);
    assert Ambiguous(m, n, tail, |q|);
  }

  lemma Regroup(m: string, d: string, tail: string, rest: string)
    ensures m + ":" + (d + tail) + ":" + rest == m + ":" + (d + (tail + ":" + rest))
  {
  }

  /** A text that begins with a colon before the rest, with that colon taken off. */
  lemma Uncolon(tail: string, rest: string) returns (p: string)
    requires tail == "" || tail[0] == ':'
    ensures ":" + p == tail + ":" + rest
  {
    p := (tail + ":" + rest)[1..];
  }

  /** For an ambiguous pair of methods, two paths whose endpoints read the same. */
  lemma AmbiguousMeet(m: string, n: string, tail: string, j: nat) returns (p: string, q: string)
    requires Ambiguous(m, n, tail, j)
    ensures Endpoint(m, p) == Endpoint(n, q)
  {
    q := seq(j, _ => 'y');
    var rest := ToDecimal(j) + ":" + q;
    p := Uncolon(tail, rest);
    var d := ToDecimal(|p|);
    assert |":" + p| == |tail + ":" + rest|;
    Regroup(m, d, tail, rest);
    assert d + ":" + p == d + (":" + p);
  }

  lemma EndpointInjective(m: string, p: string, q: string)
    requires Endpoint(m, p) == Endpoint(m, q)
    ensures p == q
  {
    CutAtLength(m + ":", ToDecimal(|p|) + ":" + p, m + ":", ToDecimal(|q|) + ":" + q);
    assert p + "" == p && q + "" == q;
    CutPrefixed(p, "", q, "");
  }

  /** Two requests that are not the same share a storage key. */
  ghost predicate Shared(s: Scope, key: string, t: Scope, other: string) {
    (s, key) != (t, other) && ValidKey(key) && ValidKey(other) && StorageKey(s, key) == StorageKey(t, other)
  }

  ghost predicate Collide(m: string, n: string) {
    exists s, key, t, other :: Shared(s, key, t, other) && s.method_ == m && t.method_ == n
  }

  lemma SharedIsConfusable(s: Scope, key: string, t: Scope, other: string)
    requires Shared(s, key, t, other)
    ensures Confusable(s.method_, t.method_) || Confusable(t.method_, s.method_)
  {
    var m, n := s.method_, t.method_;
    StorageKeyCut(s, key, t, other);
    ValidKeyLength(key);
    ValidKeyLength(other);
    CutAtLength(Endpoint(m, s.path), ":" + key, Endpoint(n, t.path), ":" + other);
    CutAtLength(":", key, ":", other);
    if |m| < |n| {
      EndpointsMeet(m, s.path, n, t.path);
    } else if |n| < |m| {
      EndpointsMeet(n, t.path, m, s.path);
    } else {
      assert m == Endpoint(m, s.path)[..|m|] && n == Endpoint(n, t.path)[..|n|];
      EndpointInjective(m, s.path, t.path);
    }
  }

  /** A confusable pair of methods has colliding requests, for every user and valid key. */
  lemma ConfusableShare(m: string, n: string, user: string, key: string) returns (s: Scope, t: Scope)
    requires Confusable(m, n) && ValidKey(key)
    ensures Shared(s, key, t, key) && s.method_ == m && t.method_ == n && s.user == t.user == user
  {
    var tail, j :| Ambiguous(m, n, tail, j);
    var p, q := AmbiguousMeet(m, n, tail, j);
    s, t := Scope(user, m, p), Scope(user, n, q);
    assert |n| > |m|;
  }

  /**
   Requests with methods `m` and `n` can share a storage key if and only if one of the methods is the other
   followed by a colon, a number and possibly a colon and more, where the number is the length of a path
   that holds the rest.
   */
  lemma StorageKeysCollideIff(m: string, n: string)
    ensures Collide(m, n) <==> Confusable(m, n) || Confusable(n, m)
  {
    if Collide(m, n) {
      var s, key, t, other :| Shared(s, key, t, other) && s.method_ == m && t.method_ == n;
      SharedIsConfusable(s, key, t, other);
    }
    var key := SomeValidKey();
    if Confusable(m, n) {
      var s, t := ConfusableShare(m, n, "", key);
    }
    if Confusable(n, m) {
      var t, s := ConfusableShare(n, m, "", key);
      assert Shared(s, key, t, key);
    }
  }

  lemma ConfusableShape(m: string, n: string)
    requires Confusable(m, n)
    ensures |n| > |m| + 1 && n[..|m|] == m && n[|m|] == ':' && IsDigit(n[|m| + 1])
  {
    var tail, j :| Ambiguous(m, n, tail, j);
    var digits := ToDecimal(|tail| + 1 + |ToDecimal(j)| + j);
    assert n[|m| + 1] == digits[0] && digits[0] in digits;
  }

  lemma ColonFreeNotConfusable(m: string, n: string)
    requires ':' !in n
    ensures !Confusable(m, n)
  {
    if Confusable(m, n) {
      ConfusableShape(m, n);
    }
  }

  /** A colon alone is harmless; followed by a fitting number it is not. */
  lemma ColonNeedsNumber()
    ensures Collide("A", "A:5:X") && !Collide("A", "A:B")
  {
    assert ToDecimal(5) == "5" && ToDecimal(1) == "1";
    assert Ambiguous("A", "A:5:X", ":X", 1);
    StorageKeysCollideIff("A", "A:5:X");
    StorageKeysCollideIff("A", "A:B");
    if Confusable("A", "A:B") {
      ConfusableShape("A", "A:B");
    }
    if Confusable("A:B", "A") {
      ConfusableShape("A:B", "A");
    }
  }
}
