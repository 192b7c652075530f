/**
 The redundant-index pass: which indexes a report suggests dropping, and why dropping all of them together is safe.
 */
module IndexAudit {
  import opened Base

  /** An index of the snapshot whose definition parsed. */
  datatype Index = Index(
    name: string, table: string, columns: seq<string>, where_: Option<string>,
    unique: bool, primary: bool, size: nat)

  datatype Redundant = Redundant(table: string, index: string, coveredBy: string, size: nat)

  /** Lexicographic order on text. */
  predicate Less(a: string, b: string) {
    if b == "" then false
    else if a == "" then true
    else a[0] < b[0] || (a[0] == b[0] && Less(a[1..], b[1..]))
  }

  lemma {:induction false} LessIsTransitive(a: string, b: string, c: string)
    requires Less(a, b) && Less(b, c)
    ensures Less(a, c)
  {
    if a != "" && a[0] == b[0] == c[0] {
      LessIsTransitive(a[1..], b[1..], c[1..]);
    }
  }

  lemma {:induction false} LessIsIrreflexive(a: string)
    ensures !Less(a, a)
  {
    if a != "" {
      LessIsIrreflexive(a[1..]);
    }
  }

  lemma {:induction false} LessIsTotal(a: string, b: string)
    ensures a == b || Less(a, b) || Less(b, a)
  {
    if a != "" && b != "" && a[0] == b[0] {
      LessIsTotal(a[1..], b[1..]);
      assert a == [a[0]] + a[1..] && b == [b[0]] + b[1..];
    }
  }

  /** `a` sorts before `b`: they agree up to some place where `a` ends first or has the smaller character. */
  ghost predicate SortsAt(a: string, b: string, k: nat) {
    && k <= |a| && k < |b| && a[..k] == b[..k]
    && (k == |a| || a[k] < b[k])
  }

  lemma {:induction false} LessIff(a: string, b: string)
    ensures Less(a, b) <==> exists k: nat :: SortsAt(a, b, k)
  {
    if a == "" && b != "" {
      assert SortsAt(a, b, 0);
    } else if a != "" && b != "" {
      LessIff(a[1..], b[1..]);
      if a[0] < b[0] {
        assert SortsAt(a, b, 0);
      }
      forall k: nat | k > 0
        ensures SortsAt(a, b, k) <==> a[0] == b[0] && SortsAt(a[1..], b[1..], k - 1)
      {
        SortsAtCons(a, b, k);
      }
      if Less(a, b) && a[0] == b[0] {
        var k: nat :| SortsAt(a[1..], b[1..], k);
        assert SortsAt(a, b, k + 1);
      }
    }
  }

  lemma SortsAtCons(a: string, b: string, k: nat)
    requires a != "" && b != "" && k > 0
    ensures SortsAt(a, b, k) <==> a[0] == b[0] && SortsAt(a[1..], b[1..], k - 1)
  {
    if k <= |a| && k < |b| {
      assert a[..k] == [a[0]] + a[1..][..k - 1] && b[..k] == [b[0]] + b[1..][..k - 1];
      assert a[..k] == b[..k] ==> a[..k][0] == b[..k][0] && a[..k][1..] == b[..k][1..];
    }
  }

  /** `other` serves every query `index` does: same table and predicate, and columns that extend it. */
  predicate Extends(other: Index, index: Index) {
    other.table == index.table && other.where_ == index.where_ && index.columns <= other.columns
  }

  /** `other` extends `index` strictly, or duplicates it under a name that sorts first. */
  predicate Above(other: Index, index: Index) {
    Extends(other, index) && (|other.columns| > |index.columns| || Less(other.name, index.name))
  }

  predicate Covers(other: Index, index: Index) {
    && other.name != index.name
    && other.table == index.table
    && other.where_ == index.where_
    && |other.columns| >= |index.columns|
    && other.columns[..|index.columns|] == index.columns
    && (|other.columns| > |index.columns| || Less(other.name, index.name))
  }

  lemma CoversIsAbove(other: Index, index: Index)
    ensures Covers(other, index) <==> Above(other, index) && other.name != index.name
  {
  }

  lemma AboveIsTransitive(a: Index, b: Index, c: Index)
    requires Above(a, b) && Above(b, c)
    ensures Above(a, c)
  {
    if |a.columns| == |c.columns| {
      LessIsTransitive(a.name, b.name, c.name);
    }
  }

  predicate Constraint(index: Index) {
    index.primary || index.unique
  }

  /** The first index of the list that covers `index`. */
  function FirstCover(indexes: seq<Index>, index: Index): (cover: Option<Index>)
    ensures cover.Some? ==> cover.value in indexes && Covers(cover.value, index)
    ensures cover.Some? ==> exists i: nat :: CoversFirst(indexes, i, index) && cover.value == indexes[i]
    ensures cover.None? ==> forall other :: other in indexes ==> !Covers(other, index)
  {
    if indexes == [] then None
    else
      var earlier := FirstCover(Init(indexes), index);
      assert indexes == Init(indexes) + [Last(indexes)];
      if earlier.Some? then
        assert forall i: nat :: CoversFirst(Init(indexes), i, index) ==>
            CoversFirst(indexes, i, index) && indexes[i] == Init(indexes)[i];
        earlier
      else if Covers(Last(indexes), index) then
        assert CoversFirst(indexes, |indexes| - 1, index);
        Some(Last(indexes))
      else None
  }

  /** The `i`-th index of the list covers `index` and none before it does. */
  ghost predicate CoversFirst(indexes: seq<Index>, i: nat, index: Index) {
    && i < |indexes| && Covers(indexes[i], index)
    && forall j :: 0 <= j < i ==> !Covers(indexes[j], index)
  }

  /** `index` is suggested for dropping. */
  predicate Dropped(indexes: seq<Index>, index: Index) {
    !Constraint(index) && FirstCover(indexes, index).Some?
  }

  function Entry(index: Index, cover: Index): Redundant {
    Redundant(index.table, index.name, cover.name, index.size)
  }

  function Entries(indexes: seq<Index>, upTo: seq<Index>): seq<Redundant> {
    if upTo == [] then []
    else
      var index := Last(upTo);
      var entry := if Dropped(indexes, index) then [Entry(index, FirstCover(indexes, index).value)] else [];
      Entries(indexes, Init(upTo)) + entry
  }

  method FindCover(indexes: seq<Index>, index: Index) returns (cover: Option<Index>)
    ensures cover == FirstCover(indexes, index)
  {
    var i := 0;
    while i < |indexes|
      invariant 0 <= i <= |indexes| && FirstCover(indexes[..i], index) == None
    {
      assert Init(indexes[..i + 1]) == indexes[..i];
      if Covers(indexes[i], index) {
        FirstCoverStays(indexes, index, i + 1);
        return Some(indexes[i]);
      }
      i := i + 1;
    }
    assert indexes[..i] == indexes;
    cover := None;
  }

  lemma {:induction false} FirstCoverStays(indexes: seq<Index>, index: Index, k: nat)
    requires k <= |indexes| && FirstCover(indexes[..k], index).Some?
    ensures FirstCover(indexes, index) == FirstCover(indexes[..k], index)
    decreases |indexes|
  {
    if k == |indexes| {
      assert indexes[..k] == indexes;
    } else {
      assert Init(indexes)[..k] == indexes[..k];
      FirstCoverStays(Init(indexes), index, k);
    }
  }

  method FindRedundant(indexes: seq<Index>) returns (redundant: seq<Redundant>)
    ensures redundant == Entries(indexes, indexes)
  {
    redundant := [];
    var i := 0;
    while i < |indexes|
      invariant 0 <= i <= |indexes| && redundant == Entries(indexes, indexes[..i])
    {
      var index := indexes[i];
      assert Init(indexes[..i + 1]) == indexes[..i];
      if !Constraint(index) {
        var cover := FindCover(indexes, index);
        if cover.Some? {
          redundant := redundant + [Entry(index, cover.value)];
        }
      }
      i := i + 1;
    }
    assert indexes[..i] == indexes;
  }

  /** An entry is made exactly for each index that is dropped, naming its first cover. */
  lemma {:induction false} EntryIff(indexes: seq<Index>, upTo: seq<Index>, entry: Redundant)
    ensures entry in Entries(indexes, upTo) <==>
              exists index :: index in upTo && Dropped(indexes, index) &&
                  entry == Entry(index, FirstCover(indexes, index).value)
    decreases upTo
  {
    if upTo != [] {
      EntryIff(indexes, Init(upTo), entry);
      assert upTo == Init(upTo) + [Last(upTo)];
    }
  }

  /** `other` makes `index` superfluous: it extends it under another name, and is longer or sorts first. */
  ghost predicate Supersedes(other: Index, index: Index) {
    && other.name != index.name && Extends(other, index)
    && (|other.columns| > |index.columns| || Less(other.name, index.name))
  }

  /** The `c`-th index is the first that supersedes the `k`-th, which is neither unique nor a primary key. */
  ghost predicate Superfluous(indexes: seq<Index>, k: nat, c: nat) {
    && k < |indexes| && !indexes[k].primary && !indexes[k].unique
    && c < |indexes| && Supersedes(indexes[c], indexes[k])
    && forall j :: 0 <= j < c ==> !Supersedes(indexes[j], indexes[k])
  }

  ghost predicate Names(entry: Redundant, index: Index, cover: Index) {
    && entry.table == index.table && entry.index == index.name
    && entry.coveredBy == cover.name && entry.size == index.size
  }

  lemma DroppedIff(indexes: seq<Index>, k: nat) returns (c: nat)
    requires k < |indexes|
    ensures Dropped(indexes, indexes[k]) <==> Superfluous(indexes, k, c)
    ensures Dropped(indexes, indexes[k]) <==> exists d: nat :: Superfluous(indexes, k, d)
    ensures Dropped(indexes, indexes[k]) ==> FirstCover(indexes, indexes[k]) == Some(indexes[c])
  {
    c := 0;
    forall other
      ensures Covers(other, indexes[k]) <==> Supersedes(other, indexes[k])
    {
      CoversIsAbove(other, indexes[k]);
    }
    if Dropped(indexes, indexes[k]) {
      var i: nat :| CoversFirst(indexes, i, indexes[k]) && FirstCover(indexes, indexes[k]).value == indexes[i];
      c := i;
    }
  }

  /** The entry names a superfluous index among the first `n`, and its first cover. */
  ghost predicate Reports(indexes: seq<Index>, n: nat, entry: Redundant, k: nat, c: nat) {
    k < n && Superfluous(indexes, k, c) && Names(entry, indexes[k], indexes[c])
  }

  /** `positions` are those of the superfluous indexes among the first `n`, in order, with one entry for each. */
  ghost predicate Lists(indexes: seq<Index>, n: nat, report: seq<Redundant>, positions: seq<nat>, covers: seq<nat>) {
    && |positions| == |covers| == |report|
    && (forall i, j :: 0 <= i < j < |positions| ==> positions[i] < positions[j])
    && (forall i :: 0 <= i < |positions| ==> Reports(indexes, n, report[i], positions[i], covers[i]))
    && (forall k: nat, c: nat :: k < n && Superfluous(indexes, k, c) ==> k in positions)
  }

  lemma ListsOneMore(indexes: seq<Index>, n: nat, report: seq<Redundant>, positions: seq<nat>, covers: seq<nat>,
      entry: Redundant, c: nat)
    requires Lists(indexes, n, report, positions, covers) && Reports(indexes, n + 1, entry, n, c)
    ensures Lists(indexes, n + 1, report + [entry], positions + [n], covers + [c])
  {
    var more := positions + [n];
    forall k: nat, d: nat | k < n + 1 && Superfluous(indexes, k, d)
      ensures k in more
    {
      assert k < n ==> k in positions;
      assert more[|positions|] == n;
    }
    forall i | 0 <= i < |more|
      ensures Reports(indexes, n + 1, (report + [entry])[i], more[i], (covers + [c])[i])
    {
      assert i < |positions| ==> Reports(indexes, n, report[i], positions[i], covers[i]);
    }
  }

  lemma ListsNoMore(indexes: seq<Index>, n: nat, report: seq<Redundant>, positions: seq<nat>, covers: seq<nat>)
    requires Lists(indexes, n, report, positions, covers) && forall c: nat :: !Superfluous(indexes, n, c)
    ensures Lists(indexes, n + 1, report, positions, covers)
  {
    forall i | 0 <= i < |positions|
      ensures Reports(indexes, n + 1, report[i], positions[i], covers[i])
    {
      assert Reports(indexes, n, report[i], positions[i], covers[i]);
    }
  }

  /**
   The report has one entry for each superfluous index, in the order of the indexes, and no other: an index
   that is neither unique nor a primary key and that another one supersedes, the first such one being named.
   */
  lemma {:induction false} ReportedIff(indexes: seq<Index>, n: nat) returns (positions: seq<nat>, covers: seq<nat>)
    requires n <= |indexes|
    ensures Lists(indexes, n, Entries(indexes, indexes[..n]), positions, covers)
  {
    positions, covers := [], [];
    if n > 0 {
      positions, covers := ReportedIff(indexes, n - 1);
      assert Init(indexes[..n]) == indexes[..n - 1] && Last(indexes[..n]) == indexes[n - 1];
      var report, index := Entries(indexes, indexes[..n - 1]), indexes[n - 1];
      var c := DroppedIff(indexes, n - 1);
      if Dropped(indexes, index) {
        ListsOneMore(indexes, n - 1, report, positions, covers, Entry(index, indexes[c]), c);
        positions, covers := positions + [n - 1], covers + [c];
      } else {
        assert report + [] == report;
        ListsNoMore(indexes, n - 1, report, positions, covers);
      }
    }
  }

  // ----- Dropping everything at once -----

  /** The indexes of the list above a given one. */
  ghost function Uppers(indexes: seq<Index>, index: Index): set<Index> {
    set other | other in indexes && Above(other, index)
  }

  lemma UppersShrink(indexes: seq<Index>, index: Index, cover: Index)
    requires cover in indexes && Above(cover, index)
    ensures Uppers(indexes, cover) < Uppers(indexes, index)
    ensures |Uppers(indexes, cover)| < |Uppers(indexes, index)|
  {
    forall other | other in Uppers(indexes, cover)
      ensures other in Uppers(indexes, index)
    {
      AboveIsTransitive(other, cover, index);
    }
    LessIsIrreflexive(cover.name);
    assert cover in Uppers(indexes, index) && cover !in Uppers(indexes, cover);
    ProperSubsetIsSmaller(Uppers(indexes, cover), Uppers(indexes, index));
  }

  lemma ProperSubsetIsSmaller<A>(small: set<A>, big: set<A>)
    requires small < big
    ensures |small| < |big|
  {
    assert big == small + (big - small);
  }

  /** Each index is followed by the cover the report names for it, until one is not dropped. */
  predicate CoverChain(indexes: seq<Index>, chain: seq<Index>) {
    && chain != []
    && chain[0] in indexes
    && if |chain| == 1 then !Dropped(indexes, chain[0])
       else
         && Dropped(indexes, chain[0])
         && FirstCover(indexes, chain[0]) == Some(chain[1])
         && CoverChain(indexes, chain[1..])
  }

  /**
   Following the reported covers from any index of the list ends at one that is not dropped, on the same
   table with the same predicate and with columns that extend the first one's. No assumption on names.
   */
  lemma {:induction false} ChainEndsAtSurvivor(indexes: seq<Index>, index: Index) returns (chain: seq<Index>)
    requires index in indexes
    ensures CoverChain(indexes, chain) && chain[0] == index
    ensures Last(chain) in indexes && !Dropped(indexes, Last(chain)) && Extends(Last(chain), index)
    decreases |Uppers(indexes, index)|
  {
    if Dropped(indexes, index) {
      var cover := FirstCover(indexes, index).value;
      CoversIsAbove(cover, index);
      UppersShrink(indexes, index, cover);
      var rest := ChainEndsAtSurvivor(indexes, cover);
      chain := [index] + rest;
      assert chain[1..] == rest;
    } else {
      chain := [index];
    }
  }

  /** The names a report's statements drop. */
  ghost predicate NameDropped(indexes: seq<Index>, name: string) {
    exists entry :: entry in Entries(indexes, indexes) && entry.index == name
  }

  /** A name is dropped when some index of that name is. */
  lemma NameDroppedIff(indexes: seq<Index>, name: string)
    ensures NameDropped(indexes, name) <==>
              exists index :: index in indexes && index.name == name && Dropped(indexes, index)
  {
    if NameDropped(indexes, name) {
      var entry :| entry in Entries(indexes, indexes) && entry.index == name;
      EntryIff(indexes, indexes, entry);
    }
    forall index | index in indexes && index.name == name && Dropped(indexes, index)
      ensures NameDropped(indexes, name)
    {
      EntryIff(indexes, indexes, Entry(index, FirstCover(indexes, index).value));
    }
  }

  /** A name is dropped if and only if an index of that name is superfluous. */
  lemma DropsByNameIff(indexes: seq<Index>, name: string)
    ensures NameDropped(indexes, name) <==>
              exists k: nat, c: nat :: Superfluous(indexes, k, c) && indexes[k].name == name
  {
    NameDroppedIff(indexes, name);
    if index :| index in indexes && index.name == name && Dropped(indexes, index) {
      var k: nat :| k < |indexes| && indexes[k] == index;
      var c := DroppedIff(indexes, k);
    }
    if k: nat, c: nat :| Superfluous(indexes, k, c) && indexes[k].name == name {
      var d := DroppedIff(indexes, k);
    }
  }

  /** An index that is still there once the statements ran, and extends the given one. */
  ghost predicate Serves(indexes: seq<Index>, survivor: Index, index: Index) {
    survivor in indexes && !NameDropped(indexes, survivor.name) && Extends(survivor, index)
  }

  ghost predicate Served(indexes: seq<Index>, index: Index) {
    exists survivor :: Serves(indexes, survivor, index)
  }

  /** The index is not redundant itself, but one of the same name is. */
  ghost predicate Bystander(indexes: seq<Index>, index: Index) {
    index in indexes && !Dropped(indexes, index) && NameDropped(indexes, index.name)
  }

  /**
   Running every suggested drop leaves every index of the list one that is still there and extends it, if and
   only if that is so for those that are dropped only because they share a redundant index's name.
   */
  lemma DropsAreSafeIff(indexes: seq<Index>)
    ensures (forall index :: index in indexes ==> Served(indexes, index)) <==>
            (forall index :: Bystander(indexes, index) ==> Served(indexes, index))
  {
    if forall index :: Bystander(indexes, index) ==> Served(indexes, index) {
      forall index | index in indexes
        ensures Served(indexes, index)
      {
        var chain := ChainEndsAtSurvivor(indexes, index);
        var last := Last(chain);
        if NameDropped(indexes, last.name) {
          assert Bystander(indexes, last);
          var survivor :| Serves(indexes, survivor, last);
          assert Serves(indexes, survivor, index);
        } else {
          assert Serves(indexes, last, index);
        }
      }
    }
  }

  /** A unique index or primary key that is still there, with the table, predicate and columns of the given one. */
  ghost predicate Twin(indexes: seq<Index>, twin: Index, index: Index) {
    && twin in indexes && (twin.primary || twin.unique) && !NameDropped(indexes, twin.name)
    && twin.table == index.table && twin.where_ == index.where_ && twin.columns == index.columns
  }

  lemma ServerIsTwin(indexes: seq<Index>, survivor: Index, index: Index)
    requires Bystander(indexes, index) && !Constraint(index) && Serves(indexes, survivor, index)
    ensures Twin(indexes, survivor, index)
  {
    CoversIsAbove(survivor, index);
    CoversIsAbove(index, survivor);
    LessIsTotal(survivor.name, index.name);
    assert !Covers(survivor, index);
    if !Constraint(survivor) {
      CoveredIsDropped(indexes, survivor, index);
    }
  }

  /** A bystander that guards no constraint is still served if and only if a constraint index duplicates it. */
  lemma BystanderServedIff(indexes: seq<Index>, index: Index)
    requires Bystander(indexes, index) && !index.primary && !index.unique
    ensures Served(indexes, index) <==> exists twin :: Twin(indexes, twin, index)
  {
    if Served(indexes, index) {
      var survivor :| Serves(indexes, survivor, index);
      ServerIsTwin(indexes, survivor, index);
    }
    if twin :| Twin(indexes, twin, index) {
      assert Serves(indexes, twin, index);
    }
  }

  ghost predicate DistinctNames(indexes: seq<Index>) {
    forall a, b :: a in indexes && b in indexes && a.name == b.name ==> a == b
  }

  /**
   With distinct names, running every suggested drop leaves each index of the list an index that is still
   there and extends it; and unique indexes and primary keys are all still there.
   */
  lemma DropsAreSafe(indexes: seq<Index>, index: Index)
    requires DistinctNames(indexes) && index in indexes
    ensures Served(indexes, index)
    ensures index.primary || index.unique ==> !NameDropped(indexes, index.name)
  {
    forall other
      ensures !Bystander(indexes, other)
    {
      NameDroppedIff(indexes, other.name);
    }
    DropsAreSafeIff(indexes);
    NameDroppedIff(indexes, index.name);
  }

  lemma CoveredIsDropped(indexes: seq<Index>, index: Index, cover: Index)
    requires index in indexes && cover in indexes && Covers(cover, index) && !Constraint(index)
    ensures NameDropped(indexes, index.name)
  {
    EntryIff(indexes, indexes, Entry(index, FirstCover(indexes, index).value));
  }

  /** Drops go by name, so with a shared name an index may lose its cover to another table's index. */
  lemma SharedNameBreaksSafety() returns (indexes: seq<Index>, index: Index)
    ensures index in indexes && !Served(indexes, index)
  {
    var a := Index("a", "t", ["x"], None, false, false, 0);
    var b := Index("b", "t", ["x", "y"], None, false, false, 0);
    var c := Index("b", "u", ["x"], None, false, false, 0);
    var d := Index("d", "u", ["x", "y"], None, false, false, 0);
    indexes, index := [a, b, c, d], a;
    assert ["x", "y"][..1] == ["x"];
    CoveredIsDropped(indexes, a, b);
    CoveredIsDropped(indexes, c, d);
    assert c.table != a.table;
  }
}
