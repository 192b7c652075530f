/** The fee predictor's integer arithmetic: square root, interpolated percentiles, bids and the moving average. */
module FeeAnalytics {
  import opened Base

  const I64_MAX: int := 0x7FFF_FFFF_FFFF_FFFF
  const I64_MIN: int := -0x8000_0000_0000_0000

  type I64 = n: int | I64_MIN <= n <= I64_MAX witness 0

  // ----- Square root -----

  lemma Euclid(n: nat, x: nat)
    requires x > 0
    ensures 0 <= n / x && x * (n / x) <= n < x * (n / x + 1)
  {
  }

  lemma MeanInequality(a: int, b: int, c: int)
    requires 0 <= a && a + b <= 2 * c
    ensures a * b <= c * c
  {
    assert a * b <= a * (2 * c - a);
    assert a * (2 * c - a) == c * c - (c - a) * (c - a);
    assert (c - a) * (c - a) >= 0;
  }

  /** Newton's step never goes below the floored root. */
  lemma NewtonStaysAbove(n: nat, x: nat, y: nat)
    requires x > 0 && y == (x + n / x) / 2
    ensures n < (y + 1) * (y + 1)
  {
    Euclid(n, x);
    MeanInequality(x, n / x + 1, y + 1);
  }

  lemma Doubled(x: nat, q: nat)
    requires x >= 2
    ensures 2 * q <= x * q
  {
  }

  lemma NoOverflow(n: U64, x: nat)
    requires 1 <= x <= n / 2 + n % 2 && n < (x + 1) * (x + 1)
    ensures x + n / x <= U64_MAX
  {
    if x > 1 {
      Euclid(n, x);
      Doubled(x, n / x);
    }
  }

  lemma StopsBelow(n: nat, x: nat)
    requires 1 <= x <= (x + n / x) / 2
    ensures x * x <= n
  {
    assert x <= n / x;
    assert x * x <= x * (n / x) <= n by { Euclid(n, x); }
  }

  /** `r` is at least the floored square root of `n`. */
  predicate AtLeastRoot(n: nat, r: nat) {
    n < (r + 1) * (r + 1)
  }

  lemma StartsAbove(n: nat, y: nat)
    requires n <= 2 * y
    ensures AtLeastRoot(n, y)
  {
    assert (y + 1) * (y + 1) == y * y + 2 * y + 1;
  }

  lemma NewtonStep(n: U64, x: nat)
    requires 1 <= x <= n / 2 + n % 2 && AtLeastRoot(n, x)
    ensures x + n / x <= U64_MAX
    ensures AtLeastRoot(n, (x + n / x) / 2)
    ensures (x + n / x) / 2 >= x ==> x * x <= n
    ensures (x + n / x) / 2 >= 1
  {
    NoOverflow(n, x);
    NewtonStaysAbove(n, x, (x + n / x) / 2);
    if (x + n / x) / 2 >= x {
      StopsBelow(n, x);
    } else {
      assert x >= 2;
    }
  }

  /** The floored square root, by Newton's method in 64-bit arithmetic. */
  method IntegerSqrt(n: U64) returns (r: U64)
    ensures r * r <= n < (r + 1) * (r + 1)
  {
    if n == 0 {
      return 0;
    }
    var x: U64 := n;
    var y: U64 := x / 2 + x % 2;
    StartsAbove(n, x);
    StartsAbove(n, y);
    while y < x
      invariant y >= 1 && (y < x ==> y <= n / 2 + n % 2)
      invariant AtLeastRoot(n, x) && AtLeastRoot(n, y)
      invariant y >= x ==> x * x <= n
      decreases x
    {
      x := y;
      NewtonStep(n, x);
      y := (x + n / x) / 2;
    }
    r := x;
  }

  // ----- Percentiles -----

  predicate Ascending(s: seq<I64>) {
    forall i, j :: 0 <= i < j < |s| ==> s[i] <= s[j]
  }

  function Insert(s: seq<I64>, x: I64): (r: seq<I64>)
    requires Ascending(s)
    ensures Ascending(r) && multiset(r) == multiset(s) + multiset{x}
    ensures r != [] && Last(r) == if s == [] || Last(s) <= x then x else Last(s)
  {
    if s == [] || Last(s) <= x then
      AscendingSnoc(s, x);
      s + [x]
    else
      assert s == Init(s) + [Last(s)];
      var r := Insert(Init(s), x);
      AscendingSnoc(r, Last(s));
      r + [Last(s)]
  }

  lemma AscendingSnoc(s: seq<I64>, x: I64)
    requires Ascending(s) && (s == [] || Last(s) <= x)
    ensures Ascending(s + [x])
  {
  }

  function Sorted(s: seq<I64>): (r: seq<I64>)
    ensures Ascending(r) && multiset(r) == multiset(s) && |r| == |s|
  {
    if s == [] then [] else
      assert s == Init(s) + [Last(s)];
      var r := Insert(Sorted(Init(s)), Last(s));
      assert |r| == |multiset(r)| && |s| == |multiset(s)|;
      r
  }

  lemma SameMembers(s: seq<I64>, t: seq<I64>, x: I64)
    requires multiset(s) == multiset(t) && x in s
    ensures x in t
  {
    assert x in multiset(s);
    assert x in multiset(t);
  }

  lemma SameLength(s: seq<I64>, t: seq<I64>)
    requires multiset(s) == multiset(t)
    ensures |s| == |t|
  {
    assert |s| == |multiset(s)| == |multiset(t)| == |t|;
  }

  lemma Snoc(s: seq<I64>, t: seq<I64>)
    requires |s| == |t| > 0 && Init(s) == Init(t) && Last(s) == Last(t)
    ensures s == t
  {
    assert s == Init(s) + [Last(s)] && t == Init(t) + [Last(t)];
  }

  lemma WithoutLast(s: seq<I64>)
    requires s != []
    ensures multiset(Init(s)) == multiset(s) - multiset{Last(s)}
  {
    assert s == Init(s) + [Last(s)];
  }

  lemma SameLast(s: seq<I64>, t: seq<I64>)
    requires Ascending(s) && Ascending(t) && multiset(s) == multiset(t) && s != [] && t != []
    ensures Last(s) == Last(t)
  {
    SameMembers(s, t, Last(s));
    SameMembers(t, s, Last(t));
  }

  /** Sorted lists with the same contents are equal. */
  lemma {:induction false} SortedIsUnique(s: seq<I64>, t: seq<I64>)
    requires Ascending(s) && Ascending(t) && multiset(s) == multiset(t)
    ensures s == t
    decreases |s|
  {
    SameLength(s, t);
    if s != [] {
      SameLast(s, t);
      WithoutLast(s);
      WithoutLast(t);
      SortedIsUnique(s[..|s| - 1], t[..|s| - 1]);
      Snoc(s, t);
    }
  }

  lemma ProductMonotone(a: nat, b: nat, c: nat)
    requires b <= c
    ensures a * b <= a * c
  {
  }

  /** Negative fees count as zero. */
  function Fee(x: I64): U64 {
    if x < 0 then 0 else x
  }

  function Weighted(gap: U64, weight: nat): (r: U64)
    requires weight < 100_000
    ensures r <= gap
  {
    ProductMonotone(gap, weight, 100_000);
    Clip(gap * weight) / 100_000
  }

  function Lower(n: nat, position: nat): nat
    requires n > 0
  {
    if position / 100_000 < n - 1 then position / 100_000 else n - 1
  }

  /** The value at a position between ranks; a whole rank is 100 000 apart from the next. */
  function Interpolate(s: seq<I64>, position: nat): (r: U64)
    requires Ascending(s) && s != []
    ensures Fee(s[Lower(|s|, position)]) <= r <= Fee(Last(s))
    ensures Lower(|s|, position) + 1 < |s| ==> r <= Fee(s[Lower(|s|, position) + 1])
  {
    var lower := Lower(|s|, position);
    var upper := if lower + 1 < |s| then lower + 1 else |s| - 1;
    var remainder := position % 100_000;
    var lo := Fee(s[lower]);
    if upper == lower || remainder == 0 then lo
    else lo + Weighted(Fee(s[upper]) - lo, remainder)
  }

  function Percentile(data: seq<I64>, rank: U64): U64 {
    if data == [] then 0
    else if |data| == 1 then Fee(Sorted(data)[0])
    else Interpolate(Sorted(data), Clip((|data| - 1) * rank))
  }

  lemma WeightedMonotone(gap: U64, a: nat, b: nat)
    requires a <= b < 100_000
    ensures Weighted(gap, a) <= Weighted(gap, b)
  {
    ProductMonotone(gap, a, b);
  }

  lemma InterpolateMonotone(s: seq<I64>, a: nat, b: nat)
    requires Ascending(s) && s != [] && a <= b
    ensures Interpolate(s, a) <= Interpolate(s, b)
  {
    var i, j := Lower(|s|, a), Lower(|s|, b);
    if i < j {
      assert Fee(s[i + 1]) <= Fee(s[j]);
    } else if i + 1 < |s| {
      WeightedMonotone(Fee(s[i + 1]) - Fee(s[i]), a % 100_000, b % 100_000);
    }
  }

  /** A higher rank never gives a smaller percentile, saturating products or not. */
  lemma PercentileMonotone(data: seq<I64>, p: U64, q: U64)
    requires p <= q
    ensures Percentile(data, p) <= Percentile(data, q)
  {
    if |data| > 1 {
      ProductMonotone(|data| - 1, p, q);
      InterpolateMonotone(Sorted(data), Clip((|data| - 1) * p), Clip((|data| - 1) * q));
    }
  }

  lemma InterpolateBounded(s: seq<I64>, position: nat, least: I64, greatest: I64)
    requires Ascending(s) && s != [] && least <= s[0] && Last(s) <= greatest
    ensures Fee(least) <= Interpolate(s, position) <= Fee(greatest)
  {
    var lower := Lower(|s|, position);
    assert s[0] <= s[lower];
  }

  /**
   A percentile lies between the least and the greatest sample, negative samples counting as zero; without
   samples it is zero.
   */
  lemma PercentileBounded(data: seq<I64>, rank: U64, least: I64, greatest: I64)
    requires forall x :: x in data ==> least <= x <= greatest
    ensures data != [] ==> Fee(least) <= Percentile(data, rank) <= Fee(greatest)
    ensures data == [] ==> Percentile(data, rank) == 0
  {
    if data != [] {
      var s := Sorted(data);
      SameMembers(s, data, s[0]);
      SameMembers(s, data, Last(s));
      if |data| > 1 {
        InterpolateBounded(s, Clip((|data| - 1) * rank), least, greatest);
      }
    }
  }

  /** Percentiles do not depend on the order of the samples. */
  lemma PercentileOrderFree(data: seq<I64>, other: seq<I64>, rank: U64)
    requires multiset(data) == multiset(other)
    ensures Percentile(data, rank) == Percentile(other, rank)
  {
    SameLength(data, other);
    SortedIsUnique(Sorted(data), Sorted(other));
  }

  /** Where a rank falls: a whole number of samples and a part of the way to the next, in 100 000ths. */
  function Position(s: seq<I64>, rank: U64): nat
    requires s != []
  {
    (|s| - 1) * rank
  }

  /** `s` is the sample in order. */
  ghost predicate Arranged(data: seq<I64>, s: seq<I64>) {
    data != [] && s != [] && Ascending(s) && multiset(s) == multiset(data)
  }

  lemma PercentileIs(data: seq<I64>, s: seq<I64>, rank: U64)
    requires Arranged(data, s) && Position(s, rank) <= U64_MAX
    ensures Percentile(data, rank) == Interpolate(s, Position(s, rank))
  {
    SortedIsUnique(Sorted(data), s);
    SameLength(data, s);
  }

  lemma InterpolateBetween(s: seq<I64>, position: nat, k: nat)
    requires Ascending(s) && k == position / 100_000 && k + 1 < |s|
    ensures Fee(s[k]) <= Fee(s[k + 1])
    ensures Interpolate(s, position) == Fee(s[k]) + Weighted(Fee(s[k + 1]) - Fee(s[k]), position % 100_000)
  {
  }

  /** A rank between two samples gives the lower one's fee and a weighted part of the gap to the upper one's. */
  lemma PercentileBetweenRanks(data: seq<I64>, s: seq<I64>, rank: U64, k: nat)
    requires Arranged(data, s) && Position(s, rank) <= U64_MAX && k == Position(s, rank) / 100_000 && k + 1 < |s|
    ensures Fee(s[k]) <= Fee(s[k + 1])
    ensures Percentile(data, rank) == Fee(s[k]) + Weighted(Fee(s[k + 1]) - Fee(s[k]), Position(s, rank) % 100_000)
  {
    PercentileIs(data, s, rank);
    InterpolateBetween(s, Position(s, rank), k);
  }

  /** A rank that falls on the last sample or beyond gives its fee. */
  lemma PercentileAtTop(data: seq<I64>, s: seq<I64>, rank: U64)
    requires Arranged(data, s) && Position(s, rank) <= U64_MAX && Position(s, rank) / 100_000 >= |s| - 1
    ensures Percentile(data, rank) == Fee(Last(s))
  {
    PercentileIs(data, s, rank);
  }

  /** The weighted part of a gap is the proportion rounded down, when the product fits; so nothing for weight zero. */
  lemma WeightedRoundsDown(gap: U64, weight: nat)
    requires weight < 100_000 && gap * weight <= U64_MAX
    ensures 100_000 * Weighted(gap, weight) <= gap * weight < 100_000 * (Weighted(gap, weight) + 1)
  {
  }

  // ----- Bids -----

  const U32_MAX: nat := 0xFFFF_FFFF

  /** `ceil(x * bps / 10 000)` in 128 bits, cut down to 64. */
  function CeilMulBps(x: U64, bps: U64): U64 {
    Wrap((x * bps + 9_999) / 10_000)
  }

  predicate Fits(x: U64, bps: U64) {
    x * bps <= U64_MAX * 10_000
  }

  /** The scaled value rounds up exactly when the product fits; otherwise it has wrapped. */
  lemma CeilMulBpsExactIff(x: U64, bps: U64)
    ensures Fits(x, bps) <==> 10_000 * (CeilMulBps(x, bps) as int - 1) < x * bps <= 10_000 * CeilMulBps(x, bps)
  {
    Rounding(x * bps);
  }

  lemma Rounding(product: nat)
    ensures product <= U64_MAX * 10_000 <==>
              var r := Wrap((product + 9_999) / 10_000); 10_000 * (r - 1) < product <= 10_000 * r
    ensures product <= U64_MAX * 10_000 ==> (product + 9_999) / 10_000 <= U64_MAX
  {
  }

  lemma CeilMulBpsMonotone(x: U64, y: U64, bps: U64)
    requires x <= y && Fits(y, bps)
    ensures Fits(x, bps) && CeilMulBps(x, bps) <= CeilMulBps(y, bps)
  {
    ProductMonotone(bps, x, y);
    assert x * bps == bps * x && y * bps == bps * y;
    RoundingMonotone(x * bps, y * bps);
  }

  lemma RoundingMonotone(a: nat, b: nat)
    requires a <= b <= U64_MAX * 10_000
    ensures Wrap((a + 9_999) / 10_000) <= Wrap((b + 9_999) / 10_000)
  {
    assert (a + 9_999) / 10_000 <= (b + 9_999) / 10_000 <= U64_MAX;
  }

  lemma WiderMarginBidsMore(x: U64, bps: U64, margin: U64)
    requires bps <= margin && Fits(x, margin)
    ensures CeilMulBps(x, bps) <= CeilMulBps(x, margin)
  {
    ProductMonotone(x, bps, margin);
    RoundingMonotone(x * bps, x * margin);
  }

  datatype Bids = Bids(economy: U64, standard: U64, priority: U64, urgent: U64)

  function Predict(data: seq<I64>, margin: U64): Bids {
    if data == [] then Bids(100, 100, 150, 200)
    else
      var p50, p75, p95 := Percentile(data, 50_000), Percentile(data, 75_000), Percentile(data, 95_000);
      Bids(CeilMulBps(p50, 9_000), CeilMulBps(p50, margin), CeilMulBps(p75, margin), CeilMulBps(p95, margin))
  }

  ghost predicate TiersOrdered(b: Bids) {
    b.standard <= b.priority <= b.urgent
  }

  /** The dearer tiers bid no less if the urgent bid's product fits; economy is cheapest for margins of at least 90%. */
  lemma BidsOrdered(data: seq<I64>, margin: U64)
    requires data != [] ==> Fits(Percentile(data, 95_000), margin)
    ensures TiersOrdered(Predict(data, margin))
    ensures margin >= 9_000 ==> Predict(data, margin).economy <= Predict(data, margin).standard
  {
    if data != [] {
      var p50, p75, p95 := Percentile(data, 50_000), Percentile(data, 75_000), Percentile(data, 95_000);
      PercentileMonotone(data, 50_000, 75_000);
      PercentileMonotone(data, 75_000, 95_000);
      CeilMulBpsMonotone(p75, p95, margin);
      CeilMulBpsMonotone(p50, p75, margin);
      if margin >= 9_000 {
        WiderMarginBidsMore(p50, 9_000, margin);
      }
    }
  }

  /** A rank that falls on a sample gives its fee. */
  lemma WholeRank(data: seq<I64>, s: seq<I64>, rank: U64, m: nat)
    requires Arranged(data, s) && Position(s, rank) == m * 100_000 <= U64_MAX && m < |s|
    ensures Percentile(data, rank) == Fee(s[m])
  {
    PercentileIs(data, s, rank);
    InterpolateAtSample(s, Position(s, rank), m);
  }

  lemma InterpolateAtSample(s: seq<I64>, position: nat, m: nat)
    requires Ascending(s) && position == m * 100_000 && m < |s|
    ensures Interpolate(s, position) == Fee(s[m])
  {
    assert position / 100_000 == m && position % 100_000 == 0;
    assert Lower(|s|, position) == m;
  }

  /**
   Which sample each bid is made from: for 100 k + 1 samples in order, the economy and standard bids are 90% and
   the margin of sample 50 k, the priority bid is the margin of sample 75 k, and the urgent bid of sample 95 k.
   */
  lemma BidsScaleSamples(data: seq<I64>, s: seq<I64>, k: nat, margin: U64)
    requires Arranged(data, s) && k >= 1 && |s| == 100 * k + 1 && 100 * k * 95_000 <= U64_MAX
    ensures Predict(data, margin) ==
              Bids(CeilMulBps(Fee(s[50 * k]), 9_000), CeilMulBps(Fee(s[50 * k]), margin),
                   CeilMulBps(Fee(s[75 * k]), margin), CeilMulBps(Fee(s[95 * k]), margin))
  {
    WholeRank(data, s, 50_000, 50 * k);
    WholeRank(data, s, 75_000, 75 * k);
    WholeRank(data, s, 95_000, 95 * k);
  }

  /** Without samples the bids are 100%, 100%, 150% and 200% of a base fee of 100. */
  lemma BidsWithoutSamples(margin: U64)
    ensures Predict([], margin) ==
              Bids(CeilMulBps(100, 10_000), CeilMulBps(100, 10_000), CeilMulBps(100, 15_000), CeilMulBps(100, 20_000))
  {
  }

  ghost predicate Ordered(b: Bids) {
    b.economy <= b.standard && TiersOrdered(b)
  }

  lemma AllFit(p: U64, margin: U64)
    requires p <= I64_MAX && margin <= 20_000
    ensures Fits(p, margin)
  {
    ProductMonotone(p, margin, 20_000);
  }

  lemma PercentileIsFee(data: seq<I64>, rank: U64)
    ensures Percentile(data, rank) <= I64_MAX
  {
    if data != [] {
      PercentileBounded(data, rank, I64_MIN, I64_MAX);
    }
  }

  lemma SingleSample(v: I64, rank: U64)
    requires v >= 0
    ensures Percentile([v], rank) == v
  {
    PercentileBounded([v], rank, v, v);
  }

  /** The smallest fee whose product with `margin` no longer fits. */
  function FirstOverflow(margin: nat): nat
    requires margin > 0
  {
    U64_MAX * 10_000 / margin + 1
  }

  lemma FirstOverflowWraps(margin: U64)
    requires 20_000 < margin <= U32_MAX
    ensures 1_000_000_000 < FirstOverflow(margin) <= I64_MAX
    ensures CeilMulBps(FirstOverflow(margin), margin) <= 429_497
  {
    var v := FirstOverflow(margin);
    Euclid(U64_MAX * 10_000, margin);
    ProductMonotone(v, margin, U32_MAX);
    ProductMonotone(v - 1, 20_001, margin);
    assert margin * v == v * margin && (v - 1) * margin + margin == margin * v;
    assert U64_MAX * 10_000 < v * margin <= U64_MAX * 10_000 + margin;
  }

  lemma OrderedWithin(data: seq<I64>, margin: U64)
    requires margin <= 20_000
    ensures TiersOrdered(Predict(data, margin))
    ensures margin >= 9_000 ==> Ordered(Predict(data, margin))
  {
    PercentileIsFee(data, 95_000);
    AllFit(Percentile(data, 95_000), margin);
    BidsOrdered(data, margin);
  }

  lemma DisorderedBelow(margin: U64)
    requires margin < 9_000
    ensures !Ordered(Predict([10_000], margin))
  {
    SingleSample(10_000, 50_000);
    assert CeilMulBps(10_000, 9_000) == 9_000 && CeilMulBps(10_000, margin) == margin;
    var bids := Predict([10_000], margin);
    assert bids.economy == 9_000 && bids.standard == margin;
  }

  lemma DisorderedAbove(margin: U64)
    requires 20_000 < margin <= U32_MAX
    ensures FirstOverflow(margin) <= I64_MAX && !Ordered(Predict([FirstOverflow(margin)], margin))
  {
    var v := FirstOverflow(margin);
    FirstOverflowWraps(margin);
    SingleSample(v, 50_000);
    Rounding(v * 9_000);
  }

  /** The four bids come out in order for every sample if and only if the margin is between 90% and 200%. */
  lemma OrderedForAllIff(margin: U64)
    requires margin <= U32_MAX
    ensures (forall data :: Ordered(Predict(data, margin))) <==> 9_000 <= margin <= 20_000
  {
    if 9_000 <= margin <= 20_000 {
      forall data: seq<I64>
        ensures Ordered(Predict(data, margin))
      {
        OrderedWithin(data, margin);
      }
    } else if margin < 9_000 {
      DisorderedBelow(margin);
    } else {
      DisorderedAbove(margin);
    }
  }

  lemma SplitRanks(s: seq<I64>, v: I64)
    requires v > 0 && s == [v - 1, v - 1, v, v] && Ascending(s)
    ensures Interpolate(s, 150_000) == v - 1 && Interpolate(s, 225_000) == v
  {
    assert Lower(4, 150_000) == 1 && Weighted(1, 50_000) == 0;
    assert Lower(4, 225_000) == 2;
  }

  lemma PercentileOfSorted(data: seq<I64>, rank: U64)
    requires Ascending(data) && |data| > 1
    ensures Percentile(data, rank) == Interpolate(data, Clip((|data| - 1) * rank))
  {
    SortedIsUnique(Sorted(data), data);
  }

  /** Two samples below the overflow and two at it: the median is the former, the upper quartile the latter. */
  lemma SplitSample(data: seq<I64>, v: I64)
    requires v > 0 && data == [v - 1, v - 1, v, v]
    ensures Percentile(data, 50_000) == v - 1 && Percentile(data, 75_000) == v
  {
    PercentileOfSorted(data, 50_000);
    PercentileOfSorted(data, 75_000);
    SplitRanks(data, v);
  }

  lemma LastFittingIsLarge(margin: U64)
    requires 20_000 < margin <= U32_MAX
    ensures CeilMulBps(FirstOverflow(margin) - 1, margin) > 429_497
  {
    var w := FirstOverflow(margin) - 1;
    Euclid(U64_MAX * 10_000, margin);
    assert margin * w == w * margin && margin * (w + 1) == w * margin + margin;
    FirstOverflowWraps(margin);
    Rounding(w * margin);
  }

  /** The three dearer tiers alone come out in order for every sample if and only if the margin is at most 200%. */
  lemma TiersOrderedForAllIff(margin: U64)
    requires margin <= U32_MAX
    ensures (forall data :: TiersOrdered(Predict(data, margin))) <==> margin <= 20_000
  {
    if margin <= 20_000 {
      forall data: seq<I64>
        ensures TiersOrdered(Predict(data, margin))
      {
        OrderedWithin(data, margin);
      }
    } else {
      var v := FirstOverflow(margin);
      FirstOverflowWraps(margin);
      LastFittingIsLarge(margin);
      var data: seq<I64> := [v - 1, v - 1, v, v];
      SplitSample(data, v);
      assert !TiersOrdered(Predict(data, margin));
    }
  }

  // ----- Moving average -----

  /** Unchecked signed 64-bit arithmetic, which wraps in a release build. */
  function WrapSigned(n: int): I64 {
    (n + 0x8000_0000_0000_0000) % 0x1_0000_0000_0000_0000 - 0x8000_0000_0000_0000
  }

  /** Division that rounds toward zero. */
  function Quotient(a: int, b: nat): int
    requires b > 0
  {
    if a >= 0 then a / b else -((-a) / b)
  }

  /** Doubling, saturating at the ends of the signed 64-bit range. */
  function SaturatingDouble(d: int): int {
    if 2 * d > I64_MAX then I64_MAX else if 2 * d < I64_MIN then I64_MIN else 2 * d
  }

  /** How far one step of the average goes toward a sample `d` away. */
  function Stride(d: int, denom: nat): int
    requires denom > 0
  {
    Quotient(SaturatingDouble(d), denom)
  }

  lemma AtMostHalf(m: nat, denom: nat)
    requires denom >= 2
    ensures 0 <= 2 * (m / denom) <= m
  {
    Euclid(m, denom);
    Doubled(denom, m / denom);
  }

  lemma StrideFallsShort(d: int, denom: nat)
    requires denom >= 2
    ensures d >= 0 ==> 0 <= Stride(d, denom) <= d
    ensures d < 0 ==> d <= Stride(d, denom) <= 0
  {
    var doubled := SaturatingDouble(d);
    if d >= 0 {
      AtMostHalf(doubled, denom);
    } else {
      AtMostHalf(-doubled, denom);
    }
  }

  /** One step of the average. */
  function Smoothed(ema: I64, value: I64, denom: nat): I64
    requires denom > 0
  {
    WrapSigned(ema + Stride(WrapSigned(value - ema), denom))
  }

  /** The average after the first sample and `k` more. */
  function Ema(data: seq<I64>, denom: nat, k: nat): I64
    requires denom > 0 && k < |data|
  {
    if k == 0 then data[0] else Smoothed(Ema(data, denom, k - 1), data[k], denom)
  }

  ghost predicate Within(data: seq<I64>, least: I64, greatest: I64) {
    forall x :: x in data ==> least <= x <= greatest
  }

  lemma SmoothedBetween(ema: I64, value: I64, denom: nat)
    requires denom >= 2 && I64_MIN <= value - ema <= I64_MAX
    ensures ema <= Smoothed(ema, value, denom) <= value || value <= Smoothed(ema, value, denom) <= ema
  {
    var stride := Stride(value - ema, denom);
    WrapSignedFits(value - ema);
    StrideFallsShort(value - ema, denom);
    WrapSignedFits(ema + stride);
  }

  lemma SmoothedIsTruncated(ema: I64, value: I64, denom: nat)
    requires denom >= 2 && I64_MIN <= 2 * (value - ema) <= I64_MAX
    ensures var d, m := 2 * (value - ema), Smoothed(ema, value, denom) - ema;
            if d >= 0 then 0 <= denom * m <= d < denom * (m + 1) else denom * (m - 1) < d <= denom * m <= 0
  {
    var d := 2 * (value - ema);
    var stride := Stride(value - ema, denom);
    WrapSignedFits(value - ema);
    StrideFallsShort(value - ema, denom);
    WrapSignedFits(ema + stride);
    if d >= 0 {
      Euclid(d, denom);
    } else {
      Euclid(-d, denom);
      Negated(denom, (-d) / denom);
    }
  }

  /**
   The average starts at the first sample, and each sample after it moves the average two parts in `denom` of
   the way to it, rounded toward the average, when twice the way fits 64 bits.
   */
  lemma EmaFollows(data: seq<I64>, denom: nat, k: nat)
    requires denom >= 2 && k < |data|
    requires k > 0 ==> I64_MIN <= 2 * (data[k] - Ema(data, denom, k - 1)) <= I64_MAX
    ensures k == 0 ==> Ema(data, denom, k) == data[0]
    ensures k > 0 ==>
              var before, after := Ema(data, denom, k - 1), Ema(data, denom, k);
              var d, m := 2 * (data[k] - before), after - before;
              if d >= 0 then 0 <= denom * m <= d < denom * (m + 1) else denom * (m - 1) < d <= denom * m <= 0
  {
    if k > 0 {
      SmoothedIsTruncated(Ema(data, denom, k - 1), data[k], denom);
    }
  }

  lemma Negated(a: int, b: int)
    ensures a * (-b) == -(a * b) && a * (-b - 1) == -(a * (b + 1))
  {
  }

  lemma WrapSignedFits(n: int)
    requires I64_MIN <= n <= I64_MAX
    ensures WrapSigned(n) == n
  {
  }

  /** The average of samples within a range stays there, as long as the width of the range fits 63 bits. */
  lemma {:induction false} EmaBounded(data: seq<I64>, denom: nat, k: nat, least: I64, greatest: I64)
    requires denom >= 2 && k < |data| && Within(data, least, greatest) && greatest - least <= I64_MAX
    ensures least <= Ema(data, denom, k) <= greatest
    decreases k
  {
    assert data[k] in data;
    if k > 0 {
      EmaBounded(data, denom, k - 1, least, greatest);
      SmoothedBetween(Ema(data, denom, k - 1), data[k], denom);
    }
  }

  /** In a wider range the first step from one end toward the other leaves it. */
  lemma WideStepLeaves(least: I64, greatest: I64)
    requires greatest - least > I64_MAX && (least != I64_MIN || greatest != I64_MAX)
    ensures Smoothed(least, greatest, 3) < least || Smoothed(least, greatest, 3) > greatest
  {
    var d := greatest - least - 0x1_0000_0000_0000_0000;
    assert WrapSigned(greatest - least) == d <= -2;
    assert d < Stride(d, 3) <= -1;
  }

  /** The average of samples within a range is always within it. */
  ghost predicate AlwaysWithin(least: I64, greatest: I64) {
    forall data: seq<I64>, denom: nat, k: nat :: denom >= 2 && k < |data| && Within(data, least, greatest) ==>
      least <= Ema(data, denom, k) <= greatest
  }

  /** Exactly for ranges no wider than 2^63 - 1, and for the whole 64-bit range. */
  lemma AlwaysWithinIff(least: I64, greatest: I64)
    requires least <= greatest
    ensures AlwaysWithin(least, greatest) <==>
              greatest - least <= I64_MAX || (least == I64_MIN && greatest == I64_MAX)
  {
    if greatest - least <= I64_MAX {
      forall data: seq<I64>, denom: nat, k: nat | denom >= 2 && k < |data| && Within(data, least, greatest)
        ensures least <= Ema(data, denom, k) <= greatest
      {
        EmaBounded(data, denom, k, least, greatest);
      }
    } else if least != I64_MIN || greatest != I64_MAX {
      WideStepLeaves(least, greatest);
      var data: seq<I64> := [least, greatest];
      assert Within(data, least, greatest) && Ema(data, 3, 0) == least;
      assert Ema(data, 3, 1) == Smoothed(least, greatest, 3);
    }
  }

  method CalculateEma(data: seq<I64>, period: nat) returns (ema: U64)
    ensures data == [] || period == 0 ==> ema == 0
    ensures data != [] && period > 0 ==>
              ema == Fee(Ema(data, period + 1, if period < |data| then period else |data| - 1))
  {
    if data == [] || period == 0 {
      return 0;
    }
    var denom := period + 1;
    var average := data[0];
    var i := 1;
    while i < |data| && i <= period
      invariant 1 <= i <= |data| && i <= period + 1 && average == Ema(data, denom, i - 1)
    {
      average := Smoothed(average, data[i], denom);
      i := i + 1;
    }
    ema := Fee(average);
  }
}
