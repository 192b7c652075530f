/** Five-field cron schedules: reading a field, matching an instant, and finding the next firing. */
module Cron {
  import opened Base
  import opened Text

  /** `str::parse::<u32>`: an optional plus sign and at least one digit, no larger than 2^32 - 1. */
  function ParseU32(text: string): Option<nat> {
    var digits := if text != "" && text[0] == '+' then text[1..] else text;
    if digits != "" && (forall c :: c in digits ==> IsDigit(c)) && Decimal(digits) < 0x1_0000_0000
    then Some(Decimal(digits)) else None
  }

  // ----- Fields -----

  /** The values `start`, `start + step`, ... up to `end`. */
  datatype Stride = Stride(start: nat, end: nat, step: nat)

  function Nth(s: Stride, k: nat): nat {
    s.start + k * s.step
  }

  ghost predicate Covers(s: Stride, v: nat) {
    v <= s.end && exists k: nat :: v == Nth(s, k)
  }

  /** One comma-separated part of a field with values in `min..max`. */
  function ReadPart(part: string, min: nat, max: nat): (r: Option<Stride>)
    ensures r.Some? ==> min <= r.value.start <= r.value.end <= max && r.value.step >= 1
  {
    var cut := SplitOnce(part, '/');
    var range := if cut.Some? then cut.value.0 else part;
    var step := if cut.Some? then ParseU32(cut.value.1) else Some(1);
    var bounds := ReadRange(range, cut.Some?, min, max);
    if step.None? || step.value == 0 || bounds.None? then None
    else if bounds.value.0 < min || bounds.value.1 > max || bounds.value.0 > bounds.value.1 then None
    else Some(Stride(bounds.value.0, bounds.value.1, step.value))
  }

  /** The ends of `*`, `a-b` or `n`; a number before a step reaches to the largest value. */
  function ReadRange(range: string, stepped: bool, min: nat, max: nat): Option<(nat, nat)> {
    if range == "*" then Some((min, max))
    else
      var dash := SplitOnce(range, '-');
      if dash.Some? then
        var a, b := ParseU32(dash.value.0), ParseU32(dash.value.1);
        if a.None? || b.None? then None else Some((a.value, b.value))
      else
        var n := ParseU32(range);
        if n.None? then None else Some((n.value, if stepped then max else n.value))
  }

  // ----- The written forms of a part -----

  ghost predicate IsNumber(text: string) {
    text != "" && (forall c :: c in text ==> IsDigit(c)) && Decimal(text) < 0x1_0000_0000
  }

  ghost predicate Signed(text: string, digits: string) {
    text == digits || text == "+" + digits
  }

  /** `text` is the number `n` below 2^32, with or without a plus sign. */
  ghost predicate Numeral(text: string, n: nat) {
    exists digits :: Signed(text, digits) && IsNumber(digits) && Decimal(digits) == n
  }

  ghost predicate Dashed(range: string, a: string, b: string, start: nat, end: nat) {
    range == a + "-" + b && Numeral(a, start) && Numeral(b, end)
  }

  /** `*`, `a-b` or `n`; with a step, `n` stands for `n` and all above it. */
  ghost predicate RangeText(range: string, stepped: bool, min: nat, max: nat, start: nat, end: nat) {
    || (range == "*" && start == min && end == max)
    || (exists a, b :: Dashed(range, a, b, start, end))
    || (Numeral(range, start) && end == if stepped then max else start)
  }

  ghost predicate Stepped(text: string, range: string, step: string, min: nat, max: nat, s: Stride) {
    text == range + "/" + step && Numeral(step, s.step) && RangeText(range, true, min, max, s.start, s.end)
  }

  /** A range, or a range with a step. */
  ghost predicate PartText(text: string, min: nat, max: nat, s: Stride) {
    || (s.step == 1 && RangeText(text, false, min, max, s.start, s.end))
    || (exists range, step :: Stepped(text, range, step, min, max, s))
  }

  /** The part is written for this stride, which steps and is in range. */
  ghost predicate Accepted(text: string, min: nat, max: nat, s: Stride) {
    PartText(text, min, max, s) && s.step >= 1 && min <= s.start <= s.end <= max
  }

  lemma NumeralShape(text: string, n: nat)
    requires Numeral(text, n)
    ensures ParseU32(text) == Some(n) && text != "*" && '-' !in text && '/' !in text
  {
    var digits :| Signed(text, digits) && IsNumber(digits) && Decimal(digits) == n;
    assert digits[0] in digits && IsDigit(digits[0]);
    assert !IsDigit('+') && !IsDigit('-') && !IsDigit('/') && !IsDigit('*');
    if text != digits {
      assert text[1..] == digits && text[0] == '+';
      assert forall c :: c in text ==> c == '+' || c in digits;
    }
  }

  lemma ParseU32Iff(text: string, n: nat)
    ensures ParseU32(text) == Some(n) <==> Numeral(text, n)
  {
    if ParseU32(text) == Some(n) {
      var digits := if text != "" && text[0] == '+' then text[1..] else text;
      assert Signed(text, digits) && IsNumber(digits) && Decimal(digits) == n;
    }
    if Numeral(text, n) {
      NumeralShape(text, n);
    }
  }

  lemma DashedShape(range: string, a: string, b: string, start: nat, end: nat)
    requires Dashed(range, a, b, start, end)
    ensures SplitOnce(range, '-') == Some((a, b)) && range != "*" && '/' !in range
    ensures ParseU32(a) == Some(start) && ParseU32(b) == Some(end)
  {
    NumeralShape(a, start);
    NumeralShape(b, end);
    SplitOnceAt(a, '-', b);
    assert '-' in range;
  }

  lemma RangeIsRead(range: string, stepped: bool, min: nat, max: nat, start: nat, end: nat)
    requires RangeText(range, stepped, min, max, start, end)
    ensures ReadRange(range, stepped, min, max) == Some((start, end)) && '/' !in range
  {
    if range == "*" && start == min && end == max {
    } else if a, b :| Dashed(range, a, b, start, end) {
      DashedShape(range, a, b, start, end);
    } else {
      NumeralShape(range, start);
    }
  }

  lemma ReadIsRange(range: string, stepped: bool, min: nat, max: nat, start: nat, end: nat)
    requires ReadRange(range, stepped, min, max) == Some((start, end))
    ensures RangeText(range, stepped, min, max, start, end)
  {
    if range != "*" {
      var dash := SplitOnce(range, '-');
      if dash.Some? {
        ParseU32Iff(dash.value.0, start);
        ParseU32Iff(dash.value.1, end);
        assert Dashed(range, dash.value.0, dash.value.1, start, end);
      } else {
        ParseU32Iff(range, start);
      }
    }
  }

  lemma PartIsRead(text: string, min: nat, max: nat, s: Stride)
    requires Accepted(text, min, max, s)
    ensures ReadPart(text, min, max) == Some(s)
  {
    if range, step :| Stepped(text, range, step, min, max, s) {
      RangeIsRead(range, true, min, max, s.start, s.end);
      NumeralShape(step, s.step);
      SplitOnceAt(range, '/', step);
    } else {
      RangeIsRead(text, false, min, max, s.start, s.end);
    }
  }

  lemma ReadIsPart(text: string, min: nat, max: nat, s: Stride)
    requires ReadPart(text, min, max) == Some(s)
    ensures PartText(text, min, max, s)
  {
    var cut := SplitOnce(text, '/');
    if cut.Some? {
      ReadIsRange(cut.value.0, true, min, max, s.start, s.end);
      ParseU32Iff(cut.value.1, s.step);
      assert Stepped(text, cut.value.0, cut.value.1, min, max, s);
    } else {
      ReadIsRange(text, false, min, max, s.start, s.end);
    }
  }

  /** A part is read as a stride if and only if it is one of the written forms for it. */
  lemma ReadPartIff(text: string, min: nat, max: nat, s: Stride)
    ensures ReadPart(text, min, max) == Some(s) <==> Accepted(text, min, max, s)
  {
    if ReadPart(text, min, max) == Some(s) {
      ReadIsPart(text, min, max, s);
    }
    if Accepted(text, min, max, s) {
      PartIsRead(text, min, max, s);
    }
  }

  // ----- Lists of values -----

  ghost predicate StrictlyIncreasing(s: seq<nat>) {
    forall i, j :: 0 <= i < j < |s| ==> s[i] < s[j]
  }

  /** A sorted list without duplicates, with `v` added. */
  function InsertSorted(s: seq<nat>, v: nat): (r: seq<nat>)
    requires StrictlyIncreasing(s)
    ensures StrictlyIncreasing(r) && forall x :: x in r <==> x in s || x == v
  {
    if s == [] || v < s[0] then
      assert forall x :: x in [v] + s <==> x in s || x == v;
      [v] + s
    else if v == s[0] then s
    else
      var t := InsertSorted(s[1..], v);
      assert forall i :: 0 <= i < |t| ==> s[0] < t[i] by {
        forall i | 0 <= i < |t| ensures s[0] < t[i] {
          assert t[i] in t;
          if t[i] in s[1..] {
            var k :| 0 <= k < |s[1..]| && s[1..][k] == t[i];
            assert s[k + 1] == t[i];
          }
        }
      }
      assert s == [s[0]] + s[1..];
      [s[0]] + t
  }

  /** Sorted and without duplicates, as `sort_unstable` and `dedup` leave a vector. */
  function SortDedup(values: seq<nat>): (r: seq<nat>)
    ensures StrictlyIncreasing(r) && forall x :: x in r <==> x in values
  {
    if values == [] then []
    else
      assert values == Init(values) + [Last(values)];
      InsertSorted(SortDedup(Init(values)), Last(values))
  }

  /** The strides of all parts, if each part can be read. */
  function ReadParts(parts: seq<string>, min: nat, max: nat): Option<seq<Stride>> {
    if parts == [] then Some([])
    else
      var before := ReadParts(Init(parts), min, max);
      var stride := ReadPart(Last(parts), min, max);
      if before.None? || stride.None? then None else Some(before.value + [stride.value])
  }

  ghost predicate AnyCovers(strides: seq<Stride>, v: nat) {
    strides != [] && (AnyCovers(Init(strides), v) || Covers(Last(strides), v))
  }

  /** A part that can be read and covers `v`. */
  ghost predicate PartCovers(part: string, min: nat, max: nat, v: nat) {
    ReadPart(part, min, max).Some? && Covers(ReadPart(part, min, max).value, v)
  }

  /** A list of parts is rejected when one of them is, and otherwise covers what some part covers. */
  lemma {:induction false} ReadPartsMeaning(parts: seq<string>, min: nat, max: nat, v: nat)
    ensures var strides := ReadParts(parts, min, max);
            && (strides.None? <==> exists part :: part in parts && ReadPart(part, min, max).None?)
            && (strides.Some? ==>
                 (AnyCovers(strides.value, v) <==> exists part :: part in parts && PartCovers(part, min, max, v)))
    decreases parts
  {
    if parts != [] {
      var last := Last(parts);
      ReadPartsMeaning(Init(parts), min, max, v);
      assert forall part :: part in parts <==> part in Init(parts) || part == last by {
        assert parts == Init(parts) + [last];
      }
      var strides := ReadParts(parts, min, max);
      if strides.Some? {
        assert Init(strides.value) == ReadParts(Init(parts), min, max).value;
        assert Covers(Last(strides.value), v) <==> PartCovers(last, min, max, v);
      }
    }
  }

  /** The values of one stride, appended to `values`. */
  method Extend(values: seq<nat>, s: Stride) returns (r: seq<nat>)
    requires s.start <= s.end && s.step >= 1
    ensures forall v: nat :: v in r <==> v in values || Covers(s, v)
  {
    r := values;
    var k := 0;
    while Nth(s, k) <= s.end
      invariant forall v: nat :: v in r <==> v in values || (v <= s.end && exists j: nat :: j < k && v == Nth(s, j))
      decreases s.end - Nth(s, k)
    {
      NthGrows(s, k, k + 1);
      r := r + [Nth(s, k)];
      k := k + 1;
    }
    forall j: nat | j >= k ensures Nth(s, j) > s.end {
      NthGrows(s, k, j);
    }
  }

  lemma NthGrows(s: Stride, i: nat, j: nat)
    requires i <= j && s.step >= 1
    ensures Nth(s, i) + (j - i) <= Nth(s, j)
  {
    assert j * s.step == i * s.step + (j - i) * s.step;
    assert (j - i) * s.step >= j - i;
  }

  lemma {:induction false} ReadPartsStops(parts: seq<string>, n: nat, min: nat, max: nat)
    requires n <= |parts| && ReadParts(parts[..n], min, max).None?
    ensures ReadParts(parts, min, max).None?
    decreases |parts| - n
  {
    if n < |parts| {
      assert Init(parts[..n + 1]) == parts[..n];
      ReadPartsStops(parts, n + 1, min, max);
    } else {
      assert parts[..n] == parts;
    }
  }

  /** Reads a field: the strictly increasing list of exactly the values its parts cover. */
  method ParseField(text: string, min: nat, max: nat) returns (r: Option<seq<nat>>)
    ensures r.None? <==> Malformed(text, min, max)
    ensures r.Some? ==> Reads(text, min, max, r.value)
  {
    var values: seq<nat> := [];
    ghost var strides: seq<Stride> := [];
    var parts := Split(text, ',');
    var i := 0;
    while i < |parts|
      invariant 0 <= i <= |parts|
      invariant ReadParts(parts[..i], min, max) == Some(strides)
      invariant forall v: nat :: v in values <==> AnyCovers(strides, v)
    {
      assert Init(parts[..i + 1]) == parts[..i];
      var stride := ReadPart(parts[i], min, max);
      if stride.None? {
        ReadPartsStops(parts, i + 1, min, max);
        return None;
      }
      values := Extend(values, stride.value);
      assert Init(strides + [stride.value]) == strides;
      strides := strides + [stride.value];
      i := i + 1;
    }
    assert parts[..i] == parts;
    r := Some(SortDedup(values));
  }

  ghost predicate Malformed(text: string, min: nat, max: nat) {
    ReadParts(Split(text, ','), min, max).None?
  }

  ghost predicate Reads(text: string, min: nat, max: nat, values: seq<nat>) {
    var strides := ReadParts(Split(text, ','), min, max);
    strides.Some? && StrictlyIncreasing(values) && forall v: nat :: v in values <==> AnyCovers(strides.value, v)
  }

  /** The part is none of the written forms, or does not step, or is out of range. */
  ghost predicate Rejected(part: string, min: nat, max: nat) {
    forall s :: !Accepted(part, min, max, s)
  }

  lemma RejectedIff(part: string, min: nat, max: nat)
    ensures ReadPart(part, min, max).None? <==> Rejected(part, min, max)
  {
    var read := ReadPart(part, min, max);
    if read.Some? {
      ReadPartIff(part, min, max, read.value);
    } else {
      forall s
        ensures !Accepted(part, min, max, s)
      {
        ReadPartIff(part, min, max, s);
      }
    }
  }

  /** A field is malformed if and only if some part of it is rejected. */
  lemma MalformedIff(text: string, min: nat, max: nat)
    ensures Malformed(text, min, max) <==> exists part :: part in Split(text, ',') && Rejected(part, min, max)
  {
    ReadPartsMeaning(Split(text, ','), min, max, 0);
    forall part
      ensures ReadPart(part, min, max).None? <==> Rejected(part, min, max)
    {
      RejectedIff(part, min, max);
    }
  }

  // ----- Schedules -----

  datatype Schedule = Schedule(
    minutes: seq<nat>, hours: seq<nat>, days: seq<nat>, months: seq<nat>, weekdays: seq<nat>,
    dayRestricted: bool, weekdayRestricted: bool)

  /** The calendar reading of an instant; weekday 0 is Sunday. */
  datatype Civil = Civil(minute: nat, hour: nat, day: nat, month: nat, weekday: nat)

  /** Epoch seconds to calendar reading, where the calendar reaches. */
  type Calendar = nat -> Option<Civil>

  predicate DateMatches(s: Schedule, at: Civil) {
    match (s.dayRestricted, s.weekdayRestricted)
    case (true, true) => at.day in s.days || at.weekday in s.weekdays
    case (true, false) => at.day in s.days
    case (false, true) => at.weekday in s.weekdays
    case (false, false) => true
  }

  predicate Matches(s: Schedule, at: Civil) {
    at.minute in s.minutes && at.hour in s.hours && at.month in s.months && DateMatches(s, at)
  }

  /** Four years of minutes. */
  const HORIZON: nat := 4 * 366 * 24 * 60

  /** The `step`-th whole minute after `after`. */
  function ExactMinute(after: U64, step: nat): nat {
    (after / 60 + 1) * 60 + step * 60
  }

  /** The minute the search looks at: the sum is unchecked. */
  function Minute(after: U64, step: nat): U64 {
    Wrap(ExactMinute(after, step))
  }

  /** The whole search stays below 2^64. */
  predicate InReach(after: U64) {
    ExactMinute(after, HORIZON - 1) <= U64_MAX
  }

  /** The `step`-th candidate is within the horizon and the calendar reaches it and all before it. */
  ghost predicate Searched(cal: Calendar, after: U64, step: nat) {
    step < HORIZON && forall j: nat :: j <= step ==> cal(Minute(after, j)).Some?
  }

  /** The schedule matches at the `step`-th candidate minute after `after`. */
  ghost predicate FiresAt(cal: Calendar, s: Schedule, after: U64, step: nat) {
    Searched(cal, after, step) && Matches(s, cal(Minute(after, step)).value)
  }

  ghost predicate FiresFirstAt(cal: Calendar, s: Schedule, after: U64, step: nat) {
    FiresAt(cal, s, after, step) && forall j: nat :: j < step ==> !FiresAt(cal, s, after, j)
  }

  /** The first firing at or after candidate `step`. */
  function Search(cal: Calendar, s: Schedule, after: U64, step: nat): Option<U64>
    decreases HORIZON - step
  {
    if step >= HORIZON then None
    else
      var at := cal(Minute(after, step));
      if at.None? then None
      else if Matches(s, at.value) then Some(Minute(after, step))
      else Search(cal, s, after, step + 1)
  }

  function NextAfter(cal: Calendar, s: Schedule, after: U64): Option<U64> {
    Search(cal, s, after, 0)
  }

  lemma WrapsOnce(after: U64, start: U64, step: nat)
    requires start == Wrap((after / 60 + 1) * 60)
    ensures Wrap(start + step * 60) == Minute(after, step)
  {
  }

  method FindNext(cal: Calendar, s: Schedule, after: U64) returns (r: Option<U64>)
    ensures r == NextAfter(cal, s, after)
  {
    var start := Wrap((after / 60 + 1) * 60);
    var step := 0;
    while step < HORIZON
      invariant step <= HORIZON
      invariant NextAfter(cal, s, after) == Search(cal, s, after, step)
    {
      var ts := Wrap(start + step * 60);
      WrapsOnce(after, start, step);
      var at := cal(ts);
      if at.None? {
        return None;
      }
      if Matches(s, at.value) {
        return Some(ts);
      }
      step := step + 1;
    }
    r := None;
  }

  lemma {:induction false} SearchMeaning(cal: Calendar, s: Schedule, after: U64, step: nat)
    requires step <= HORIZON
    requires forall j: nat :: j < step ==> cal(Minute(after, j)).Some? && !FiresAt(cal, s, after, j)
    ensures match Search(cal, s, after, step)
            case None => forall k: nat :: !FiresAt(cal, s, after, k)
            case Some(t) => exists k: nat :: FiresFirstAt(cal, s, after, k) && t == Minute(after, k)
    decreases HORIZON - step
  {
    if step < HORIZON {
      var at := cal(Minute(after, step));
      if at.None? {
        forall k: nat | k >= step ensures !Searched(cal, after, k) {}
      } else {
        assert Searched(cal, after, step);
        if Matches(s, at.value) {
          assert FiresFirstAt(cal, s, after, step);
        } else {
          SearchMeaning(cal, s, after, step + 1);
        }
      }
    }
  }

  /** `t` is a minute of the search at which the schedule matches. */
  ghost predicate Firing(cal: Calendar, s: Schedule, after: U64, t: U64) {
    exists k: nat :: FiresAt(cal, s, after, k) && t == Minute(after, k)
  }

  /** `t` is the first of them, in the order of the search. */
  ghost predicate FirstFiring(cal: Calendar, s: Schedule, after: U64, t: U64) {
    exists k: nat :: FiresFirstAt(cal, s, after, k) && t == Minute(after, k)
  }

  lemma MinuteFacts(after: U64, k: nat)
    requires InReach(after) && k < HORIZON
    ensures Minute(after, k) == ExactMinute(after, k) > after && ExactMinute(after, k) % 60 == 0
  {
    assert ExactMinute(after, k) == (after / 60 + 1 + k) * 60;
  }

  lemma FirstIsLeast(cal: Calendar, s: Schedule, after: U64, t: U64, u: U64)
    requires InReach(after) && FirstFiring(cal, s, after, t) && Firing(cal, s, after, u)
    ensures t <= u
  {
    var k: nat :| FiresFirstAt(cal, s, after, k) && t == Minute(after, k);
    var j: nat :| FiresAt(cal, s, after, j) && u == Minute(after, j);
    MinuteFacts(after, k);
    MinuteFacts(after, j);
  }

  /**
   `next_after` finds the first firing of the search, and fails only when there is none. If the search stays
   below 2^64, that is the least whole minute after `after` at which the schedule matches within the horizon.
   */
  lemma NextAfterIsLeast(cal: Calendar, s: Schedule, after: U64)
    ensures match NextAfter(cal, s, after)
            case None => forall t: U64 :: !Firing(cal, s, after, t)
            case Some(t) =>
              && FirstFiring(cal, s, after, t) && Firing(cal, s, after, t)
              && (InReach(after) ==> t > after && t % 60 == 0 && (forall u: U64 :: Firing(cal, s, after, u) ==> t <= u))
  {
    SearchMeaning(cal, s, after, 0);
    var r := NextAfter(cal, s, after);
    if r.Some? {
      var k: nat :| FiresFirstAt(cal, s, after, k) && r.value == Minute(after, k);
      assert FirstFiring(cal, s, after, r.value) && Firing(cal, s, after, r.value);
      if InReach(after) {
        MinuteFacts(after, k);
        forall u: U64 | Firing(cal, s, after, u)
          ensures r.value <= u
        {
          FirstIsLeast(cal, s, after, r.value, u);
        }
      }
    }
  }

  lemma FirstFiringUnique(cal: Calendar, s: Schedule, after: U64, t: U64)
    requires FirstFiring(cal, s, after, t)
    ensures NextAfter(cal, s, after) == Some(t)
  {
    var k: nat :| FiresFirstAt(cal, s, after, k) && t == Minute(after, k);
    NextAfterIsLeast(cal, s, after);
    assert Firing(cal, s, after, t);
    var j: nat :| FiresFirstAt(cal, s, after, j) && NextAfter(cal, s, after).value == Minute(after, j);
    assert j == k;
  }

  /** Whatever the calendar and the schedule, the next firing found lies after `after`. */
  ghost predicate AlwaysLater(after: U64) {
    forall cal: Calendar, s: Schedule :: NextAfter(cal, s, after).Some? ==> NextAfter(cal, s, after).value > after
  }

  lemma BeyondReach(after: U64)
    requires !InReach(after)
    ensures Minute(after, HORIZON - 1) <= after
  {
    assert HORIZON == 2_108_160;
    assert ExactMinute(after, HORIZON - 1) <= after + 126_489_600;
  }

  /** The search goes forward in time if and only if it stays below 2^64. */
  lemma AlwaysLaterIff(after: U64)
    ensures AlwaysLater(after) <==> InReach(after)
  {
    if InReach(after) {
      forall cal: Calendar, s: Schedule | NextAfter(cal, s, after).Some?
        ensures NextAfter(cal, s, after).value > after
      {
        NextAfterIsLeast(cal, s, after);
      }
    } else {
      var target := Minute(after, HORIZON - 1);
      BeyondReach(after);
      var cal, s := OnlyAt(target);
      assert FiresAt(cal, s, after, HORIZON - 1);
      NextAfterIsLeast(cal, s, after);
      assert Firing(cal, s, after, target);
      assert NextAfter(cal, s, after).Some?;
      assert NextAfter(cal, s, after).value == target <= after;
    }
  }

  /** A calendar and a schedule that match at one time only. */
  lemma OnlyAt(target: U64) returns (cal: Calendar, s: Schedule)
    ensures forall t :: cal(t).Some? && (Matches(s, cal(t).value) <==> t == target)
  {
    cal := t => Some(Civil(if t == target then 0 else 1, 0, 1, 1, 0));
    s := Schedule([0], [0], [1], [1], [0], false, false);
  }

  /** Reads the five fields of an expression already split at white space. */
  method ParseSchedule(fields: seq<string>) returns (r: Option<Schedule>)
    ensures r.Some? ==> ReadsFields(fields, r.value)
    ensures r.None? <==> BadFields(fields)
  {
    if |fields| != 5 {
      return None;
    }
    var minutes := ParseField(fields[0], 0, 59);
    var hours := ParseField(fields[1], 0, 23);
    var days := ParseField(fields[2], 1, 31);
    var months := ParseField(fields[3], 1, 12);
    var weekdays := ParseField(fields[4], 0, 6);
    if minutes.None? || hours.None? || days.None? || months.None? || weekdays.None? {
      return None;
    }
    r := Some(Schedule(minutes.value, hours.value, days.value, months.value, weekdays.value,
                       fields[2] != "*", fields[4] != "*"));
  }

  ghost predicate ReadsFields(fields: seq<string>, s: Schedule) {
    && |fields| == 5
    && Reads(fields[0], 0, 59, s.minutes)
    && Reads(fields[1], 0, 23, s.hours)
    && Reads(fields[2], 1, 31, s.days)
    && Reads(fields[3], 1, 12, s.months)
    && Reads(fields[4], 0, 6, s.weekdays)
    && s.dayRestricted == (fields[2] != "*")
    && s.weekdayRestricted == (fields[4] != "*")
  }

  ghost predicate BadFields(fields: seq<string>) {
    || |fields| != 5
    || Malformed(fields[0], 0, 59)
    || Malformed(fields[1], 0, 23)
    || Malformed(fields[2], 1, 31)
    || Malformed(fields[3], 1, 12)
    || Malformed(fields[4], 0, 6)
  }
}
