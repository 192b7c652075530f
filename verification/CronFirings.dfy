/** When a cron expression fires, told from the text of its five fields. */
module CronFirings {
  import opened Base
  import opened Text
  import opened Cron

  lemma CoversIff(s: Stride, v: nat)
    requires s.step >= 1
    ensures Covers(s, v) <==> s.start <= v <= s.end && (v - s.start) % s.step == 0
  {
    if s.start <= v && (v - s.start) % s.step == 0 {
      var k := (v - s.start) / s.step;
      assert v == Nth(s, k);
    }
    if Covers(s, v) {
      var k: nat :| v == Nth(s, k);
      WholeSteps(k, s.step);
    }
  }

  lemma WholeSteps(k: nat, step: nat)
    requires step >= 1
    ensures (k * step) % step == 0
  {
    var a := k * step;
    var q := a / step;
    Remainder(k, q, step, a % step);
  }

  lemma Remainder(k: nat, q: nat, step: nat, r: nat)
    requires k * step == q * step + r && r < step
    ensures r == 0
  {
    Difference(k, q, step);
    if k > q {
      AtLeastOnce(k - q, step);
    } else if k < q {
      Difference(q, k, step);
      AtLeastOnce(q - k, step);
    }
  }

  lemma Difference(a: nat, b: nat, step: nat)
    ensures (a - b) * step == a * step - b * step
  {
  }

  lemma AtLeastOnce(n: nat, step: nat)
    requires n >= 1
    ensures n * step >= step
  {
  }

  /** The part is written for a stride that holds `v`: from its start, in steps, to its end. */
  ghost predicate Holds(part: string, min: nat, max: nat, s: Stride, v: nat) {
    Accepted(part, min, max, s) && s.start <= v <= s.end && (v - s.start) % s.step == 0
  }

  /** Some part of the field between commas is written for `v`. */
  ghost predicate FieldCovers(text: string, min: nat, max: nat, v: nat) {
    exists part, s :: part in Split(text, ',') && Holds(part, min, max, s, v)
  }

  lemma PartHolds(part: string, min: nat, max: nat, v: nat)
    ensures PartCovers(part, min, max, v) <==> exists s :: Holds(part, min, max, s, v)
  {
    if PartCovers(part, min, max, v) {
      var s := ReadPart(part, min, max).value;
      ReadPartIff(part, min, max, s);
      CoversIff(s, v);
      assert Holds(part, min, max, s, v);
    }
    if s :| Holds(part, min, max, s, v) {
      ReadPartIff(part, min, max, s);
      CoversIff(s, v);
    }
  }

  lemma ReadsIff(text: string, min: nat, max: nat, values: seq<nat>, v: nat)
    requires Reads(text, min, max, values)
    ensures v in values <==> FieldCovers(text, min, max, v)
  {
    ReadPartsMeaning(Split(text, ','), min, max, v);
    forall part
      ensures PartCovers(part, min, max, v) <==> exists s :: Holds(part, min, max, s, v)
    {
      PartHolds(part, min, max, v);
    }
  }

  /** With both day fields `*` every day will do; otherwise one that is not `*` must cover the day. */
  ghost predicate DayCovered(fields: seq<string>, at: Civil)
    requires |fields| == 5
  {
    || (fields[2] == "*" && fields[4] == "*")
    || (fields[2] != "*" && FieldCovers(fields[2], 1, 31, at.day))
    || (fields[4] != "*" && FieldCovers(fields[4], 0, 6, at.weekday))
  }

  ghost predicate AsWritten(fields: seq<string>, at: Civil)
    requires |fields| == 5
  {
    && FieldCovers(fields[0], 0, 59, at.minute)
    && FieldCovers(fields[1], 0, 23, at.hour)
    && FieldCovers(fields[3], 1, 12, at.month)
    && DayCovered(fields, at)
  }

  /** A schedule matches exactly the calendar readings its text is written for. */
  lemma MatchesAsWritten(fields: seq<string>, s: Schedule, at: Civil)
    requires ReadsFields(fields, s)
    ensures Matches(s, at) <==> AsWritten(fields, at)
  {
    ReadsIff(fields[0], 0, 59, s.minutes, at.minute);
    ReadsIff(fields[1], 0, 23, s.hours, at.hour);
    ReadsIff(fields[2], 1, 31, s.days, at.day);
    ReadsIff(fields[3], 1, 12, s.months, at.month);
    ReadsIff(fields[4], 0, 6, s.weekdays, at.weekday);
  }

  /** The calendar knows every whole minute after `after` up to `t`. */
  ghost predicate Reached(cal: Calendar, after: U64, t: nat) {
    forall u: nat :: after < u <= t && u % 60 == 0 ==> cal(u).Some?
  }

  /** A whole minute after `after`, no more than four years on, at which the text fires. */
  ghost predicate Fires(cal: Calendar, fields: seq<string>, after: U64, t: nat)
    requires |fields| == 5
  {
    && t % 60 == 0 && after < t <= (after / 60 + 4 * 366 * 24 * 60) * 60
    && Reached(cal, after, t)
    && AsWritten(fields, cal(t).value)
  }

  lemma WholeMinute(after: U64, t: nat) returns (k: nat)
    requires InReach(after) && t % 60 == 0 && after < t <= (after / 60 + HORIZON) * 60
    ensures k < HORIZON && Minute(after, k) == t
  {
    k := t / 60 - after / 60 - 1;
    assert t == ExactMinute(after, k);
    MinuteFacts(after, k);
  }

  lemma SearchedIff(cal: Calendar, after: U64, k: nat)
    requires InReach(after) && k < HORIZON
    ensures Searched(cal, after, k) <==> Reached(cal, after, Minute(after, k))
  {
    MinuteFacts(after, k);
    forall j: nat | j <= k
      ensures after < Minute(after, j) <= Minute(after, k) && Minute(after, j) % 60 == 0
    {
      MinuteFacts(after, j);
    }
    if Searched(cal, after, k) {
      forall u: nat | after < u <= Minute(after, k) && u % 60 == 0
        ensures cal(u).Some?
      {
        var j := WholeMinute(after, u);
        MinuteFacts(after, j);
        assert j <= k;
      }
    }
  }

  /** A minute found by the search is one at which the text fires, and the other way round. */
  lemma FiringIff(cal: Calendar, fields: seq<string>, s: Schedule, after: U64, t: U64)
    requires ReadsFields(fields, s) && InReach(after)
    ensures Firing(cal, s, after, t) <==> Fires(cal, fields, after, t)
  {
    if Firing(cal, s, after, t) {
      var k: nat :| FiresAt(cal, s, after, k) && t == Minute(after, k);
      MinuteFacts(after, k);
      SearchedIff(cal, after, k);
      MatchesAsWritten(fields, s, cal(t).value);
    }
    if Fires(cal, fields, after, t) {
      var k := WholeMinute(after, t);
      SearchedIff(cal, after, k);
      MatchesAsWritten(fields, s, cal(t).value);
      assert FiresAt(cal, s, after, k);
    }
  }

  /** The next firing is the least minute at which the text fires, and there is none exactly when the text has none. */
  lemma NextFiringIff(cal: Calendar, fields: seq<string>, s: Schedule, after: U64)
    requires ReadsFields(fields, s) && InReach(after)
    ensures match NextAfter(cal, s, after)
            case None => forall t: U64 :: !Fires(cal, fields, after, t)
            case Some(t) => Fires(cal, fields, after, t) && forall u: U64 :: Fires(cal, fields, after, u) ==> t <= u
  {
    NextAfterIsLeast(cal, s, after);
    forall t: U64
      ensures Firing(cal, s, after, t) <==> Fires(cal, fields, after, t)
    {
      FiringIff(cal, fields, s, after, t);
    }
  }
}
