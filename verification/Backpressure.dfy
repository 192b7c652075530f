/**
 A subscriber of the bounded event bus: a queue behind a lock and a semaphore of permits outside it,
 with the bus's loop over subscribers as it runs when nothing else does.
 */
module Backpressure {
  import opened Base

  datatype Policy = DropNewest | DropOldest | Wait

  datatype Outcome = Delivered | Dropped | WouldBlock | TimedOut | Closed

  datatype Stats = Stats(published: nat, delivered: nat, dropped: nat, timedOut: nat, closed: nat)

  /** One subscriber. Every queued value holds one permit, forgotten when it was pushed. */
  datatype Sub<T> = Sub(capacity: nat, queue: seq<T>, available: nat, sealed: bool, closed: bool)

  /** `try_acquire_owned` succeeds. A closed semaphore refuses whatever it has left. */
  predicate CanAcquire<T>(s: Sub<T>) {
    !s.sealed && s.available > 0
  }

  function Acquired<T>(s: Sub<T>): Sub<T>
    requires s.available > 0
  {
    s.(available := s.available - 1)
  }

  function Released<T>(s: Sub<T>): Sub<T> {
    s.(available := s.available + 1)
  }

  function Pushed<T>(s: Sub<T>, value: T): Sub<T> {
    s.(queue := s.queue + [value])
  }

  predicate Full<T>(s: Sub<T>) {
    |s.queue| >= s.capacity
  }

  /** The oldest value leaves; its permit comes back unless the subscriber is closed. */
  function Removed<T>(s: Sub<T>): Sub<T>
    requires s.queue != []
  {
    var rest := s.(queue := s.queue[1..]);
    if s.closed then rest else Released(rest)
  }

  function Fresh<T>(capacity: nat): Sub<T> {
    var c := Max(capacity, 1);
    Sub(c, [], c, false, false)
  }

  /** `enqueue` by a caller that holds a permit; a refusal gives the permit back. */
  function Enqueue<T>(s: Sub<T>, value: T): (Sub<T>, bool) {
    if s.closed || Full(s) then (Released(s), false) else (Pushed(s, value), true)
  }

  function MadeRoom<T>(s: Sub<T>): Sub<T> {
    if Full(s) && s.queue != [] then Removed(s) else s
  }

  function ReplaceOldest<T>(s: Sub<T>, value: T): (Sub<T>, Outcome, bool) {
    if s.closed then (s, Closed, false)
    else
      var room := MadeRoom(s);
      if CanAcquire(room) then (Pushed(Acquired(room), value), Delivered, Full(s)) else (room, Closed, Full(s))
  }

  function TryPush<T>(s: Sub<T>, value: T, policy: Policy): (Sub<T>, Outcome, bool) {
    if s.closed then (s, Closed, false)
    else if policy == DropOldest then ReplaceOldest(s, value)
    else if !CanAcquire(s) then (s, if policy == Wait then WouldBlock else Dropped, false)
    else
      var (t, ok) := Enqueue(Acquired(s), value);
      (t, if ok then Delivered else Closed, false)
  }

  /** Open, with no permit in anyone's hands. */
  predicate Settled<T>(s: Sub<T>) {
    s.capacity >= 1 && !s.closed && !s.sealed && s.available + |s.queue| == s.capacity
  }

  /** The last `n` values. */
  function Suffix<T>(values: seq<T>, n: nat): seq<T> {
    if |values| <= n then values else values[|values| - n..]
  }

  /**
   A push on a settled subscriber leaves it settled. Dropping the oldest always delivers and keeps the
   newest values that fit; the other policies deliver exactly when there is room and otherwise change nothing.
   */
  lemma PushOnSettled<T>(s: Sub<T>, value: T, policy: Policy)
    requires Settled(s)
    ensures Settled(TryPush(s, value, policy).0) && TryPush(s, value, policy).0.capacity == s.capacity
    ensures policy == DropOldest ==>
              && TryPush(s, value, policy).0.queue == Suffix(s.queue + [value], s.capacity)
              && TryPush(s, value, policy).1 == Delivered
              && (TryPush(s, value, policy).2 <==> |s.queue| == s.capacity)
    ensures policy != DropOldest && |s.queue| < s.capacity ==>
              TryPush(s, value, policy).0.queue == s.queue + [value] && TryPush(s, value, policy).1 == Delivered
    ensures policy != DropOldest && |s.queue| == s.capacity ==>
              TryPush(s, value, policy) == (s, if policy == Wait then WouldBlock else Dropped, false)
  {
    if policy == DropOldest && Full(s) {
      assert s.queue[1..] + [value] == Suffix(s.queue + [value], s.capacity);
    }
  }

  /** A push on a closed subscriber reports that and changes nothing, whatever the policy. */
  lemma PushOnClosed<T>(s: Sub<T>, value: T, policy: Policy)
    requires s.closed
    ensures TryPush(s, value, policy) == (s, Closed, false)
  {
  }

  class Subscriber<T> {
    const capacity: nat
    var queue: seq<T>
    var available: nat
    var sealed: bool
    var closed: bool

    function State(): Sub<T>
      reads this
    {
      Sub(capacity, queue, available, sealed, closed)
    }

    constructor (capacity: nat)
      ensures State() == Fresh<T>(capacity) && Settled(State())
      ensures queue == [] && this.capacity == if capacity == 0 then 1 else capacity
    {
      var c := Max(capacity, 1);
      this.capacity := c;
      queue, available, sealed, closed := [], c, false, false;
    }

    method Close()
      modifies this
      ensures State() == old(State()).(closed := true, sealed := true)
    {
      closed := true;
      sealed := true;
    }

    method TryAcquire() returns (ok: bool)
      modifies this
      ensures ok == CanAcquire(old(State()))
      ensures State() == if CanAcquire(old(State())) then Acquired(old(State())) else old(State())
    {
      ok := !sealed && available > 0;
      if ok {
        available := available - 1;
      }
    }

    /** Enqueues for a caller that acquired a permit. */
    method Append(value: T) returns (ok: bool)
      modifies this
      ensures (State(), ok) == Enqueue(old(State()), value)
    {
      if closed || |queue| >= capacity {
        available := available + 1;
        return false;
      }
      queue := queue + [value];
      ok := true;
    }

    method Replace(value: T) returns (outcome: Outcome, evicted: bool)
      modifies this
      ensures (State(), outcome, evicted) == ReplaceOldest(old(State()), value)
    {
      if closed {
        return Closed, false;
      }
      evicted := false;
      if |queue| >= capacity {
        evicted := true;
        if queue != [] {
          queue := queue[1..];
          if !closed {
            available := available + 1;
          }
        }
      }
      var ok := TryAcquire();
      if !ok {
        return Closed, evicted;
      }
      queue := queue + [value];
      outcome := Delivered;
    }

    method Pop() returns (value: Option<T>)
      modifies this
      ensures old(queue) == [] ==> value == None && State() == old(State())
      ensures old(queue) != [] ==> value == Some(old(queue)[0]) && State() == Removed(old(State()))
    {
      if queue == [] {
        return None;
      }
      value := Some(queue[0]);
      queue := queue[1..];
      if !closed {
        available := available + 1;
      }
    }

    method Push(value: T, policy: Policy) returns (outcome: Outcome, evicted: bool)
      modifies this
      ensures (State(), outcome, evicted) == TryPush(old(State()), value, policy)
    {
      if closed {
        return Closed, false;
      }
      match policy
      case DropOldest =>
        outcome, evicted := Replace(value);
      case _ =>
        var permit := TryAcquire();
        if !permit {
          return if policy == Wait then WouldBlock else Dropped, false;
        }
        var ok := Append(value);
        outcome, evicted := if ok then Delivered else Closed, false;
    }
  }

  function Recorded(stats: Stats, outcome: Outcome, evicted: bool): Stats {
    var s := if evicted then stats.(dropped := stats.dropped + 1) else stats;
    match outcome
    case Delivered => s.(delivered := s.delivered + 1)
    case Dropped => s.(dropped := s.dropped + 1)
    case WouldBlock => s.(dropped := s.dropped + 1)
    case TimedOut => s.(timedOut := s.timedOut + 1)
    case Closed => s.(closed := s.closed + 1)
  }

  /** The counters after pushing to each subscriber in turn. */
  function RecordedAll<T>(stats: Stats, subs: seq<Sub<T>>, value: T, policy: Policy): Stats {
    if subs == [] then stats
    else
      var r := TryPush(Last(subs), value, policy);
      Recorded(RecordedAll(stats, Init(subs), value, policy), r.1, r.2)
  }

  /** The first outcome that is not a delivery, or a delivery when there is none. */
  function Aggregate<T>(subs: seq<Sub<T>>, value: T, policy: Policy): Outcome {
    if subs == [] then Delivered
    else
      var before := Aggregate(Init(subs), value, policy);
      if before == Delivered then TryPush(Last(subs), value, policy).1 else before
  }

  /**
   A publish reports a delivery exactly when every subscriber took the value; otherwise what the first
   subscriber that did not take it reported.
   */
  lemma {:induction false} AggregateIsFirstFailure<T>(subs: seq<Sub<T>>, value: T, policy: Policy) returns (i: nat)
    ensures Aggregate(subs, value, policy) == Delivered <==>
              forall k :: 0 <= k < |subs| ==> TryPush(subs[k], value, policy).1 == Delivered
    ensures Aggregate(subs, value, policy) != Delivered ==>
              && i < |subs| && TryPush(subs[i], value, policy).1 == Aggregate(subs, value, policy)
              && forall k :: 0 <= k < i ==> TryPush(subs[k], value, policy).1 == Delivered
  {
    i := 0;
    if subs != [] {
      i := AggregateIsFirstFailure(Init(subs), value, policy);
      assert forall k :: 0 <= k < |Init(subs)| ==> Init(subs)[k] == subs[k];
      if Aggregate(Init(subs), value, policy) == Delivered {
        i := |subs| - 1;
      }
    }
  }

  /** The subscribers that report this outcome. */
  ghost function Reporting<T>(subs: seq<Sub<T>>, value: T, policy: Policy, outcome: Outcome): set<nat> {
    set i: nat | i < |subs| && TryPush(subs[i], value, policy).1 == outcome
  }

  /** The subscribers that evict a value. */
  ghost function Evicting<T>(subs: seq<Sub<T>>, value: T, policy: Policy): set<nat> {
    set i: nat | i < |subs| && TryPush(subs[i], value, policy).2
  }

  lemma SameSize(before: set<nat>, all: set<nat>, last: nat)
    requires last !in before && forall k :: k in before ==> k in all
    requires forall k :: k in all ==> k in before || k == last
    ensures |all| == |before| + if last in all then 1 else 0
  {
    assert all == if last in all then before + {last} else before;
  }

  lemma ReportingSnoc<T>(subs: seq<Sub<T>>, value: T, policy: Policy, outcome: Outcome)
    requires subs != []
    ensures |Reporting(subs, value, policy, outcome)| ==
              |Reporting(Init(subs), value, policy, outcome)| +
              if TryPush(Last(subs), value, policy).1 == outcome then 1 else 0
  {
    var last := |subs| - 1;
    var before, all := Reporting(Init(subs), value, policy, outcome), Reporting(subs, value, policy, outcome);
    forall k: nat
      ensures k in all <==> k in before || (k == last && TryPush(Last(subs), value, policy).1 == outcome)
    {
      assert k < last ==> Init(subs)[k] == subs[k];
    }
    SameSize(before, all, last);
  }

  lemma EvictingSnoc<T>(subs: seq<Sub<T>>, value: T, policy: Policy)
    requires subs != []
    ensures |Evicting(subs, value, policy)| ==
              |Evicting(Init(subs), value, policy)| + if TryPush(Last(subs), value, policy).2 then 1 else 0
  {
    var last := |subs| - 1;
    var before, all := Evicting(Init(subs), value, policy), Evicting(subs, value, policy);
    forall k: nat
      ensures k in all <==> k in before || (k == last && TryPush(Last(subs), value, policy).2)
    {
      assert k < last ==> Init(subs)[k] == subs[k];
    }
    SameSize(before, all, last);
  }

  /**
   What a publish adds to the counters: deliveries, closed subscribers and timeouts as reported, and to the
   dropped counter both the values turned away and the values evicted.
   */
  lemma {:induction false} PublishCounts<T>(stats: Stats, subs: seq<Sub<T>>, value: T, policy: Policy)
    ensures var after := RecordedAll(stats, subs, value, policy);
            && after.published == stats.published
            && after.delivered == stats.delivered + |Reporting(subs, value, policy, Delivered)|
            && after.closed == stats.closed + |Reporting(subs, value, policy, Closed)|
            && after.timedOut == stats.timedOut + |Reporting(subs, value, policy, TimedOut)|
            && after.dropped == stats.dropped + |Evicting(subs, value, policy)| +
                 |Reporting(subs, value, policy, Dropped)| + |Reporting(subs, value, policy, WouldBlock)|
  {
    if subs == [] {
      assert Evicting(subs, value, policy) == {};
      assert forall outcome :: Reporting(subs, value, policy, outcome) == {};
    } else {
      PublishCounts(stats, Init(subs), value, policy);
      EvictingSnoc(subs, value, policy);
      ReportingSnoc(subs, value, policy, Delivered);
      ReportingSnoc(subs, value, policy, Dropped);
      ReportingSnoc(subs, value, policy, WouldBlock);
      ReportingSnoc(subs, value, policy, TimedOut);
      ReportingSnoc(subs, value, policy, Closed);
    }
  }

  ghost function PushedAll<T>(subs: seq<Sub<T>>, value: T, policy: Policy): seq<Sub<T>> {
    seq(|subs|, i requires 0 <= i < |subs| => TryPush(subs[i], value, policy).0)
  }

  class Bus<T> {
    var subscribers: seq<Subscriber<T>>
    var closed: bool
    var stats: Stats

    ghost function States(): seq<Sub<T>>
      reads this, subscribers
    {
      seq(|subscribers|, i requires 0 <= i < |subscribers| reads this, subscribers => subscribers[i].State())
    }

    constructor ()
      ensures subscribers == [] && !closed && stats == Stats(0, 0, 0, 0, 0)
    {
      subscribers, closed, stats := [], false, Stats(0, 0, 0, 0, 0);
    }

    method Record(outcome: Outcome, evicted: bool)
      modifies `stats
      ensures stats == Recorded(old(stats), outcome, evicted)
    {
      if evicted {
        stats := stats.(dropped := stats.dropped + 1);
      }
      match outcome
      case Delivered => stats := stats.(delivered := stats.delivered + 1);
      case Dropped => stats := stats.(dropped := stats.dropped + 1);
      case WouldBlock => stats := stats.(dropped := stats.dropped + 1);
      case TimedOut => stats := stats.(timedOut := stats.timedOut + 1);
      case Closed => stats := stats.(closed := stats.closed + 1);
    }

    method PublishWithPolicy(value: T, policy: Policy) returns (aggregate: Outcome)
      requires Distinct(subscribers)
      modifies this`stats, subscribers
      ensures old(closed) ==> aggregate == Closed && States() == old(States())
      ensures old(closed) ==> stats == Recorded(old(stats).(published := old(stats).published + 1), Closed, false)
      ensures !old(closed) ==> aggregate == Aggregate(old(States()), value, policy)
      ensures !old(closed) ==> States() == PushedAll(old(States()), value, policy)
      ensures !old(closed) ==>
                stats == RecordedAll(old(stats).(published := old(stats).published + 1), old(States()), value, policy)
    {
      ghost var before := States();
      stats := stats.(published := stats.published + 1);
      if closed {
        Record(Closed, false);
        return Closed;
      }
      aggregate := PushToAll(value, policy, before);
    }

    /** One turn of the publishing loop. */
    method PushTo(i: nat, value: T, policy: Policy, aggregate: Outcome) returns (next: Outcome)
      requires i < |subscribers|
      modifies this`stats, subscribers[i]
      ensures var r := TryPush(old(subscribers[i].State()), value, policy);
              && subscribers[i].State() == r.0
              && stats == Recorded(old(stats), r.1, r.2)
              && next == if aggregate == Delivered then r.1 else aggregate
    {
      var outcome, evicted := subscribers[i].Push(value, policy);
      Record(outcome, evicted);
      next := aggregate;
      if outcome != Delivered && aggregate == Delivered {
        next := outcome;
      }
    }

    method PushToAll(value: T, policy: Policy, ghost before: seq<Sub<T>>) returns (aggregate: Outcome)
      requires Distinct(subscribers) && |before| == |subscribers|
      requires forall k :: 0 <= k < |before| ==> subscribers[k].State() == before[k]
      modifies this`stats, subscribers
      ensures forall k :: 0 <= k < |before| ==> subscribers[k].State() == TryPush(before[k], value, policy).0
      ensures aggregate == Aggregate(before, value, policy)
      ensures stats == RecordedAll(old(stats), before, value, policy)
    {
      aggregate := Delivered;
      var i := 0;
      while i < |subscribers|
        invariant 0 <= i <= |subscribers|
        invariant forall k :: 0 <= k < i ==> subscribers[k].State() == TryPush(before[k], value, policy).0
        invariant forall k :: i <= k < |subscribers| ==> subscribers[k].State() == before[k]
        invariant aggregate == Aggregate(before[..i], value, policy)
        invariant stats == RecordedAll(old(stats), before[..i], value, policy)
      {
        aggregate := PushTo(i, value, policy, aggregate);
        i := i + 1;
        assert Init(before[..i]) == before[..i - 1];
      }
      assert before[..i] == before;
    }

    method Close()
      requires Distinct(subscribers)
      modifies this`closed, this`subscribers, subscribers
      ensures closed
      ensures old(closed) ==> subscribers == old(subscribers) && States() == old(States())
      ensures !old(closed) ==>
                && subscribers == []
                && forall s :: s in old(subscribers) ==> s.State() == old(s.State()).(closed := true, sealed := true)
    {
      if closed {
        return;
      }
      closed := true;
      var i := 0;
      while i < |subscribers|
        invariant 0 <= i <= |subscribers| && subscribers == old(subscribers) && closed
        invariant forall k :: 0 <= k < i ==>
                  subscribers[k].State() == old(subscribers[k].State()).(closed := true, sealed := true)
        invariant forall k :: i <= k < |subscribers| ==> subscribers[k].State() == old(subscribers[k].State())
      {
        subscribers[i].Close();
        i := i + 1;
      }
      subscribers := [];
    }
  }
}
