/** The queue's limits over every run: starts per time window, jobs at once, and cron firings. */
module JobQueueLimits {
  import opened Base
  import opened Cron
  import opened JobQueue
  import opened JobQueueRuns
  import CronFirings

  // ----- Configurations are fixed within a run -----

  lemma StepKeepsConfigs(cal: Calendar, s: State, e: Event, t: State)
    requires Numbered(s) && Step(cal, s, e, t)
    ensures t.configs == s.configs
  {
    if e.TickedOver? {
      InsertAllKeeps(s.(crons := RescheduledAll(cal, s.crons, e.now)), DueTemplates(s.crons, e.now), e.now);
    }
  }

  lemma {:induction false} RunKeepsConfigs(cal: Calendar, states: seq<State>, events: seq<Event>, n: nat)
    requires Run(cal, states, events) && n <= |events|
    ensures states[n].configs == states[0].configs
    decreases n
  {
    if n > 0 {
      RunKeepsConfigs(cal, states, events, n - 1);
      RunNumbered(cal, states, events, n - 1);
      assert StepAt(cal, states, events, n - 1);
      StepKeepsConfigs(cal, states[n - 1], events[n - 1], states[n]);
    }
  }

  // ----- Rate limit -----

  /** Times of the successful claims of `queue`, in order. */
  ghost function StartTimes(events: seq<Event>, queue: string): seq<U64> {
    if events == [] then []
    else
      StartTimes(Init(events), queue) +
      if SuccessfulClaim(Last(events)) && Last(events).queue == queue then [Last(events).now] else []
  }

  /** Any `maxStarts + 1` consecutive starts span at least `perSecs`. */
  ghost predicate Spaced(times: seq<U64>, limit: RateLimit) {
    forall i, j :: 0 <= i && i + limit.maxStarts <= j < |times| ==> times[i] + limit.perSecs <= times[j]
  }

  /** The recorded starts are the last of all starts; those forgotten are out of every window from now on. */
  ghost predicate Tracks(starts: seq<U64>, times: seq<U64>, limit: RateLimit, clock: U64) {
    && |starts| <= |times|
    && starts == times[|times| - |starts|..]
    && (forall i :: 0 <= i < |times| - |starts| ==> times[i] + limit.perSecs <= clock)
    && (forall i :: 0 <= i < |times| ==> times[i] <= clock)
  }

  lemma {:induction false} PruneTracks(starts: seq<U64>, times: seq<U64>, limit: RateLimit, clock: U64, now: U64)
    requires Tracks(starts, times, limit, clock) && clock <= now
    ensures Tracks(Pruned(starts, now, limit.perSecs), times, limit, now)
    decreases |starts|
  {
    if starts != [] && Expired(starts[0], now, limit.perSecs) {
      assert starts[0] == times[|times| - |starts|];
      assert Tracks(starts[1..], times, limit, now);
      PruneTracks(starts[1..], times, limit, now, now);
    }
  }

  lemma StartTracks(starts: seq<U64>, times: seq<U64>, limit: RateLimit, now: U64)
    requires Tracks(starts, times, limit, now) && Spaced(times, limit) && |starts| < limit.maxStarts
    ensures Tracks(starts + [now], times + [now], limit, now) && Spaced(times + [now], limit)
  {}

  /** Start times before and after a claim on their queue. */
  ghost predicate StartsMove(before: seq<U64>, now: U64, limit: RateLimit, started: bool, after: seq<U64>) {
    var recent := Pruned(before, now, limit.perSecs);
    if started then |recent| < limit.maxStarts && after == recent + [now] else after == before || after == recent
  }

  lemma ClaimStarts(s: State, queue: string, now: U64, result: Option<nat>, t: State, q: string, limit: RateLimit)
    requires ClaimStep(s, queue, now, result, t) && ConfigOf(s, q).rateLimit == Some(limit)
    ensures q != queue ==> StartsOf(t, q) == StartsOf(s, q)
    ensures q == queue ==> StartsMove(StartsOf(s, q), now, limit, result.Some?, StartsOf(t, q))
  {}

  lemma TracksMove(starts: seq<U64>, times: seq<U64>, limit: RateLimit, clock: U64, now: U64, started: bool,
      after: seq<U64>)
    requires Tracks(starts, times, limit, clock) && Spaced(times, limit) && clock <= now
    requires StartsMove(starts, now, limit, started, after)
    ensures var later := if started then times + [now] else times;
            Tracks(after, later, limit, now) && Spaced(later, limit)
  {
    PruneTracks(starts, times, limit, clock, now);
    if started {
      StartTracks(Pruned(starts, now, limit.perSecs), times, limit, now);
    }
  }

  lemma OtherStarts(cal: Calendar, s: State, e: Event, t: State)
    requires Numbered(s) && Step(cal, s, e, t) && !e.Claimed?
    ensures t.starts == s.starts
  {
    if e.TickedOver? {
      InsertAllKeeps(s.(crons := RescheduledAll(cal, s.crons, e.now)), DueTemplates(s.crons, e.now), e.now);
    }
  }

  ghost predicate Within(s: State, events: seq<Event>, queue: string, limit: RateLimit) {
    var times := StartTimes(events, queue);
    Tracks(StartsOf(s, queue), times, limit, Clock(events)) && Spaced(times, limit)
  }

  lemma StartTimesSnoc(events: seq<Event>, e: Event, queue: string)
    ensures SuccessfulClaim(e) && e.queue == queue ==>
              StartTimes(events + [e], queue) == StartTimes(events, queue) + [e.now]
    ensures !(SuccessfulClaim(e) && e.queue == queue) ==> StartTimes(events + [e], queue) == StartTimes(events, queue)
  {
    assert Init(events + [e]) == events;
    assert StartTimes(events, queue) + [] == StartTimes(events, queue);
  }

  lemma TracksLater(starts: seq<U64>, times: seq<U64>, limit: RateLimit, clock: U64, now: U64)
    requires Tracks(starts, times, limit, clock) && clock <= now
    ensures Tracks(starts, times, limit, now)
  {
  }

  lemma WithinFrom(t: State, events: seq<Event>, e: Event, queue: string, limit: RateLimit, times: seq<U64>)
    requires times == StartTimes(events + [e], queue) && Spaced(times, limit)
    requires Tracks(StartsOf(t, queue), times, limit, e.now)
    ensures Within(t, events + [e], queue, limit)
  {
    assert Clock(events + [e]) == e.now;
  }

  lemma ClaimStaysWithin(s: State, events: seq<Event>, e: Event, t: State, queue: string, limit: RateLimit)
    requires e.Claimed? && ClaimStep(s, e.queue, e.now, e.result, t) && ConfigOf(s, queue).rateLimit == Some(limit)
    requires Within(s, events, queue, limit) && Clock(events) <= e.now
    ensures Within(t, events + [e], queue, limit)
  {
    var starts, times, after := StartsOf(s, queue), StartTimes(events, queue), StartsOf(t, queue);
    ClaimStarts(s, e.queue, e.now, e.result, t, queue, limit);
    StartTimesSnoc(events, e, queue);
    if e.queue == queue {
      TracksMove(starts, times, limit, Clock(events), e.now, e.result.Some?, after);
    } else {
      TracksLater(starts, times, limit, Clock(events), e.now);
    }
    WithinFrom(t, events, e, queue, limit, StartTimes(events + [e], queue));
  }

  lemma OtherStaysWithin(s: State, events: seq<Event>, e: Event, t: State, queue: string, limit: RateLimit)
    requires !e.Claimed? && t.starts == s.starts
    requires Within(s, events, queue, limit) && Clock(events) <= e.now
    ensures Within(t, events + [e], queue, limit)
  {
    StartTimesSnoc(events, e, queue);
    TracksLater(StartsOf(s, queue), StartTimes(events, queue), limit, Clock(events), e.now);
    WithinFrom(t, events, e, queue, limit, StartTimes(events, queue));
  }

  lemma StepStaysWithin(cal: Calendar, s: State, events: seq<Event>, e: Event, t: State, queue: string,
      limit: RateLimit)
    requires Numbered(s) && Step(cal, s, e, t) && ConfigOf(s, queue).rateLimit == Some(limit)
    requires Within(s, events, queue, limit) && Clock(events) <= e.now
    ensures Within(t, events + [e], queue, limit)
  {
    if e.Claimed? {
      ClaimStaysWithin(s, events, e, t, queue, limit);
    } else {
      OtherStarts(cal, s, e, t);
      OtherStaysWithin(s, events, e, t, queue, limit);
    }
  }

  lemma {:induction false} RunStaysWithin(cal: Calendar, states: seq<State>, events: seq<Event>, n: nat,
      queue: string, limit: RateLimit)
    requires Run(cal, states, events) && n <= |events| && ConfigOf(states[0], queue).rateLimit == Some(limit)
    ensures Within(states[n], events[..n], queue, limit)
    decreases n
  {
    if n == 0 {
      FreshWithin(states[0], queue, limit);
      assert events[..0] == [];
    } else {
      RunStaysWithin(cal, states, events, n - 1, queue, limit);
      RunStepStaysWithin(cal, states, events, n - 1, queue, limit);
    }
  }

  lemma FreshWithin(s: State, queue: string, limit: RateLimit)
    requires Fresh(s)
    ensures Within(s, [], queue, limit)
  {}

  lemma RunStepStaysWithin(cal: Calendar, states: seq<State>, events: seq<Event>, i: nat, queue: string,
      limit: RateLimit)
    requires Run(cal, states, events) && i < |events| && ConfigOf(states[0], queue).rateLimit == Some(limit)
    requires Within(states[i], events[..i], queue, limit)
    ensures Within(states[i + 1], events[..i + 1], queue, limit)
  {
    RunKeepsConfigs(cal, states, events, i);
    RunNumbered(cal, states, events, i);
    ClockAdvances(cal, states, events, i);
    assert StepAt(cal, states, events, i);
    assert events[..i + 1] == events[..i] + [events[i]];
    StepStaysWithin(cal, states[i], events[..i], events[i], states[i + 1], queue, limit);
  }

  /** The positions of the starts in the half-open window that begins at `begin`. */
  ghost function InWindow(times: seq<U64>, begin: nat, length: nat): set<nat> {
    set i: nat | i < |times| && begin <= times[i] < begin + length
  }

  ghost function Range(lo: nat, n: nat): (r: set<nat>)
    ensures |r| == n && forall i :: i in r <==> lo <= i < lo + n
  {
    if n == 0 then {} else Range(lo, n - 1) + {lo + n - 1}
  }

  lemma SubsetSize(a: set<nat>, b: set<nat>)
    requires a <= b
    ensures |a| <= |b|
  {
    assert |b| == |a| + |b - a| by { assert b == a + (b - a); }
  }

  lemma {:induction false} LeastElement(s: set<nat>) returns (least: nat)
    requires s != {}
    ensures least in s && forall x :: x in s ==> least <= x
    decreases s
  {
    var any :| any in s;
    least := any;
    assert forall x :: x in s ==> x == any || x in s - {any};
    if s - {any} != {} {
      var other := LeastElement(s - {any});
      least := if other < any then other else any;
    }
  }

  lemma SpacedWindow(times: seq<U64>, limit: RateLimit, begin: nat)
    requires Spaced(times, limit)
    ensures |InWindow(times, begin, limit.perSecs)| <= limit.maxStarts
  {
    var inside := InWindow(times, begin, limit.perSecs);
    if inside != {} {
      var first := LeastElement(inside);
      SubsetSize(inside, Range(first, limit.maxStarts));
    }
  }

  /** No half-open window of `perSecs` seconds ever holds more than `maxStarts` successful claims of the queue. */
  lemma RateLimitHolds(cal: Calendar, states: seq<State>, events: seq<Event>, queue: string, limit: RateLimit,
      begin: nat)
    requires Run(cal, states, events) && ConfigOf(states[0], queue).rateLimit == Some(limit)
    ensures |InWindow(StartTimes(events, queue), begin, limit.perSecs)| <= limit.maxStarts
  {
    RunStaysWithin(cal, states, events, |events|, queue, limit);
    assert events[..|events|] == events;
    SpacedWindow(StartTimes(events, queue), limit, begin);
  }

  // ----- Concurrency -----

  lemma {:induction false} TotalGrows(a: map<nat, Job>, b: map<nat, Job>, m: nat, n: nat, weight: Job -> nat)
    requires m <= n
    requires forall id :: 1 <= id <= m ==> id in a && id in b && a[id] == b[id]
    requires forall id :: m < id <= n ==> id in b && weight(b[id]) == 0
    ensures Total(b, n, weight) == Total(a, m, weight)
    decreases n
  {
    if m < n {
      TotalGrows(a, b, m, n - 1, weight);
    } else {
      TotalSame(a, b, n, weight);
    }
  }

  lemma ClaimActive(s: State, queue: string, now: U64, result: Option<nat>, t: State, q: string)
    requires Numbered(s) && ClaimStep(s, queue, now, result, t)
    ensures ActiveCount(t, q) <= Max(ActiveCount(s, q), ConfigOf(s, q).concurrency)
  {
    PromoteKeepsTotals(s, queue, now, ActiveIn(q));
    if result.None? {
      ClaimFailedJobs(s, queue, now, t);
    } else {
      var jobs := Promote(s.jobs, queue, now);
      ClaimFindsRoom(s, queue, now, result.value, t);
      StartedActive(jobs, s.nextId, result.value, now, q);
    }
  }

  lemma StartedActive(jobs: map<nat, Job>, n: nat, id: nat, now: U64, q: string)
    requires id in jobs
    ensures Total(jobs[id := Started(jobs[id], now)], n, ActiveIn(q)) <=
              Total(jobs, n, ActiveIn(q)) + if jobs[id].spec.queue == q then 1 else 0
  {
    TotalUpdate(jobs, n, id, Started(jobs[id], now), ActiveIn(q));
  }

  lemma SettleActive(s: State, id: nat, j: Job, t: State, q: string)
    requires Numbered(s) && id in s.jobs && t.nextId == s.nextId && t.jobs == s.jobs[id := j] && j.state != Active
    ensures ActiveCount(t, q) <= ActiveCount(s, q)
  {
    TotalUpdate(s.jobs, s.nextId, id, j, ActiveIn(q));
  }

  lemma AddActive(s: State, t: State, ids: seq<nat>, now: U64, q: string)
    requires Numbered(s) && s.nextId <= t.nextId && Adds(s.jobs, t, ids, now)
    ensures ActiveCount(t, q) == ActiveCount(s, q)
  {
    forall id | s.nextId < id <= t.nextId ensures id in t.jobs && ActiveIn(q)(t.jobs[id]) == 0 {
      assert id in t.jobs && id !in s.jobs;
    }
    TotalGrows(s.jobs, t.jobs, s.nextId, t.nextId, ActiveIn(q));
  }

  lemma StepActive(cal: Calendar, s: State, e: Event, t: State, q: string)
    requires Numbered(s) && Step(cal, s, e, t)
    ensures ActiveCount(t, q) <= Max(ActiveCount(s, q), ConfigOf(s, q).concurrency)
  {
    match e
    case Claimed(queue, now, result) => ClaimActive(s, queue, now, result, t, q);
    case Finished(id, now, ok) => if ok { SettleActive(s, id, CompletedJob(s.jobs[id], now), t, q); }
    case Failed(id, now, ok) => if ok { SettleActive(s, id, FailedJob(s.jobs[id], now), t, q); }
    case Retried(id, now, ok) => if ok { SettleActive(s, id, RetriedJob(s.jobs[id], now), t, q); }
    case Enqueued(_, now, id) => AddActive(s, t, [id], now, q);
    case TickedOver(now, ids) =>
      TickAdds(cal, s, e, t);
      AddActive(s, t, ids, now, q);
    case Scheduled(_, _, _, _) =>
  }

  lemma {:induction false} RunActive(cal: Calendar, states: seq<State>, events: seq<Event>, n: nat, queue: string)
    requires Run(cal, states, events) && n <= |events|
    ensures ActiveCount(states[n], queue) <= ConfigOf(states[n], queue).concurrency
    decreases n
  {
    if n > 0 {
      RunActive(cal, states, events, n - 1, queue);
      RunKeepsConfigs(cal, states, events, n - 1);
      RunKeepsConfigs(cal, states, events, n);
      RunNumbered(cal, states, events, n - 1);
      assert StepAt(cal, states, events, n - 1);
      StepActive(cal, states[n - 1], events[n - 1], states[n], queue);
    }
  }

  /** The active jobs of a queue among those numbered up to `n`. */
  ghost function ActiveUpTo(jobs: map<nat, Job>, n: nat, queue: string): set<nat> {
    set id | id in jobs && 1 <= id <= n && jobs[id].spec.queue == queue && jobs[id].state == Active
  }

  ghost function ActiveJobs(s: State, queue: string): set<nat> {
    set id | id in s.jobs && s.jobs[id].spec.queue == queue && s.jobs[id].state == Active
  }

  lemma {:induction false} TotalActive(jobs: map<nat, Job>, n: nat, queue: string)
    ensures Total(jobs, n, ActiveIn(queue)) == |ActiveUpTo(jobs, n, queue)|
  {
    if n == 0 {
      assert ActiveUpTo(jobs, n, queue) == {};
    } else {
      TotalActive(jobs, n - 1, queue);
      var before := ActiveUpTo(jobs, n - 1, queue);
      if n in jobs && jobs[n].spec.queue == queue && jobs[n].state == Active {
        assert ActiveUpTo(jobs, n, queue) == before + {n};
      } else {
        assert ActiveUpTo(jobs, n, queue) == before;
      }
    }
  }

  lemma ActiveCountIsSize(s: State, queue: string)
    requires Numbered(s)
    ensures ActiveCount(s, queue) == |ActiveJobs(s, queue)|
  {
    TotalActive(s.jobs, s.nextId, queue);
    assert ActiveJobs(s, queue) == ActiveUpTo(s.jobs, s.nextId, queue);
  }

  /** How many jobs of the queue may be active at once: four unless the queue was configured. */
  function Concurrency(s: State, queue: string): nat {
    if queue in s.configs then s.configs[queue].concurrency else 4
  }

  /** At no point of a run are more jobs of a queue active than its concurrency allows. */
  lemma ConcurrencyHolds(cal: Calendar, states: seq<State>, events: seq<Event>, n: nat, queue: string)
    requires Run(cal, states, events) && n <= |events|
    ensures |ActiveJobs(states[n], queue)| <= Concurrency(states[0], queue)
  {
    RunActive(cal, states, events, n, queue);
    RunKeepsConfigs(cal, states, events, n);
    RunNumbered(cal, states, events, n);
    ActiveCountIsSize(states[n], queue);
  }

  // ----- Cron firings -----

  /** When each cron entry last fired, or was scheduled if it has not fired yet. */
  ghost function Anchors(states: seq<State>, events: seq<Event>, n: nat): seq<U64>
    requires n <= |events| < |states|
  {
    if n == 0 then []
    else
      var before := Anchors(states, events, n - 1);
      match events[n - 1]
      case Scheduled(_, _, _, now) => before + [now]
      case TickedOver(now, _) => Fired(states[n - 1].crons, before, now)
      case _ => before
  }

  /** The anchors after a tick: the entries that were due fired now. */
  ghost function Fired(crons: seq<CronEntry>, anchors: seq<U64>, now: U64): seq<U64> {
    if |crons| != |anchors| || crons == [] then []
    else Fired(Init(crons), Init(anchors), now) + [if Last(crons).nextRun <= now then now else Last(anchors)]
  }

  ghost predicate Anchored(cal: Calendar, crons: seq<CronEntry>, anchors: seq<U64>) {
    && |crons| == |anchors|
    && forall k :: 0 <= k < |crons| ==> crons[k].nextRun == NextRun(cal, crons[k].schedule, anchors[k])
  }

  lemma {:induction false} TickAnchors(cal: Calendar, crons: seq<CronEntry>, anchors: seq<U64>, now: U64)
    requires Anchored(cal, crons, anchors)
    ensures Anchored(cal, RescheduledAll(cal, crons, now), Fired(crons, anchors, now))
    decreases crons
  {
    if crons != [] {
      TickAnchors(cal, Init(crons), Init(anchors), now);
    }
  }

  lemma StepCrons(cal: Calendar, s: State, e: Event, t: State)
    requires Numbered(s) && Step(cal, s, e, t)
    ensures match e
            case Scheduled(name, schedule, template, now) =>
              t.crons == s.crons + [CronEntry(name, schedule, template, NextRun(cal, schedule, now))]
            case TickedOver(now, _) => t.crons == RescheduledAll(cal, s.crons, now)
            case _ => t.crons == s.crons
  {
    if e.TickedOver? {
      InsertAllKeeps(s.(crons := RescheduledAll(cal, s.crons, e.now)), DueTemplates(s.crons, e.now), e.now);
    }
  }

  lemma {:induction false} RunAnchored(cal: Calendar, states: seq<State>, events: seq<Event>, n: nat)
    requires Run(cal, states, events) && n <= |events|
    ensures Anchored(cal, states[n].crons, Anchors(states, events, n))
    decreases n
  {
    if n > 0 {
      RunAnchored(cal, states, events, n - 1);
      RunNumbered(cal, states, events, n - 1);
      assert StepAt(cal, states, events, n - 1);
      StepCrons(cal, states[n - 1], events[n - 1], states[n]);
      if events[n - 1].TickedOver? {
        TickAnchors(cal, states[n - 1].crons, Anchors(states, events, n - 1), events[n - 1].now);
      }
    }
  }

  /**
   A tick fires a cron entry exactly when the first firing of its schedule found since the entry last fired (or
   was scheduled) is no later than now, or when now is 2^64 - 1, the mark for "never". For an entry whose search
   stays below 2^64, that is when some minute of the horizon after that time and no later than now matches.
   */
  lemma EntryFiresIff(cal: Calendar, states: seq<State>, events: seq<Event>, n: nat, k: nat)
    requires Run(cal, states, events) && n < |events| && events[n].TickedOver? && k < |states[n].crons|
    ensures |Anchors(states, events, n)| == |states[n].crons|
    ensures var entry, since, now := states[n].crons[k], Anchors(states, events, n)[k], events[n].now;
            && (entry.nextRun <= now <==>
                 now == U64_MAX || exists t: U64 :: t <= now && FirstFiring(cal, entry.schedule, since, t))
            && (InReach(since) ==>
                 (entry.nextRun <= now <==>
                   now == U64_MAX || exists t: U64 :: t <= now && Firing(cal, entry.schedule, since, t)))
  {
    RunAnchored(cal, states, events, n);
    NextRunIff(cal, states[n].crons[k].schedule, Anchors(states, events, n)[k], events[n].now);
  }

  /** The same told from the text: for an entry read from these fields, when they fire in that time. */
  lemma EntryFiresAsWritten(cal: Calendar, states: seq<State>, events: seq<Event>, n: nat, k: nat, fields: seq<string>)
    requires Run(cal, states, events) && n < |events| && events[n].TickedOver? && k < |states[n].crons|
    requires ReadsFields(fields, states[n].crons[k].schedule)
    ensures |Anchors(states, events, n)| == |states[n].crons|
    ensures var entry, since, now := states[n].crons[k], Anchors(states, events, n)[k], events[n].now;
            InReach(since) ==>
              (entry.nextRun <= now <==>
                now == U64_MAX || exists t: U64 :: t <= now && CronFirings.Fires(cal, fields, since, t))
  {
    EntryFiresIff(cal, states, events, n, k);
    var entry, since := states[n].crons[k], Anchors(states, events, n)[k];
    if InReach(since) {
      forall t: U64
        ensures Firing(cal, entry.schedule, since, t) <==> CronFirings.Fires(cal, fields, since, t)
      {
        CronFirings.FiringIff(cal, fields, entry.schedule, since, t);
      }
    }
  }

  lemma NextRunIff(cal: Calendar, schedule: Schedule, since: U64, now: U64)
    ensures NextRun(cal, schedule, since) <= now <==>
              now == U64_MAX || exists t: U64 :: t <= now && FirstFiring(cal, schedule, since, t)
    ensures InReach(since) ==>
              (NextRun(cal, schedule, since) <= now <==>
                now == U64_MAX || exists t: U64 :: t <= now && Firing(cal, schedule, since, t))
  {
    NextAfterIsLeast(cal, schedule, since);
    var next := NextAfter(cal, schedule, since);
    forall t: U64 | FirstFiring(cal, schedule, since, t)
      ensures next == Some(t)
    {
      FirstFiringUnique(cal, schedule, since, t);
    }
  }

  lemma TickDue(cal: Calendar, s: State, now: U64, t: State, ids: seq<nat>, k: nat)
    requires Numbered(s) && Step(cal, s, TickedOver(now, ids), t)
    ensures |ids| == |DueTemplates(s.crons, now)|
    ensures k < |ids| ==> ids[k] in t.jobs && t.jobs[ids[k]] == NewJob(ids[k], DueTemplates(s.crons, now)[k], now)
  {
    TickInserts(cal, s, TickedOver(now, ids), t);
    if k < |ids| {
      InsertAllAt(s.(crons := RescheduledAll(cal, s.crons, now)), DueTemplates(s.crons, now), now, k);
      assert ids[k] == s.nextId + 1 + k;
    }
  }

  lemma InsertAllAt(s: State, specs: seq<JobSpec>, now: U64, k: nat)
    requires Numbered(s) && k < |specs|
    ensures var t, id := InsertAll(s, specs, now), s.nextId + 1 + k;
            id in t.jobs && t.jobs[id] == NewJob(id, specs[k], now)
  {
    InsertAllJob(s, specs, now, s.nextId + 1 + k);
  }

  /** `fired` are the positions of the due entries, in order, and `due` their templates. */
  ghost predicate Fires(crons: seq<CronEntry>, now: U64, fired: seq<nat>, due: seq<JobSpec>) {
    && |fired| == |due|
    && (forall i, j :: 0 <= i < j < |fired| ==> fired[i] < fired[j])
    && (forall i :: 0 <= i < |fired| ==> fired[i] < |crons| && due[i] == crons[fired[i]].template)
    && (forall k :: 0 <= k < |crons| ==> (k in fired <==> crons[k].nextRun <= now))
  }

  lemma FiresSnoc(crons: seq<CronEntry>, now: U64, fired: seq<nat>, due: seq<JobSpec>)
    requires crons != [] && Fires(Init(crons), now, fired, due)
    ensures Last(crons).nextRun <= now ==> Fires(crons, now, fired + [|crons| - 1], due + [Last(crons).template])
    ensures Last(crons).nextRun > now ==> Fires(crons, now, fired, due)
  {
    var last, more := |crons| - 1, fired + [|crons| - 1];
    assert more[|fired|] == last && forall k :: k in fired ==> k in more;
    assert forall k :: k in fired ==> k < last;
    assert forall k :: 0 <= k < last ==> Init(crons)[k] == crons[k];
  }

  lemma {:induction false} DueInOrder(crons: seq<CronEntry>, now: U64) returns (fired: seq<nat>)
    ensures Fires(crons, now, fired, DueTemplates(crons, now))
    decreases crons
  {
    fired := [];
    if crons != [] {
      fired := DueInOrder(Init(crons), now);
      FiresSnoc(crons, now, fired, DueTemplates(Init(crons), now));
      if Last(crons).nextRun <= now {
        fired := fired + [|crons| - 1];
      } else {
        assert DueTemplates(Init(crons), now) + [] == DueTemplates(Init(crons), now);
      }
    }
  }

  /** The jobs of a tick: one for each due entry and no other, made from its template, in the order of the entries. */
  lemma TickEnqueuesDue(cal: Calendar, states: seq<State>, events: seq<Event>, n: nat) returns (fired: seq<nat>)
    requires Run(cal, states, events) && n < |events| && events[n].TickedOver?
    ensures var crons, now, ids := states[n].crons, events[n].now, events[n].ids;
            && |fired| == |ids| && (forall i, j :: 0 <= i < j < |fired| ==> fired[i] < fired[j])
            && (forall k :: 0 <= k < |crons| ==> (k in fired <==> crons[k].nextRun <= now))
            && (forall i :: 0 <= i < |ids| ==>
                 && fired[i] < |crons| && ids[i] in states[n + 1].jobs
                 && states[n + 1].jobs[ids[i]] == NewJob(ids[i], crons[fired[i]].template, now))
  {
    var ids := events[n].ids;
    fired := DueInOrder(states[n].crons, events[n].now);
    RunNumbered(cal, states, events, n);
    assert StepAt(cal, states, events, n);
    TickDue(cal, states[n], events[n].now, states[n + 1], ids, 0);
    forall i | 0 <= i < |ids|
      ensures ids[i] in states[n + 1].jobs
      ensures states[n + 1].jobs[ids[i]] == NewJob(ids[i], states[n].crons[fired[i]].template, events[n].now)
    {
      TickDue(cal, states[n], events[n].now, states[n + 1], ids, i);
    }
  }
}
