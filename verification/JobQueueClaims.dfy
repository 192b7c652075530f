/** Claims told from the history: when a job is due, when a claim finds one, and which one it takes. */
module JobQueueClaims {
  import opened Base
  import opened Cron
  import opened JobQueue
  import opened JobQueueRuns
  import opened JobQueueLimits

  // ----- The times of a job -----

  /** A job with a start time waits for it. */
  ghost function FirstDue(spec: JobSpec, now: U64): U64 {
    if spec.runAt.Some? then spec.runAt.value else now
  }

  /** When job `id` may be claimed: as enqueued, a backoff after its last failure, or since it was retried by hand. */
  ghost function DueAt(spec: JobSpec, events: seq<Event>, id: nat): U64 {
    if events == [] then 0
    else
      match Last(events)
      case Enqueued(_, now, i) => if i == id then FirstDue(spec, now) else DueAt(spec, Init(events), id)
      case TickedOver(now, ids) => if id in ids then FirstDue(spec, now) else DueAt(spec, Init(events), id)
      case Failed(i, now, ok) =>
        if i == id && ok then Wrap(now + Delay(spec.backoff, Failures(events, id))) else DueAt(spec, Init(events), id)
      case Retried(i, now, ok) => if i == id && ok then now else DueAt(spec, Init(events), id)
      case _ => DueAt(spec, Init(events), id)
  }

  /** When job `id` was enqueued. */
  ghost function CreatedAt(events: seq<Event>, id: nat): U64 {
    if events == [] then 0
    else
      match Last(events)
      case Enqueued(_, now, i) => if i == id then now else CreatedAt(Init(events), id)
      case TickedOver(now, ids) => if id in ids then now else CreatedAt(Init(events), id)
      case _ => CreatedAt(Init(events), id)
  }

  /** When job `id` was last claimed, if it was. */
  ghost function StartedAt(events: seq<Event>, id: nat): Option<U64> {
    if events == [] then None
    else if ClaimOf(Last(events), id) then Some(Last(events).now)
    else StartedAt(Init(events), id)
  }

  /** When an attempt of job `id` last ended, if one did. */
  ghost function EndedAt(events: seq<Event>, id: nat): Option<U64> {
    if events == [] then None
    else
      var e := Last(events);
      if (e.Finished? || e.Failed?) && e.id == id && e.ok then Some(e.now) else EndedAt(Init(events), id)
  }

  /** The job's times are those of the history. */
  ghost predicate Stamped(j: Job, events: seq<Event>, id: nat) {
    && (Pending(j) ==> j.availableAt == DueAt(j.spec, events, id))
    && j.createdAt == CreatedAt(events, id)
    && j.startedAt == StartedAt(events, id)
    && j.finishedAt == if j.state == Completed || j.state == Dead then EndedAt(events, id) else None
  }

  /** The event is not the insertion of job `id`. */
  ghost predicate NotInsertion(e: Event, id: nat) {
    && (e.Enqueued? ==> e.id != id)
    && (e.TickedOver? ==> id !in e.ids)
  }

  /** What the event says of job `id`: an attempt ended, or it was retried by hand. */
  ghost predicate Ends(e: Event, id: nat) {
    (e.Finished? || e.Failed?) && e.id == id && e.ok
  }

  ghost predicate Retries(e: Event, id: nat) {
    e.Retried? && e.id == id && e.ok
  }

  lemma DueSnoc(spec: JobSpec, events: seq<Event>, e: Event, id: nat)
    requires NotInsertion(e, id)
    ensures DueAt(spec, events + [e], id) ==
              if Ends(e, id) && e.Failed? then Wrap(e.now + Delay(spec.backoff, Failures(events, id) + 1))
              else if Retries(e, id) then e.now
              else DueAt(spec, events, id)
  {
    assert Init(events + [e]) == events;
  }

  lemma TimesSnoc(events: seq<Event>, e: Event, id: nat)
    requires NotInsertion(e, id)
    ensures CreatedAt(events + [e], id) == CreatedAt(events, id)
    ensures StartedAt(events + [e], id) == if ClaimOf(e, id) then Some(e.now) else StartedAt(events, id)
    ensures EndedAt(events + [e], id) == if Ends(e, id) then Some(e.now) else EndedAt(events, id)
  {
    assert Init(events + [e]) == events;
  }

  /** One event moves job `id` from `j` to `k`, as events of a run do. */
  ghost predicate Moves(j: Job, e: Event, k: Job, id: nat) {
    && j.id == id && JobMove(j, e, k) && NotInsertion(e, id)
    && (Ends(e, id) ==> j.state == Active)
    && (Retries(e, id) ==> j.state == Dead)
  }

  lemma MoveDue(j: Job, e: Event, k: Job, id: nat, due: U64, failures: nat)
    requires Moves(j, e, k, id) && (Pending(j) ==> j.availableAt == due)
    requires j.state == Active ==> j.attempts == failures + 1
    ensures Pending(k) ==>
              k.spec == j.spec &&
              k.availableAt ==
                if Ends(e, id) && e.Failed? then Wrap(e.now + Delay(j.spec.backoff, failures + 1))
                else if Retries(e, id) then e.now
                else due
  {
  }

  lemma MoveTimes(j: Job, e: Event, k: Job, id: nat, ended: Option<U64>)
    requires Moves(j, e, k, id)
    requires j.finishedAt == if j.state == Completed || j.state == Dead then ended else None
    ensures k.createdAt == j.createdAt
    ensures k.startedAt == if ClaimOf(e, id) then Some(e.now) else j.startedAt
    ensures k.finishedAt ==
              if k.state == Completed || k.state == Dead then if Ends(e, id) then Some(e.now) else ended else None
  {
  }

  lemma MoveStamps(j: Job, events: seq<Event>, e: Event, k: Job, id: nat, clock: U64)
    requires Stamped(j, events, id) && Moves(j, e, k, id) && InOrder(j, clock, Failures(events, id))
    ensures Stamped(k, events + [e], id)
  {
    DueSnoc(j.spec, events, e, id);
    TimesSnoc(events, e, id);
    MoveDue(j, e, k, id, DueAt(j.spec, events, id), Failures(events, id));
    MoveTimes(j, e, k, id, EndedAt(events, id));
  }

  lemma InsertionStamps(spec: JobSpec, events: seq<Event>, e: Event, id: nat)
    requires (e.Enqueued? && e.id == id) || (e.TickedOver? && id in e.ids)
    requires StartedAt(events, id) == None
    ensures Stamped(NewJob(id, spec, e.now), events + [e], id)
  {
    assert Init(events + [e]) == events && Last(events + [e]) == e;
  }

  /** Nothing happens to a job before it is inserted. */
  lemma {:induction false} UnknownNeverStarted(cal: Calendar, states: seq<State>, events: seq<Event>, n: nat, id: nat)
    requires Run(cal, states, events) && n <= |events| && id !in states[n].jobs
    ensures StartedAt(events[..n], id) == None
    decreases n
  {
    if n > 0 {
      assert Init(events[..n]) == events[..n - 1];
      if id in states[n - 1].jobs {
        RunMoves(cal, states, events, n - 1, id);
      } else {
        UnknownNeverStarted(cal, states, events, n - 1, id);
        if ClaimOf(events[n - 1], id) {
          ClaimTakesFirstReady(cal, states, events, n - 1, id);
        }
      }
    }
  }

  /** What a step inserts, it says. */
  lemma StepInserts(cal: Calendar, s: State, e: Event, t: State, id: nat)
    requires Numbered(s) && Step(cal, s, e, t) && id in t.jobs
    ensures id in s.jobs <==> NotInsertion(e, id)
    ensures id !in s.jobs ==> e.Enqueued? || e.TickedOver?
  {
    match e
    case TickedOver(_, _) => TickAdds(cal, s, e, t);
    case Claimed(queue, now, result) => ClaimHasEffect(s, queue, now, result, t);
    case _ =>
  }

  lemma RunInserts(cal: Calendar, states: seq<State>, events: seq<Event>, i: nat, id: nat)
    requires Run(cal, states, events) && i < |events| && id in states[i + 1].jobs
    ensures id in states[i].jobs <==> NotInsertion(events[i], id)
    ensures id !in states[i].jobs ==> events[i].Enqueued? || events[i].TickedOver?
  {
    RunNumbered(cal, states, events, i);
    assert StepAt(cal, states, events, i);
    StepInserts(cal, states[i], events[i], states[i + 1], id);
  }

  /**
   In every reachable state the times of a job are those of its history: when it was enqueued, when it was last
   claimed, when its last attempt ended if it is done or dead, and, while it waits, when it is due.
   */
  lemma {:induction false} RunStamps(cal: Calendar, states: seq<State>, events: seq<Event>, n: nat, id: nat)
    requires Run(cal, states, events) && n <= |events| && id in states[n].jobs
    ensures Stamped(states[n].jobs[id], events[..n], id)
    decreases n
  {
    if n > 0 {
      var e := events[n - 1];
      assert events[..n] == events[..n - 1] + [e];
      RunInserts(cal, states, events, n - 1, id);
      if id in states[n - 1].jobs {
        RunStamps(cal, states, events, n - 1, id);
        RunMoves(cal, states, events, n - 1, id);
        RunKeepsOrder(cal, states, events, n - 1);
        MoveStamps(states[n - 1].jobs[id], events[..n - 1], e, states[n].jobs[id], id, Clock(events[..n - 1]));
      } else {
        RunAdds(cal, states, events, n - 1, id);
        UnknownNeverStarted(cal, states, events, n - 1, id);
        InsertionStamps(states[n].jobs[id].spec, events[..n - 1], e, id);
      }
    }
  }

  // ----- Due jobs -----

  /** The job belongs to the queue, is waiting or delayed, and its time has come. */
  ghost predicate IsDue(j: Job, events: seq<Event>, queue: string, now: U64) {
    j.spec.queue == queue && Pending(j) && DueAt(j.spec, events, j.id) <= now
  }

  lemma ReadyIffDue(cal: Calendar, states: seq<State>, events: seq<Event>, n: nat, id: nat, queue: string, now: U64)
    requires Run(cal, states, events) && n <= |events| && id in states[n].jobs && Clock(events[..n]) <= now
    ensures Ready(states[n].jobs[id], queue, now) <==> IsDue(states[n].jobs[id], events[..n], queue, now)
    ensures states[n].jobs[id].id == id
  {
    RunStamps(cal, states, events, n, id);
    RunKeepsOrder(cal, states, events, n);
    assert InOrder(states[n].jobs[id], Clock(events[..n]), Failures(events[..n], id));
  }

  /** `a` goes before `b`: by priority, then by when they became due, then by number. */
  ghost predicate Precedes(a: Job, b: Job, events: seq<Event>) {
    && (b.spec.priority == High ==> a.spec.priority == High)
    && (a.spec.priority == Low ==> b.spec.priority == Low)
    && (a.spec.priority == b.spec.priority ==>
         var x, y := DueAt(a.spec, events, a.id), DueAt(b.spec, events, b.id);
         x < y || (x == y && a.id < b.id))
  }

  /** A successful claim takes a due job of its queue that goes before every other due job of it. */
  lemma ClaimTakesFirstDue(cal: Calendar, states: seq<State>, events: seq<Event>, n: nat, id: nat)
    requires Run(cal, states, events) && n < |events| && ClaimOf(events[n], id)
    ensures var jobs, before, queue, now := states[n].jobs, events[..n], events[n].queue, events[n].now;
            && id in jobs && IsDue(jobs[id], before, queue, now)
            && forall other :: other in jobs && other != id && IsDue(jobs[other], before, queue, now) ==>
                 Precedes(jobs[id], jobs[other], before)
  {
    var jobs, before, queue, now := states[n].jobs, events[..n], events[n].queue, events[n].now;
    ClaimTakesFirstReady(cal, states, events, n, id);
    ClockAdvances(cal, states, events, n);
    ReadyIffDue(cal, states, events, n, id, queue, now);
    RunStamps(cal, states, events, n, id);
    forall other | other in jobs && other != id && IsDue(jobs[other], before, queue, now)
      ensures Precedes(jobs[id], jobs[other], before)
    {
      ReadyIffDue(cal, states, events, n, other, queue, now);
      RunStamps(cal, states, events, n, other);
    }
  }

  /** No claim takes a job before the start time it was enqueued with. */
  lemma {:induction false} NeverBeforeStartTime(cal: Calendar, states: seq<State>, events: seq<Event>, n: nat, id: nat)
    requires Run(cal, states, events) && n < |events| && ClaimOf(events[n], id) && id in states[n].jobs
    ensures var runAt := states[n].jobs[id].spec.runAt; runAt.Some? ==> events[n].now >= runAt.value
    decreases n
  {
    var i := Insertion(cal, states, events, n, id);
    if m :| i < m < n && ClaimOf(events[m], id) {
      SpecStays(cal, states, events, i + 1, m, id);
      SpecStays(cal, states, events, i + 1, n, id);
      NeverBeforeStartTime(cal, states, events, m, id);
      assert events[m].now <= events[n].now;
    } else {
      PendingUntilClaimed(cal, states, events, i + 1, n, id);
      ClaimTakesFirstReady(cal, states, events, n, id);
    }
  }

  /** After a failure with more attempts to come, a job with a fixed backoff is due that many seconds later. */
  lemma FixedBackoffDue(spec: JobSpec, events: seq<Event>, id: nat, now: U64, secs: U64)
    requires spec.backoff == Fixed(secs) && now + secs <= U64_MAX
    ensures DueAt(spec, events + [Failed(id, now, true)], id) == now + secs
  {
    assert Last(events + [Failed(id, now, true)]) == Failed(id, now, true);
  }

  // ----- When a claim finds nothing -----

  /** The starts within the last `perSecs` seconds. */
  ghost function Recent(times: seq<U64>, perSecs: U64, now: U64): set<nat> {
    set i: nat | i < |times| && times[i] + perSecs > now
  }

  ghost predicate Ascending(times: seq<U64>) {
    forall i, j :: 0 <= i < j < |times| ==> times[i] <= times[j]
  }

  lemma AscendingSnoc(times: seq<U64>, clock: U64, now: U64)
    requires Ascending(times) && clock <= now && forall i :: 0 <= i < |times| ==> times[i] <= clock
    ensures Ascending(times + [now]) && forall i :: 0 <= i < |times + [now]| ==> (times + [now])[i] <= now
  {
  }

  lemma {:induction false} StartTimesAscend(cal: Calendar, states: seq<State>, events: seq<Event>, n: nat,
      queue: string)
    requires Run(cal, states, events) && n <= |events|
    ensures var times := StartTimes(events[..n], queue);
            Ascending(times) && forall i :: 0 <= i < |times| ==> times[i] <= Clock(events[..n])
    decreases n
  {
    if n > 0 {
      StartTimesAscend(cal, states, events, n - 1, queue);
      ClockAdvances(cal, states, events, n - 1);
      assert events[..n] == events[..n - 1] + [events[n - 1]];
      StartTimesSnoc(events[..n - 1], events[n - 1], queue);
      AscendingSnoc(StartTimes(events[..n - 1], queue), Clock(events[..n - 1]), events[n - 1].now);
    }
  }

  lemma {:induction false} PrunedHead(starts: seq<U64>, now: U64, perSecs: U64)
    ensures var recent := Pruned(starts, now, perSecs); recent == [] || !Expired(recent[0], now, perSecs)
  {
    if starts != [] && Expired(starts[0], now, perSecs) {
      PrunedHead(starts[1..], now, perSecs);
    }
  }

  /** What the rate limiter counts are the starts within its window. */
  lemma PrunedIsRecent(starts: seq<U64>, times: seq<U64>, limit: RateLimit, clock: U64, now: U64)
    requires Tracks(starts, times, limit, clock) && Ascending(times) && clock <= now
    ensures |Pruned(starts, now, limit.perSecs)| == |Recent(times, limit.perSecs, now)|
  {
    var recent := Pruned(starts, now, limit.perSecs);
    var first := |times| - |recent|;
    PruneTracks(starts, times, limit, clock, now);
    PrunedHead(starts, now, limit.perSecs);
    forall i: nat | first <= i < |times|
      ensures times[i] + limit.perSecs > now
    {
      assert times[first] == recent[0] && times[first] <= times[i];
    }
    assert Recent(times, limit.perSecs, now) == Range(first, |recent|);
  }

  /** The limiter counts as many recent starts as it allows. */
  ghost predicate Limited(s: State, queue: string, now: U64) {
    var limit := ConfigOf(s, queue).rateLimit;
    limit.Some? && |Pruned(StartsOf(s, queue), now, limit.value.perSecs)| >= limit.value.maxStarts
  }

  lemma LimitedIff(s: State, queue: string, now: U64)
    ensures RateLimited(AfterPruning(s, queue, now), queue) <==> Limited(s, queue, now)
    ensures AfterPruning(s, queue, now).jobs == s.jobs
  {
  }

  lemma StartNoneIff(s: State, queue: string, now: U64, result: Option<nat>, t: State)
    requires StartStep(s, queue, now, result, t)
    ensures result.None? <==> Limited(s, queue, now) || NoneRunnable(s.jobs, queue)
  {
    LimitedIff(s, queue, now);
  }

  lemma NoneReady(s: State, queue: string, now: U64)
    ensures NoneRunnable(AfterPromotion(s, queue, now).jobs, queue) <==>
              forall id :: id in s.jobs ==> !Ready(s.jobs[id], queue, now)
  {
    var jobs := AfterPromotion(s, queue, now).jobs;
    assert forall id :: id in s.jobs ==> (Runnable(jobs[id], queue) <==> Ready(s.jobs[id], queue, now));
  }

  lemma ClaimNoneIff(s: State, queue: string, now: U64, result: Option<nat>, t: State)
    requires Numbered(s) && ClaimStep(s, queue, now, result, t)
    ensures result.None? <==>
              || ActiveCount(s, queue) >= ConfigOf(s, queue).concurrency
              || Limited(s, queue, now)
              || (forall id :: id in s.jobs ==> !Ready(s.jobs[id], queue, now))
  {
    var promoted := AfterPromotion(s, queue, now);
    PromoteKeepsTotals(s, queue, now, ActiveIn(queue));
    NoneReady(s, queue, now);
    if ActiveCount(promoted, queue) < ConfigOf(s, queue).concurrency {
      StartNoneIff(promoted, queue, now, result, t);
    }
  }

  /** The queue has used up the starts its rate limit allows at `now`. */
  ghost predicate Exhausted(s: State, queue: string, times: seq<U64>, now: U64) {
    && queue in s.configs && s.configs[queue].rateLimit.Some?
    && var limit := s.configs[queue].rateLimit.value;
       |Recent(times, limit.perSecs, now)| >= limit.maxStarts
  }

  /**
   A claim finds nothing if and only if no job of the queue is due, or as many are active as may be, or the
   starts of the last `per_secs` seconds are as many as the rate limit allows. Nothing else holds a claim up.
   */
  lemma ClaimFindsNothingIff(cal: Calendar, states: seq<State>, events: seq<Event>, n: nat)
    requires Run(cal, states, events) && n < |events| && events[n].Claimed?
    ensures var jobs, before, queue, now := states[n].jobs, events[..n], events[n].queue, events[n].now;
            events[n].result.None? <==>
              || (forall id :: id in jobs ==> !IsDue(jobs[id], before, queue, now))
              || |ActiveJobs(states[n], queue)| >= Concurrency(states[0], queue)
              || Exhausted(states[0], queue, StartTimes(before, queue), now)
  {
    var s, before, queue, now := states[n], events[..n], events[n].queue, events[n].now;
    assert StepAt(cal, states, events, n);
    RunNumbered(cal, states, events, n);
    RunKeepsConfigs(cal, states, events, n);
    ClockAdvances(cal, states, events, n);
    ClaimNoneIff(s, queue, now, events[n].result, states[n + 1]);
    ActiveCountIsSize(s, queue);
    forall id | id in s.jobs
      ensures Ready(s.jobs[id], queue, now) <==> IsDue(s.jobs[id], before, queue, now)
    {
      ReadyIffDue(cal, states, events, n, id, queue, now);
    }
    var limit := ConfigOf(s, queue).rateLimit;
    if limit.Some? {
      RunStaysWithin(cal, states, events, n, queue, limit.value);
      StartTimesAscend(cal, states, events, n, queue);
      PrunedIsRecent(StartsOf(s, queue), StartTimes(before, queue), limit.value, Clock(before), now);
    }
  }
}
