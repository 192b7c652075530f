/** What holds over every run of the job queue, with a clock that never goes back. */
module JobQueueRuns {
  import opened Base
  import opened Cron
  import opened JobQueue

  datatype Event =
    | Enqueued(spec: JobSpec, now: U64, id: nat)
    | Claimed(queue: string, now: U64, result: Option<nat>)
    | Finished(id: nat, now: U64, ok: bool)
    | Failed(id: nat, now: U64, ok: bool)
    | Retried(id: nat, now: U64, ok: bool)
    | Scheduled(name: string, schedule: Schedule, template: JobSpec, now: U64)
    | TickedOver(now: U64, ids: seq<nat>)

  /** The call `e` on `s` had the recorded outcome and left `t`. A rejected cron expression is no event. */
  ghost predicate Step(cal: Calendar, s: State, e: Event, t: State) {
    match e
    case Enqueued(spec, now, id) => id == s.nextId + 1 && t == InsertJob(s, spec, now)
    case Claimed(queue, now, result) => ClaimStep(s, queue, now, result, t)
    case Finished(id, now, ok) =>
      ok == IsActive(s, id) && t == if ok then s.(jobs := s.jobs[id := CompletedJob(s.jobs[id], now)]) else s
    case Failed(id, now, ok) =>
      ok == IsActive(s, id) && t == if ok then s.(jobs := s.jobs[id := FailedJob(s.jobs[id], now)]) else s
    case Retried(id, now, ok) =>
      ok == (id in s.jobs && s.jobs[id].state == Dead) &&
      t == if ok then s.(jobs := s.jobs[id := RetriedJob(s.jobs[id], now)]) else s
    case Scheduled(name, schedule, template, now) =>
      NextAfter(cal, schedule, now).Some? &&
      t == s.(crons := s.crons + [CronEntry(name, schedule, template, NextRun(cal, schedule, now))])
    case TickedOver(now, ids) =>
      t == Ticked(cal, s, now) && t.nextId >= s.nextId && ids == Numbers(s.nextId + 1, t.nextId - s.nextId)
  }

  /** A queue that has been configured and not yet used. */
  ghost predicate Fresh(s: State) {
    s.nextId == 0 && s.jobs == map[] && s.starts == map[] && s.crons == []
  }

  ghost predicate StepAt(cal: Calendar, states: seq<State>, events: seq<Event>, i: nat)
    requires i < |events| && |states| == |events| + 1
  {
    Step(cal, states[i], events[i], states[i + 1])
  }

  ghost predicate Run(cal: Calendar, states: seq<State>, events: seq<Event>) {
    && |states| == |events| + 1
    && Fresh(states[0])
    && (forall i {:trigger StepAt(cal, states, events, i)} :: 0 <= i < |events| ==> StepAt(cal, states, events, i))
    && (forall i, j :: 0 <= i < j < |events| ==> events[i].now <= events[j].now)
  }

  /** The time of the last call before state `n`. */
  ghost function Clock(events: seq<Event>): U64 {
    if events == [] then 0 else Last(events).now
  }

  lemma ClockAdvances(cal: Calendar, states: seq<State>, events: seq<Event>, n: nat)
    requires Run(cal, states, events) && n < |events|
    ensures Clock(events[..n]) <= events[n].now
  {}

  // ----- Inserting several jobs -----

  lemma {:induction false} InsertAllCount(s: State, specs: seq<JobSpec>, now: U64)
    ensures InsertAll(s, specs, now).nextId == s.nextId + |specs|
    decreases specs
  {
    if specs != [] {
      InsertAllCount(s, Init(specs), now);
    }
  }

  lemma {:induction false} InsertAllKeeps(s: State, specs: seq<JobSpec>, now: U64)
    ensures var t := InsertAll(s, specs, now);
            t.configs == s.configs && t.starts == s.starts && t.crons == s.crons
    decreases specs
  {
    if specs != [] {
      InsertAllKeeps(s, Init(specs), now);
    }
  }

  /** Job `id` after the insertion: an old one is as it was, a new one is made from its template. */
  lemma {:induction false} InsertAllJob(s: State, specs: seq<JobSpec>, now: U64, id: nat)
    requires Numbered(s)
    ensures var t := InsertAll(s, specs, now);
            && (id in t.jobs <==> 1 <= id <= s.nextId + |specs|)
            && (id in s.jobs ==> t.jobs[id] == s.jobs[id])
            && (s.nextId < id <= s.nextId + |specs| ==> t.jobs[id] == NewJob(id, specs[id - s.nextId - 1], now))
    decreases specs
  {
    if specs != [] {
      InsertAllJob(s, Init(specs), now, id);
      InsertAllCount(s, Init(specs), now);
    }
  }

  lemma InsertAllNumbered(s: State, specs: seq<JobSpec>, now: U64)
    requires Numbered(s)
    ensures Numbered(InsertAll(s, specs, now))
  {
    var t := InsertAll(s, specs, now);
    InsertAllCount(s, specs, now);
    forall id: nat
      ensures id in t.jobs <==> 1 <= id <= t.nextId
      ensures id in t.jobs ==> t.jobs[id].id == id
    {
      InsertAllJob(s, specs, now, id);
    }
  }

  lemma InsertAllEffect(s: State, specs: seq<JobSpec>, now: U64)
    requires Numbered(s)
    ensures var t := InsertAll(s, specs, now);
            && Numbered(t)
            && t.nextId == s.nextId + |specs|
            && t.configs == s.configs && t.starts == s.starts && t.crons == s.crons
            && (forall id :: id in s.jobs ==> id in t.jobs && t.jobs[id] == s.jobs[id])
            && (forall id :: s.nextId < id <= t.nextId ==> t.jobs[id] == NewJob(id, specs[id - s.nextId - 1], now))
  {
    var t := InsertAll(s, specs, now);
    InsertAllCount(s, specs, now);
    InsertAllKeeps(s, specs, now);
    InsertAllNumbered(s, specs, now);
    forall id: nat
      ensures id in s.jobs ==> id in t.jobs && t.jobs[id] == s.jobs[id]
      ensures s.nextId < id <= t.nextId ==> t.jobs[id] == NewJob(id, specs[id - s.nextId - 1], now)
    {
      InsertAllJob(s, specs, now, id);
    }
  }

  // ----- Every job keeps its books -----

  /** How many failures a job may have before it is dead. */
  function Allowed(j: Job): nat {
    Max(1, j.spec.maxAttempts)
  }

  /** Failures of job `id` since it was enqueued or last retried by hand. */
  ghost function Failures(events: seq<Event>, id: nat): nat {
    if events == [] then 0
    else
      match Last(events)
      case Enqueued(_, _, i) => if i == id then 0 else Failures(Init(events), id)
      case TickedOver(_, ids) => if id in ids then 0 else Failures(Init(events), id)
      case Retried(i, _, ok) => if i == id && ok then 0 else Failures(Init(events), id)
      case Failed(i, _, ok) => Failures(Init(events), id) + if i == id && ok then 1 else 0
      case _ => Failures(Init(events), id)
  }

  /** A job at time `clock` after `failures` failures. */
  ghost predicate InOrder(j: Job, clock: U64, failures: nat) {
    && (j.state == Waiting ==> j.availableAt <= clock)
    && j.attempts <= Allowed(j)
    && match j.state
       case Waiting => j.attempts == failures < Allowed(j)
       case Delayed => j.attempts == failures < Allowed(j)
       case Active => j.attempts == failures + 1
       case Completed => j.attempts == failures + 1
       case Dead => j.attempts == failures == Allowed(j)
  }

  ghost predicate AllInOrder(s: State, events: seq<Event>) {
    Numbered(s) && forall id :: id in s.jobs ==> InOrder(s.jobs[id], Clock(events), Failures(events, id))
  }

  function AfterClaim(j: Job, queue: string, now: U64, chosen: bool): Job {
    if chosen then Started(Promoted(j, queue, now), now) else Promoted(j, queue, now)
  }

  /** What a claim does to the jobs: due ones are promoted, and the chosen one is started. */
  ghost predicate ClaimEffect(s: State, queue: string, now: U64, result: Option<nat>, t: State) {
    && t.nextId == s.nextId && t.jobs.Keys == s.jobs.Keys && t.crons == s.crons && t.configs == s.configs
    && (result.Some? ==> result.value in s.jobs && Runnable(Promoted(s.jobs[result.value], queue, now), queue))
    && (forall id :: id in s.jobs ==> t.jobs[id] == AfterClaim(s.jobs[id], queue, now, result == Some(id)))
  }

  lemma ClaimHasEffect(s: State, queue: string, now: U64, result: Option<nat>, t: State)
    requires ClaimStep(s, queue, now, result, t)
    ensures ClaimEffect(s, queue, now, result, t)
  {}

  lemma ClaimKeepsOrder(s: State, events: seq<Event>, e: Event, t: State)
    requires AllInOrder(s, events) && Clock(events) <= e.now
    requires e.Claimed? && ClaimEffect(s, e.queue, e.now, e.result, t)
    ensures AllInOrder(t, events + [e])
  {
    assert Numbered(t) by {
      assert forall id :: id in t.jobs <==> id in s.jobs;
    }
    forall id | id in t.jobs ensures InOrder(t.jobs[id], e.now, Failures(events + [e], id)) {
      QuietEvent(events, e, id);
      ClaimedInOrder(s.jobs[id], Clock(events), Failures(events, id), e.queue, e.now, e.result == Some(id));
    }
  }

  lemma QuietEvent(events: seq<Event>, e: Event, id: nat)
    requires e.Claimed? || e.Finished? || e.Scheduled?
    ensures Failures(events + [e], id) == Failures(events, id)
  {
    assert Init(events + [e]) == events;
  }

  lemma ClaimedInOrder(j: Job, clock: U64, failures: nat, queue: string, now: U64, chosen: bool)
    requires InOrder(j, clock, failures) && clock <= now
    requires chosen ==> Runnable(Promoted(j, queue, now), queue)
    ensures InOrder(AfterClaim(j, queue, now, chosen), now, failures)
  {}

  /** A job that was in order is so after it is settled or retried. */
  lemma SettledInOrder(j: Job, clock: U64, now: U64, failures: nat)
    requires InOrder(j, clock, failures) && clock <= now
    ensures InOrder(j, now, failures)
    ensures j.state == Active ==>
              InOrder(CompletedJob(j, now), now, failures) && InOrder(FailedJob(j, now), now, failures + 1)
    ensures j.state == Dead ==> InOrder(RetriedJob(j, now), now, 0)
  {}

  ghost predicate Settles(e: Event) {
    e.Finished? || e.Failed? || e.Retried?
  }

  /** What settling does to job `id`. */
  ghost function AfterSettling(j: Job, e: Event, id: nat): Job
    requires Settles(e)
  {
    if !e.ok || e.id != id then j
    else if e.Finished? then CompletedJob(j, e.now)
    else if e.Failed? then FailedJob(j, e.now)
    else RetriedJob(j, e.now)
  }

  /** A settling call changes at most its own job, and only an active or dead one. */
  ghost predicate SettledBy(s: State, e: Event, t: State) {
    && Settles(e) && t.nextId == s.nextId && t.jobs.Keys == s.jobs.Keys
    && (e.ok ==> e.id in s.jobs && s.jobs[e.id].state == if e.Retried? then Dead else Active)
    && (forall id :: id in s.jobs ==> t.jobs[id] == AfterSettling(s.jobs[id], e, id))
  }

  lemma SettleEffect(cal: Calendar, s: State, e: Event, t: State)
    requires Step(cal, s, e, t) && Settles(e)
    ensures SettledBy(s, e, t)
  {}

  lemma FailuresSettled(events: seq<Event>, e: Event, id: nat)
    requires Settles(e)
    ensures Failures(events + [e], id) ==
              if !e.ok || e.id != id || e.Finished? then Failures(events, id)
              else if e.Failed? then Failures(events, id) + 1
              else 0
  {
    assert Init(events + [e]) == events;
  }

  lemma SettledJobInOrder(s: State, events: seq<Event>, e: Event, t: State, id: nat)
    requires AllInOrder(s, events) && SettledBy(s, e, t) && Clock(events) <= e.now && id in s.jobs
    ensures t.jobs[id].id == id && InOrder(t.jobs[id], e.now, Failures(events + [e], id))
  {
    FailuresSettled(events, e, id);
    SettledInOrder(s.jobs[id], Clock(events), e.now, Failures(events, id));
  }

  lemma SettleKeepsOrder(cal: Calendar, s: State, events: seq<Event>, e: Event, t: State)
    requires AllInOrder(s, events) && Step(cal, s, e, t) && Clock(events) <= e.now && Settles(e)
    ensures AllInOrder(t, events + [e])
  {
    SettleEffect(cal, s, e, t);
    AllSettled(s, events, e, t);
  }

  lemma AllSettled(s: State, events: seq<Event>, e: Event, t: State)
    requires AllInOrder(s, events) && SettledBy(s, e, t) && Clock(events) <= e.now
    ensures AllInOrder(t, events + [e])
  {
    forall id | id in t.jobs
      ensures t.jobs[id].id == id && InOrder(t.jobs[id], e.now, Failures(events + [e], id))
    {
      SettledJobInOrder(s, events, e, t, id);
    }
    assert Clock(events + [e]) == e.now;
  }

  lemma ScheduleKeepsOrder(s: State, events: seq<Event>, e: Event, t: State)
    requires AllInOrder(s, events) && e.Scheduled? && t.jobs == s.jobs && t.nextId == s.nextId && Clock(events) <= e.now
    ensures AllInOrder(t, events + [e])
  {
    assert Init(events + [e]) == events;
    forall id | id in t.jobs ensures InOrder(t.jobs[id], e.now, Failures(events + [e], id)) {
      SettledInOrder(s.jobs[id], Clock(events), e.now, Failures(events, id));
    }
  }

  ghost predicate IsNew(j: Job, id: nat, now: U64) {
    j == NewJob(id, j.spec, now)
  }

  /** `t` holds the given jobs and new ones numbered in `ids`. */
  ghost predicate Adds(jobs: map<nat, Job>, t: State, ids: seq<nat>, now: U64) {
    && Numbered(t)
    && (forall id :: id in jobs ==> id in t.jobs && t.jobs[id] == jobs[id] && id !in ids)
    && (forall id :: id in t.jobs && id !in jobs ==> id in ids && IsNew(t.jobs[id], id, now))
  }

  lemma InsertAllAdds(s: State, specs: seq<JobSpec>, now: U64)
    requires Numbered(s)
    ensures Adds(s.jobs, InsertAll(s, specs, now), Numbers(s.nextId + 1, |specs|), now)
  {
    InsertAllEffect(s, specs, now);
    var t, ids := InsertAll(s, specs, now), Numbers(s.nextId + 1, |specs|);
    forall id | s.nextId < id <= t.nextId ensures id in ids {
      assert ids[id - s.nextId - 1] == id;
    }
  }

  /** A tick inserts one job per due template, and says so. */
  lemma TickInserts(cal: Calendar, s: State, e: Event, t: State)
    requires e.TickedOver? && Step(cal, s, e, t)
    ensures var r, specs := s.(crons := RescheduledAll(cal, s.crons, e.now)), DueTemplates(s.crons, e.now);
            t == InsertAll(r, specs, e.now) && e.ids == Numbers(s.nextId + 1, |specs|)
  {
    InsertAllCount(s.(crons := RescheduledAll(cal, s.crons, e.now)), DueTemplates(s.crons, e.now), e.now);
  }

  lemma TickAdds(cal: Calendar, s: State, e: Event, t: State)
    requires Numbered(s) && e.TickedOver? && Step(cal, s, e, t)
    ensures Adds(s.jobs, t, e.ids, e.now)
  {
    TickInserts(cal, s, e, t);
    InsertAllAdds(s.(crons := RescheduledAll(cal, s.crons, e.now)), DueTemplates(s.crons, e.now), e.now);
  }

  lemma AddKeepsOrder(s: State, events: seq<Event>, e: Event, t: State, ids: seq<nat>)
    requires AllInOrder(s, events) && Clock(events) <= e.now && Adds(s.jobs, t, ids, e.now)
    requires (e.Enqueued? && ids == [e.id]) || (e.TickedOver? && ids == e.ids)
    ensures AllInOrder(t, events + [e])
  {
    assert Init(events + [e]) == events;
    forall id | id in t.jobs ensures InOrder(t.jobs[id], e.now, Failures(events + [e], id)) {
      if id in s.jobs {
        assert InOrder(s.jobs[id], Clock(events), Failures(events, id));
      } else {
        assert id in ids;
      }
    }
  }

  lemma StepKeepsOrder(cal: Calendar, s: State, events: seq<Event>, e: Event, t: State)
    requires AllInOrder(s, events) && Step(cal, s, e, t) && Clock(events) <= e.now
    ensures AllInOrder(t, events + [e])
  {
    match e
    case Claimed(queue, now, result) =>
      ClaimHasEffect(s, queue, now, result, t);
      ClaimKeepsOrder(s, events, e, t);
    case Scheduled(_, _, _, _) => ScheduleKeepsOrder(s, events, e, t);
    case Enqueued(_, _, _) => AddKeepsOrder(s, events, e, t, [e.id]);
    case TickedOver(_, _) =>
      TickAdds(cal, s, e, t);
      AddKeepsOrder(s, events, e, t, e.ids);
    case _ => SettleKeepsOrder(cal, s, events, e, t);
  }

  /** In every reachable state no job waits before its time or is tried too often, and the dead failed enough. */
  lemma {:induction false} RunKeepsOrder(cal: Calendar, states: seq<State>, events: seq<Event>, n: nat)
    requires Run(cal, states, events) && n <= |events|
    ensures AllInOrder(states[n], events[..n])
    decreases n
  {
    if n > 0 {
      RunKeepsOrder(cal, states, events, n - 1);
      ClockAdvances(cal, states, events, n - 1);
      assert StepAt(cal, states, events, n - 1);
      StepKeepsOrder(cal, states[n - 1], events[..n - 1], events[n - 1], states[n]);
      assert events[..n] == events[..n - 1] + [events[n - 1]];
    }
  }

  lemma RunNumbered(cal: Calendar, states: seq<State>, events: seq<Event>, n: nat)
    requires Run(cal, states, events) && n <= |events|
    ensures Numbered(states[n])
  {
    RunKeepsOrder(cal, states, events, n);
  }

  /**
   A job is dead exactly when it has failed max(1, max_attempts) times since it was enqueued or last
   retried by hand; and its attempt counter, a u32 in the source, never exceeds that number.
   */
  lemma DeadIffOutOfAttempts(cal: Calendar, states: seq<State>, events: seq<Event>, n: nat, id: nat)
    requires Run(cal, states, events) && n <= |events| && id in states[n].jobs
    ensures states[n].jobs[id].state == Dead <==> Failures(events[..n], id) == Allowed(states[n].jobs[id])
    ensures Failures(events[..n], id) <= Allowed(states[n].jobs[id])
    ensures states[n].jobs[id].attempts <= 0xFFFF_FFFF
  {
    RunKeepsOrder(cal, states, events, n);
    assert InOrder(states[n].jobs[id], Clock(events[..n]), Failures(events[..n], id));
  }

  // ----- Sums over jobs -----

  lemma {:induction false} TotalUpdate(jobs: map<nat, Job>, n: nat, id: nat, j: Job, weight: Job -> nat)
    requires id in jobs
    ensures Total(jobs[id := j], n, weight) + (if 1 <= id <= n then weight(jobs[id]) else 0)
         == Total(jobs, n, weight) + (if 1 <= id <= n then weight(j) else 0)
    decreases n
  {
    if n > 0 {
      TotalUpdate(jobs, n - 1, id, j, weight);
    }
  }

  lemma {:induction false} TotalSame(a: map<nat, Job>, b: map<nat, Job>, n: nat, weight: Job -> nat)
    requires forall id :: 1 <= id <= n ==> id in a && id in b && weight(a[id]) == weight(b[id])
    ensures Total(a, n, weight) == Total(b, n, weight)
    decreases n
  {
    if n > 0 {
      TotalSame(a, b, n - 1, weight);
    }
  }

  /** Promotion changes neither the attempts left nor who is active. */
  lemma PromoteKeepsTotals(s: State, queue: string, now: U64, weight: Job -> nat)
    requires Numbered(s)
    requires forall j: Job :: j.state == Delayed ==> weight(j.(state := Waiting)) == weight(j)
    ensures Total(AfterPromotion(s, queue, now).jobs, s.nextId, weight) == Total(s.jobs, s.nextId, weight)
  {
    TotalSame(AfterPromotion(s, queue, now).jobs, s.jobs, s.nextId, weight);
  }

  // ----- Claims are paid for -----

  /** Attempts an unfinished job still has. */
  function Left(j: Job): nat {
    if j.state == Completed || j.state == Dead || j.attempts >= Allowed(j) then 0 else Allowed(j) - j.attempts
  }

  /** Waiting to be claimed, now or later. */
  predicate Pending(j: Job) {
    j.state == Waiting || j.state == Delayed
  }

  ghost function Budget(s: State): nat {
    Total(s.jobs, s.nextId, Left)
  }

  /** The event adds no work: no enqueue, no cron firing, no manual retry. */
  ghost predicate AddsNoWork(e: Event) {
    !e.Enqueued? && !(e.TickedOver? && e.ids != []) && !(e.Retried? && e.ok)
  }

  ghost predicate SuccessfulClaim(e: Event) {
    e.Claimed? && e.result.Some?
  }

  ghost function Claims(events: seq<Event>): nat {
    if events == [] then 0 else Claims(Init(events)) + if SuccessfulClaim(Last(events)) then 1 else 0
  }

  /** A claim that starts a job found fewer active ones than allowed. */
  lemma ClaimFindsRoom(s: State, queue: string, now: U64, id: nat, t: State)
    requires ClaimStep(s, queue, now, Some(id), t)
    ensures ActiveCount(AfterPromotion(s, queue, now), queue) < ConfigOf(s, queue).concurrency
    ensures var jobs := Promote(s.jobs, queue, now);
            && id in jobs && jobs[id].spec.queue == queue
            && t.nextId == s.nextId && t.jobs == jobs[id := Started(jobs[id], now)]
  {}

  lemma ClaimFailedJobs(s: State, queue: string, now: U64, t: State)
    requires ClaimStep(s, queue, now, None, t)
    ensures t.nextId == s.nextId && t.jobs == Promote(s.jobs, queue, now)
  {}

  lemma StartedLeft(jobs: map<nat, Job>, n: nat, id: nat, now: U64)
    requires id in jobs && 1 <= id <= n && Left(jobs[id]) > 0
    ensures Total(jobs[id := Started(jobs[id], now)], n, Left) == Total(jobs, n, Left) - 1
  {
    TotalUpdate(jobs, n, id, Started(jobs[id], now), Left);
  }

  lemma ClaimSpends(s: State, queue: string, now: U64, result: Option<nat>, t: State)
    requires Numbered(s) && ClaimStep(s, queue, now, result, t)
    requires forall id :: id in s.jobs && Pending(s.jobs[id]) ==> Left(s.jobs[id]) > 0
    ensures Budget(t) + (if result.Some? then 1 else 0) == Budget(s)
  {
    PromoteKeepsTotals(s, queue, now, Left);
    if result.None? {
      ClaimFailedJobs(s, queue, now, t);
    } else {
      ClaimFindsRoom(s, queue, now, result.value, t);
      ClaimHasEffect(s, queue, now, result, t);
      StartedLeft(Promote(s.jobs, queue, now), s.nextId, result.value, now);
    }
  }

  lemma SettleSpendsNothing(cal: Calendar, s: State, e: Event, t: State)
    requires Numbered(s) && Step(cal, s, e, t) && AddsNoWork(e) && !e.Claimed?
    ensures Budget(t) <= Budget(s)
  {
    match e
    case Finished(id, now, ok) =>
      if ok { TotalUpdate(s.jobs, s.nextId, id, CompletedJob(s.jobs[id], now), Left); }
    case Failed(id, now, ok) =>
      if ok { TotalUpdate(s.jobs, s.nextId, id, FailedJob(s.jobs[id], now), Left); }
    case TickedOver(now, ids) =>
      InsertAllEffect(s.(crons := RescheduledAll(cal, s.crons, now)), DueTemplates(s.crons, now), now);
      assert |ids| == t.nextId - s.nextId;
      TotalSame(t.jobs, s.jobs, s.nextId, Left);
    case _ =>
  }

  lemma StepSpends(cal: Calendar, s: State, events: seq<Event>, e: Event, t: State)
    requires AllInOrder(s, events) && Step(cal, s, e, t) && AddsNoWork(e)
    ensures Budget(t) + (if SuccessfulClaim(e) then 1 else 0) <= Budget(s)
  {
    if e.Claimed? {
      forall id | id in s.jobs && Pending(s.jobs[id]) ensures Left(s.jobs[id]) > 0 {
        assert InOrder(s.jobs[id], Clock(events), Failures(events, id));
      }
      ClaimSpends(s, e.queue, e.now, e.result, t);
    } else {
      SettleSpendsNothing(cal, s, e, t);
    }
  }

  lemma RunSpends(cal: Calendar, states: seq<State>, events: seq<Event>, i: nat)
    requires Run(cal, states, events) && i < |events| && AddsNoWork(events[i])
    ensures Budget(states[i + 1]) + (if SuccessfulClaim(events[i]) then 1 else 0) <= Budget(states[i])
  {
    RunKeepsOrder(cal, states, events, i);
    assert StepAt(cal, states, events, i);
    StepSpends(cal, states[i], events[..i], events[i], states[i + 1]);
  }

  /**
   Between any two points of a run with no new work, the number of successful claims is at most what
   the attempts left of the unfinished jobs have gone down by, so at most the attempts left at the start.
   */
  lemma {:induction false} ClaimsBounded(cal: Calendar, states: seq<State>, events: seq<Event>, lo: nat, hi: nat)
    requires Run(cal, states, events) && lo <= hi <= |events|
    requires forall i :: lo <= i < hi ==> AddsNoWork(events[i])
    ensures Claims(events[lo..hi]) + Budget(states[hi]) <= Budget(states[lo])
    decreases hi
  {
    if lo < hi {
      ClaimsBounded(cal, states, events, lo, hi - 1);
      RunSpends(cal, states, events, hi - 1);
      assert Init(events[lo..hi]) == events[lo..hi - 1] && Last(events[lo..hi]) == events[hi - 1];
    }
  }

  // ----- What one event does to one job -----

  ghost predicate JobMove(j: Job, e: Event, k: Job) {
    match e
    case Claimed(queue, now, result) =>
      var chosen := result == Some(j.id);
      k == AfterClaim(j, queue, now, chosen) && (chosen ==> Runnable(Promoted(j, queue, now), queue))
    case Finished(id, now, ok) => k == if id == j.id && ok then CompletedJob(j, now) else j
    case Failed(id, now, ok) => k == if id == j.id && ok then FailedJob(j, now) else j
    case Retried(id, now, ok) => k == if id == j.id && ok then RetriedJob(j, now) else j
    case _ => k == j
  }

  lemma StepMoves(cal: Calendar, s: State, e: Event, t: State, id: nat)
    requires Numbered(s) && Step(cal, s, e, t) && id in s.jobs
    ensures id in t.jobs && JobMove(s.jobs[id], e, t.jobs[id])
    ensures e.Failed? && e.id == id && e.ok ==> s.jobs[id].state == Active
    ensures e.Finished? && e.id == id && e.ok ==> s.jobs[id].state == Active
    ensures e.Retried? && e.id == id && e.ok ==> s.jobs[id].state == Dead
  {
    match e
    case TickedOver(_, _) => TickAdds(cal, s, e, t);
    case Claimed(queue, now, result) => ClaimHasEffect(s, queue, now, result, t);
    case _ =>
  }

  /** In a run, every job moves as its event says. */
  lemma RunMoves(cal: Calendar, states: seq<State>, events: seq<Event>, i: nat, id: nat)
    requires Run(cal, states, events) && i < |events| && id in states[i].jobs
    ensures states[i].jobs[id].id == id && id in states[i + 1].jobs
    ensures var j, e := states[i].jobs[id], events[i];
            && JobMove(j, e, states[i + 1].jobs[id])
            && (e.Failed? && e.id == id && e.ok ==> j.state == Active)
            && (e.Finished? && e.id == id && e.ok ==> j.state == Active)
            && (e.Retried? && e.id == id && e.ok ==> j.state == Dead)
  {
    RunNumbered(cal, states, events, i);
    assert StepAt(cal, states, events, i);
    StepMoves(cal, states[i], events[i], states[i + 1], id);
  }

  ghost predicate ClaimOf(e: Event, id: nat) {
    e.Claimed? && e.result == Some(id)
  }

  /** A pending job keeps everything but its waiting state until it is claimed; a waiting one keeps that too. */
  lemma {:induction false} PendingUntilClaimed(cal: Calendar, states: seq<State>, events: seq<Event>, lo: nat,
      hi: nat, id: nat)
    requires Run(cal, states, events) && lo <= hi <= |events|
    requires id in states[lo].jobs && Pending(states[lo].jobs[id])
    requires forall i :: lo <= i < hi ==> !ClaimOf(events[i], id)
    ensures id in states[hi].jobs && Pending(states[hi].jobs[id])
    ensures states[hi].jobs[id] == states[lo].jobs[id].(state := states[hi].jobs[id].state)
    ensures states[lo].jobs[id].state == Waiting ==> states[hi].jobs[id].state == Waiting
    decreases hi
  {
    if lo < hi {
      PendingUntilClaimed(cal, states, events, lo, hi - 1, id);
      RunMoves(cal, states, events, hi - 1, id);
    }
  }

  // ----- Which job a claim takes -----

  /** The job may be started by a claim on `queue` at `now`. */
  predicate Ready(j: Job, queue: string, now: U64) {
    j.spec.queue == queue && (j.state == Waiting || (j.state == Delayed && j.availableAt <= now))
  }

  lemma ClaimChoosesFirst(s: State, queue: string, now: U64, id: nat, t: State)
    requires Numbered(s) && ClaimStep(s, queue, now, Some(id), t)
    ensures id in s.jobs && Ready(s.jobs[id], queue, now)
    ensures forall other :: other in s.jobs && other != id && Ready(s.jobs[other], queue, now) ==>
              Before(s.jobs[id], s.jobs[other])
  {
    var jobs := Promote(s.jobs, queue, now);
    assert First(jobs, queue, id);
    forall other | other in s.jobs && other != id && Ready(s.jobs[other], queue, now)
      ensures Before(s.jobs[id], s.jobs[other])
    {
      assert other in jobs && Runnable(jobs[other], queue);
    }
  }

  /** `b` is of no higher priority than `a`; among equals `a` was available first, or has the smaller number. */
  ghost predicate GoesFirst(a: Job, b: Job) {
    && (b.spec.priority == High ==> a.spec.priority == High)
    && (a.spec.priority == Low ==> b.spec.priority == Low)
    && (a.spec.priority == b.spec.priority ==>
         a.availableAt < b.availableAt || (a.availableAt == b.availableAt && a.id < b.id))
  }

  /**
   A successful claim takes, of the jobs of its queue that are waiting or whose delay is over, the one
   first by priority, then time of availability, then number; and never a job before that time.
   */
  lemma ClaimTakesFirstReady(cal: Calendar, states: seq<State>, events: seq<Event>, i: nat, id: nat)
    requires Run(cal, states, events) && i < |events| && ClaimOf(events[i], id)
    ensures var s, queue, now := states[i], events[i].queue, events[i].now;
            && id in s.jobs && Ready(s.jobs[id], queue, now) && s.jobs[id].availableAt <= now
            && (forall other :: other in s.jobs && other != id && Ready(s.jobs[other], queue, now) ==>
                 GoesFirst(s.jobs[id], s.jobs[other]))
  {
    RunKeepsOrder(cal, states, events, i);
    ClockAdvances(cal, states, events, i);
    assert StepAt(cal, states, events, i);
    ClaimChoosesFirst(states[i], events[i].queue, events[i].now, id, states[i + 1]);
    assert InOrder(states[i].jobs[id], Clock(events[..i]), Failures(events[..i], id));
  }

  // ----- First in, first out -----

  /** The event before which job `id` did not exist and after which it was new. */
  lemma {:induction false} Insertion(cal: Calendar, states: seq<State>, events: seq<Event>, n: nat, id: nat)
    returns (i: nat)
    requires Run(cal, states, events) && n <= |events| && id in states[n].jobs
    ensures i < n && id !in states[i].jobs && id in states[i + 1].jobs
    ensures states[i + 1].jobs[id] == NewJob(id, states[n].jobs[id].spec, events[i].now)
    decreases n
  {
    if id in states[n - 1].jobs {
      i := Insertion(cal, states, events, n - 1, id);
      RunMoves(cal, states, events, n - 1, id);
    } else {
      i := n - 1;
      RunAdds(cal, states, events, i, id);
    }
  }

  lemma RunAdds(cal: Calendar, states: seq<State>, events: seq<Event>, i: nat, id: nat)
    requires Run(cal, states, events) && i < |events| && id !in states[i].jobs && id in states[i + 1].jobs
    ensures states[i + 1].jobs[id] == NewJob(id, states[i + 1].jobs[id].spec, events[i].now)
  {
    RunNumbered(cal, states, events, i);
    assert StepAt(cal, states, events, i);
    StepNewJobs(cal, states[i], events[i], states[i + 1], id);
  }

  lemma StepNewJobs(cal: Calendar, s: State, e: Event, t: State, id: nat)
    requires Numbered(s) && Step(cal, s, e, t) && id !in s.jobs && id in t.jobs
    ensures t.jobs[id] == NewJob(id, t.jobs[id].spec, e.now)
  {
    match e
    case TickedOver(_, _) => TickAdds(cal, s, e, t);
    case Claimed(queue, now, result) => ClaimHasEffect(s, queue, now, result, t);
    case _ =>
  }

  /** The earlier of two jobs was inserted no later. */
  lemma InsertedInOrder(cal: Calendar, states: seq<State>, events: seq<Event>, a: nat, b: nat, i: nat, j: nat)
    requires Run(cal, states, events) && i < |events| && j < |events| && a < b
    requires a !in states[i].jobs && a in states[i + 1].jobs && b !in states[j].jobs && b in states[j + 1].jobs
    ensures i <= j && events[i].now <= events[j].now
  {
    RunNumbered(cal, states, events, i + 1);
    RunNumbered(cal, states, events, j + 1);
    assert a in states[j + 1].jobs;
    if j < i {
      SpecStays(cal, states, events, j + 1, i, a);
    }
  }

  /**
   Jobs of one queue and one priority enqueued without a start time get their first claim in the
   order of their numbers, which is the order in which they were enqueued.
   */
  lemma {:induction false} FirstInFirstOut(cal: Calendar, states: seq<State>, events: seq<Event>, n: nat, a: nat,
      b: nat)
    returns (m: nat)
    requires Run(cal, states, events) && n < |events| && ClaimOf(events[n], b)
    requires a < b && a in states[n].jobs && b in states[n].jobs
    requires var x, y := states[n].jobs[a].spec, states[n].jobs[b].spec;
             x.queue == y.queue && x.priority == y.priority && x.runAt == y.runAt == None
    ensures m < n && ClaimOf(events[m], a)
    decreases n
  {
    var i := Insertion(cal, states, events, n, a);
    var j := Insertion(cal, states, events, n, b);
    InsertedInOrder(cal, states, events, a, b, i, j);
    if k :| i < k < n && ClaimOf(events[k], a) {
      m := k;
    } else if k :| j < k < n && ClaimOf(events[k], b) {
      SpecStays(cal, states, events, i + 1, k, a);
      SpecStays(cal, states, events, j + 1, k, b);
      SpecStays(cal, states, events, k, n, a);
      SpecStays(cal, states, events, k, n, b);
      m := FirstInFirstOut(cal, states, events, k, a, b);
    } else {
      PendingUntilClaimed(cal, states, events, i + 1, n, a);
      PendingUntilClaimed(cal, states, events, j + 1, n, b);
      ClaimTakesFirstReady(cal, states, events, n, b);
      assert false;
    }
  }

  lemma {:induction false} SpecStays(cal: Calendar, states: seq<State>, events: seq<Event>, lo: nat, hi: nat, id: nat)
    requires Run(cal, states, events) && lo <= hi <= |events| && id in states[lo].jobs
    ensures id in states[hi].jobs && states[hi].jobs[id].spec == states[lo].jobs[id].spec
    decreases hi
  {
    if lo < hi {
      SpecStays(cal, states, events, lo, hi - 1, id);
      RunMoves(cal, states, events, hi - 1, id);
    }
  }
}
