/**
 The background job queue: its records, the effect of each operation on the queue's state, and the
 class whose methods carry those operations out.
 */
module JobQueue {
  import opened Base
  import opened Cron

  type U32 = n: nat | n <= 0xFFFF_FFFF

  datatype Priority = High | Normal | Low

  function Rank(p: Priority): nat {
    match p
    case High => 0
    case Normal => 1
    case Low => 2
  }

  datatype Backoff = Fixed(secs: U64) | Exponential(baseSecs: U64, maxSecs: U64)

  function Pow2(k: nat): nat {
    if k == 0 then 1 else 2 * Pow2(k - 1)
  }

  function Min(a: nat, b: nat): nat {
    if a <= b then a else b
  }

  lemma {:induction false} Pow2Bound(k: nat)
    requires k <= 32
    ensures 1 <= Pow2(k) <= Pow2(32) == 0x1_0000_0000
    decreases 32 - k
  {
    Pow2At32();
    if k < 32 {
      Pow2Bound(k + 1);
    }
  }

  lemma Pow2At32()
    ensures Pow2(32) == 0x1_0000_0000
  {
    assert Pow2(8) == 256;
    assert Pow2(16) == 0x1_0000 by { assert Pow2(12) == 4096; }
    assert Pow2(24) == 0x100_0000 by { assert Pow2(20) == 0x10_0000; }
    assert Pow2(28) == 0x1000_0000;
  }

  /** Seconds to wait before retry number `attempt`. */
  function Delay(b: Backoff, attempt: nat): U64 {
    match b
    case Fixed(secs) => secs
    case Exponential(baseSecs, maxSecs) =>
      var shift := Min(if attempt == 0 then 0 else attempt - 1, 32);
      Pow2Bound(shift);
      Min(SatMul(baseSecs, Pow2(shift)), maxSecs)
  }

  /** The exponential delay starts at the base, doubles with each attempt up to the 33rd, and is capped. */
  lemma DelayDoubles(baseSecs: U64, maxSecs: U64, attempt: nat)
    requires attempt >= 1
    ensures var b := Exponential(baseSecs, maxSecs);
            && Delay(b, 1) == Min(baseSecs, maxSecs)
            && Delay(b, attempt + 1) == if attempt <= 32 then Min(2 * Delay(b, attempt), maxSecs) else Delay(b, attempt)
  {
    var shift := Min(attempt - 1, 32);
    Pow2Bound(shift);
    assert Pow2(0) == 1;
    if attempt <= 32 {
      Pow2Bound(shift + 1);
      assert baseSecs * Pow2(shift + 1) == 2 * (baseSecs * Pow2(shift));
    }
  }

  datatype JobState = Waiting | Delayed | Active | Completed | Dead

  datatype JobSpec = JobSpec(
    queue: string, name: string, priority: Priority, runAt: Option<U64>, maxAttempts: U32, backoff: Backoff)

  datatype Job = Job(
    id: nat, spec: JobSpec, state: JobState, attempts: nat,
    createdAt: U64, availableAt: U64, startedAt: Option<U64>, finishedAt: Option<U64>)

  datatype RateLimit = RateLimit(maxStarts: U32, perSecs: U64)

  datatype QueueConfig = QueueConfig(concurrency: nat, rateLimit: Option<RateLimit>)

  const DEFAULT_CONFIG := QueueConfig(4, None)

  datatype CronEntry = CronEntry(name: string, schedule: Schedule, template: JobSpec, nextRun: U64)

  datatype State = State(
    nextId: nat,
    jobs: map<nat, Job>,
    configs: map<string, QueueConfig>,
    starts: map<string, seq<U64>>,
    crons: seq<CronEntry>)

  /** Jobs are numbered from 1 and never removed. */
  ghost predicate Numbered(s: State) {
    && (forall id :: id in s.jobs <==> 1 <= id <= s.nextId)
    && (forall id :: id in s.jobs ==> s.jobs[id].id == id)
  }

  // ----- Enqueueing -----

  function NewJob(id: nat, spec: JobSpec, now: U64): Job {
    var availableAt := if spec.runAt.Some? then spec.runAt.value else now;
    Job(id, spec, if availableAt > now then Delayed else Waiting, 0, now, availableAt, None, None)
  }

  function InsertJob(s: State, spec: JobSpec, now: U64): State {
    s.(nextId := s.nextId + 1, jobs := s.jobs[s.nextId + 1 := NewJob(s.nextId + 1, spec, now)])
  }

  function InsertAll(s: State, specs: seq<JobSpec>, now: U64): State
    decreases specs
  {
    if specs == [] then s else InsertJob(InsertAll(s, Init(specs), now), Last(specs), now)
  }

  // ----- Claiming -----

  predicate DuePromotion(j: Job, queue: string, now: U64) {
    j.spec.queue == queue && j.state == Delayed && j.availableAt <= now
  }

  function Promoted(j: Job, queue: string, now: U64): Job {
    if DuePromotion(j, queue, now) then j.(state := Waiting) else j
  }

  function Promote(jobs: map<nat, Job>, queue: string, now: U64): map<nat, Job> {
    map id | id in jobs :: Promoted(jobs[id], queue, now)
  }

  /** The sum of `weight` over the jobs numbered 1 to `n`. */
  ghost function Total(jobs: map<nat, Job>, n: nat, weight: Job -> nat): nat {
    if n == 0 then 0 else Total(jobs, n - 1, weight) + if n in jobs then weight(jobs[n]) else 0
  }

  ghost function ActiveIn(queue: string): Job -> nat {
    (j: Job) => if j.spec.queue == queue && j.state == Active then 1 else 0
  }

  ghost function ActiveCount(s: State, queue: string): nat {
    Total(s.jobs, s.nextId, ActiveIn(queue))
  }

  function ConfigOf(s: State, queue: string): QueueConfig {
    if queue in s.configs then s.configs[queue] else DEFAULT_CONFIG
  }

  function StartsOf(s: State, queue: string): seq<U64> {
    if queue in s.starts then s.starts[queue] else []
  }

  predicate Expired(start: U64, now: U64, perSecs: U64) {
    (if now >= start then now - start else 0) >= perSecs
  }

  /** Start times with the expired ones taken off the front. */
  function Pruned(starts: seq<U64>, now: U64, perSecs: U64): seq<U64> {
    if starts != [] && Expired(starts[0], now, perSecs) then Pruned(starts[1..], now, perSecs) else starts
  }

  predicate Runnable(j: Job, queue: string) {
    j.spec.queue == queue && j.state == Waiting
  }

  /** `a` goes before `b`: higher priority, then earlier availability, then smaller number. */
  predicate Before(a: Job, b: Job) {
    || Rank(a.spec.priority) < Rank(b.spec.priority)
    || (a.spec.priority == b.spec.priority && a.availableAt < b.availableAt)
    || (a.spec.priority == b.spec.priority && a.availableAt == b.availableAt && a.id < b.id)
  }

  /** The runnable job of `queue` that goes before every other. */
  ghost predicate First(jobs: map<nat, Job>, queue: string, id: nat) {
    && id in jobs && Runnable(jobs[id], queue)
    && forall other :: other in jobs && other != id && Runnable(jobs[other], queue) ==> Before(jobs[id], jobs[other])
  }

  /** `best` is the first of the runnable jobs of one priority numbered below `n`, if there are any. */
  ghost predicate EarliestOf(jobs: map<nat, Job>, queue: string, priority: Priority, n: nat, best: Option<nat>) {
    match best
    case None => forall id :: id in jobs && id < n && Runnable(jobs[id], queue) ==> jobs[id].spec.priority != priority
    case Some(b) =>
      && b in jobs && b < n && Runnable(jobs[b], queue) && jobs[b].spec.priority == priority
      && (forall id :: id in jobs && id < n && id != b && Runnable(jobs[id], queue) ==>
           jobs[id].spec.priority == priority ==> Before(jobs[b], jobs[id]))
  }

  ghost predicate NoneRunnable(jobs: map<nat, Job>, queue: string) {
    forall id :: id in jobs ==> !Runnable(jobs[id], queue)
  }

  function Started(j: Job, now: U64): Job {
    j.(state := Active, attempts := j.attempts + 1, startedAt := Some(now))
  }

  function AfterPromotion(s: State, queue: string, now: U64): State {
    s.(jobs := Promote(s.jobs, queue, now))
  }

  /** The state after the rate limiter has looked at the recent starts of `queue`. */
  function AfterPruning(s: State, queue: string, now: U64): State {
    match ConfigOf(s, queue).rateLimit
    case None => s
    case Some(limit) => s.(starts := s.starts[queue := Pruned(StartsOf(s, queue), now, limit.perSecs)])
  }

  predicate RateLimited(s: State, queue: string) {
    ConfigOf(s, queue).rateLimit.Some? && |StartsOf(s, queue)| >= ConfigOf(s, queue).rateLimit.value.maxStarts
  }

  function AfterStart(s: State, queue: string, now: U64, id: nat): State
    requires id in s.jobs
  {
    s.(starts := s.starts[queue := StartsOf(s, queue) + [now]], jobs := s.jobs[id := Started(s.jobs[id], now)])
  }

  /** The part of `claim` after the concurrency check. */
  ghost predicate StartStep(s: State, queue: string, now: U64, result: Option<nat>, t: State) {
    var pruned := AfterPruning(s, queue, now);
    if RateLimited(pruned, queue) || NoneRunnable(pruned.jobs, queue) then
      result == None && t == pruned
    else
      result.Some? && First(pruned.jobs, queue, result.value) && t == AfterStart(pruned, queue, now, result.value)
  }

  /** `claim` on `s` at time `now` returns `result` and leaves `t`. */
  ghost predicate ClaimStep(s: State, queue: string, now: U64, result: Option<nat>, t: State) {
    var promoted := AfterPromotion(s, queue, now);
    if ActiveCount(promoted, queue) >= ConfigOf(s, queue).concurrency then
      result == None && t == promoted
    else
      StartStep(promoted, queue, now, result, t)
  }

  // ----- Settling -----

  predicate IsActive(s: State, id: nat) {
    id in s.jobs && s.jobs[id].state == Active
  }

  function CompletedJob(j: Job, now: U64): Job {
    j.(state := Completed, finishedAt := Some(now))
  }

  function FailedJob(j: Job, now: U64): Job {
    if j.attempts >= j.spec.maxAttempts then j.(state := Dead, finishedAt := Some(now))
    else j.(state := Delayed, availableAt := Wrap(now + Delay(j.spec.backoff, j.attempts)))
  }

  function RetriedJob(j: Job, now: U64): Job {
    j.(state := Waiting, attempts := 0, availableAt := now, finishedAt := None)
  }

  // ----- Cron -----

  function NextRun(cal: Calendar, schedule: Schedule, after: U64): U64 {
    var next := NextAfter(cal, schedule, after);
    if next.Some? then next.value else U64_MAX
  }

  function Rescheduled(cal: Calendar, entry: CronEntry, now: U64): CronEntry {
    if entry.nextRun <= now then entry.(nextRun := NextRun(cal, entry.schedule, now)) else entry
  }

  function RescheduledAll(cal: Calendar, crons: seq<CronEntry>, now: U64): seq<CronEntry> {
    if crons == [] then [] else RescheduledAll(cal, Init(crons), now) + [Rescheduled(cal, Last(crons), now)]
  }

  /** The templates of the entries that are due, in order. */
  function DueTemplates(crons: seq<CronEntry>, now: U64): seq<JobSpec> {
    if crons == [] then []
    else DueTemplates(Init(crons), now) + if Last(crons).nextRun <= now then [Last(crons).template] else []
  }

  function Ticked(cal: Calendar, s: State, now: U64): State {
    InsertAll(s.(crons := RescheduledAll(cal, s.crons, now)), DueTemplates(s.crons, now), now)
  }

  function Numbers(first: nat, count: nat): seq<nat> {
    seq(count, i requires 0 <= i => first + i)
  }

  // ----- The queue -----

  class Queue {
    const calendar: Calendar
    var nextId: nat
    var jobs: map<nat, Job>
    var configs: map<string, QueueConfig>
    var starts: map<string, seq<U64>>
    var crons: seq<CronEntry>

    constructor (calendar: Calendar)
      ensures View() == State(0, map[], map[], map[], []) && Valid() && this.calendar == calendar
    {
      this.calendar := calendar;
      nextId, jobs, configs, starts, crons := 0, map[], map[], map[], [];
    }

    ghost function View(): State
      reads this
    {
      State(nextId, jobs, configs, starts, crons)
    }

    ghost predicate Valid()
      reads this
    {
      Numbered(View())
    }

    method Configure(queue: string, config: QueueConfig)
      requires Valid()
      modifies this
      ensures Valid() && View() == old(View()).(configs := old(configs)[queue := config])
    {
      configs := configs[queue := config];
    }

    method Enqueue(spec: JobSpec, now: U64) returns (id: nat)
      requires Valid()
      modifies this
      ensures Valid() && View() == InsertJob(old(View()), spec, now) && id == nextId
    {
      nextId := nextId + 1;
      id := nextId;
      var availableAt := if spec.runAt.Some? then spec.runAt.value else now;
      var state := if availableAt > now then Delayed else Waiting;
      jobs := jobs[id := Job(id, spec, state, 0, now, availableAt, None, None)];
    }

    method PromoteDue(queue: string, now: U64)
      requires Valid()
      modifies this`jobs
      ensures Valid() && View() == AfterPromotion(old(View()), queue, now)
    {
      var id := 1;
      while id <= nextId
        invariant 1 <= id <= nextId + 1
        invariant Valid()
        invariant jobs.Keys == old(jobs).Keys
        invariant forall k :: k in jobs ==>
                  jobs[k] == if k < id then Promoted(old(jobs)[k], queue, now) else old(jobs)[k]
      {
        if jobs[id].spec.queue == queue && jobs[id].state == Delayed && jobs[id].availableAt <= now {
          jobs := jobs[id := jobs[id].(state := Waiting)];
        }
        id := id + 1;
      }
      assert jobs == Promote(old(jobs), queue, now);
    }

    method CountActive(queue: string) returns (n: nat)
      requires Valid()
      ensures n == ActiveCount(View(), queue)
    {
      n := 0;
      var id := 0;
      while id < nextId
        invariant 0 <= id <= nextId
        invariant n == Total(jobs, id, ActiveIn(queue))
      {
        id := id + 1;
        if jobs[id].spec.queue == queue && jobs[id].state == Active {
          n := n + 1;
        }
      }
    }

    method PruneStarts(queue: string, now: U64)
      requires Valid()
      modifies this`starts
      ensures Valid() && View() == AfterPruning(old(View()), queue, now)
    {
      var config := if queue in configs then configs[queue] else DEFAULT_CONFIG;
      if config.rateLimit.Some? {
        var recent := if queue in starts then starts[queue] else [];
        while recent != [] && Expired(recent[0], now, config.rateLimit.value.perSecs)
          invariant Pruned(recent, now, config.rateLimit.value.perSecs) ==
                    Pruned(StartsOf(View(), queue), now, config.rateLimit.value.perSecs)
          decreases recent
        {
          recent := recent[1..];
        }
        starts := starts[queue := recent];
      }
    }

    /** The earliest runnable job of one priority. */
    method Earliest(queue: string, priority: Priority) returns (best: Option<nat>)
      requires Valid()
      ensures EarliestOf(jobs, queue, priority, nextId + 1, best)
    {
      best := None;
      var id := 1;
      while id <= nextId
        invariant 1 <= id <= nextId + 1
        invariant EarliestOf(jobs, queue, priority, id, best)
      {
        if Runnable(jobs[id], queue) && jobs[id].spec.priority == priority {
          if best.None? || jobs[id].availableAt < jobs[best.value].availableAt {
            best := Some(id);
          }
        }
        id := id + 1;
      }
    }

    method PickNext(queue: string) returns (next: Option<nat>)
      requires Valid()
      ensures next.None? ==> NoneRunnable(jobs, queue)
      ensures next.Some? ==> First(jobs, queue, next.value)
    {
      next := Earliest(queue, High);
      if next.None? {
        next := Earliest(queue, Normal);
      }
      if next.None? {
        next := Earliest(queue, Low);
      }
    }

    method StartNext(queue: string, now: U64) returns (claimed: Option<nat>)
      requires Valid()
      modifies this
      ensures Valid() && StartStep(old(View()), queue, now, claimed, View())
    {
      PruneStarts(queue, now);
      ghost var pruned := View();
      var config := if queue in configs then configs[queue] else DEFAULT_CONFIG;
      if config.rateLimit.Some? && |starts[queue]| >= config.rateLimit.value.maxStarts {
        assert RateLimited(pruned, queue);
        return None;
      }
      claimed := PickNext(queue);
      if claimed.None? {
        return None;
      }
      starts := starts[queue := (if queue in starts then starts[queue] else []) + [now]];
      var job := jobs[claimed.value];
      jobs := jobs[claimed.value := job.(state := Active, attempts := job.attempts + 1, startedAt := Some(now))];
      assert View() == AfterStart(pruned, queue, now, claimed.value);
    }

    method Claim(queue: string, now: U64) returns (claimed: Option<nat>)
      requires Valid()
      modifies this
      ensures Valid() && ClaimStep(old(View()), queue, now, claimed, View())
    {
      var config := if queue in configs then configs[queue] else DEFAULT_CONFIG;
      PromoteDue(queue, now);
      var active := CountActive(queue);
      if active >= config.concurrency {
        return None;
      }
      claimed := StartNext(queue, now);
    }

    method Complete(id: nat, now: U64) returns (ok: bool)
      requires Valid()
      modifies this`jobs
      ensures Valid() && ok == IsActive(old(View()), id)
      ensures ok ==> View() == old(View()).(jobs := old(jobs)[id := CompletedJob(old(jobs)[id], now)])
      ensures !ok ==> View() == old(View())
    {
      ok := id in jobs && jobs[id].state == Active;
      if ok {
        jobs := jobs[id := jobs[id].(state := Completed, finishedAt := Some(now))];
      }
    }

    method Fail(id: nat, now: U64) returns (outcome: Option<JobState>)
      requires Valid()
      modifies this`jobs
      ensures Valid() && outcome.Some? == IsActive(old(View()), id)
      ensures outcome.Some? ==> View() == old(View()).(jobs := old(jobs)[id := FailedJob(old(jobs)[id], now)])
      ensures outcome.Some? ==> outcome.value == jobs[id].state
      ensures outcome.None? ==> View() == old(View())
    {
      if id !in jobs || jobs[id].state != Active {
        return None;
      }
      var job := jobs[id];
      if job.attempts >= job.spec.maxAttempts {
        jobs := jobs[id := job.(state := Dead, finishedAt := Some(now))];
        outcome := Some(Dead);
      } else {
        var at := Wrap(now + Delay(job.spec.backoff, job.attempts));
        jobs := jobs[id := job.(availableAt := at, state := Delayed)];
        outcome := Some(Delayed);
      }
    }

    method RetryDead(id: nat, now: U64) returns (ok: bool)
      requires Valid()
      modifies this`jobs
      ensures Valid() && ok == (id in old(jobs) && old(jobs)[id].state == Dead)
      ensures ok ==> View() == old(View()).(jobs := old(jobs)[id := RetriedJob(old(jobs)[id], now)])
      ensures !ok ==> View() == old(View())
    {
      ok := id in jobs && jobs[id].state == Dead;
      if ok {
        jobs := jobs[id := jobs[id].(state := Waiting, attempts := 0, availableAt := now, finishedAt := None)];
      }
    }

    method ScheduleCron(name: string, fields: seq<string>, template: JobSpec, now: U64) returns (ok: bool)
      requires Valid()
      modifies this`crons
      ensures Valid()
      ensures !ok ==> View() == old(View())
      ensures !ok ==>
                || BadFields(fields)
                || exists schedule :: ReadsFields(fields, schedule) && NextAfter(calendar, schedule, now).None?
      ensures ok ==> exists schedule ::
                && ReadsFields(fields, schedule)
                && NextAfter(calendar, schedule, now).Some?
                && var entry := CronEntry(name, schedule, template, NextRun(calendar, schedule, now));
                   View() == old(View()).(crons := old(crons) + [entry])
    {
      var schedule := ParseSchedule(fields);
      if schedule.None? {
        return false;
      }
      var next := FindNext(calendar, schedule.value, now);
      if next.None? {
        return false;
      }
      crons := crons + [CronEntry(name, schedule.value, template, next.value)];
      ok := true;
    }

    /** Reschedules the entries that are due and returns their templates. */
    method CollectDue(now: U64) returns (due: seq<JobSpec>)
      modifies this`crons
      ensures View() == old(View()).(crons := RescheduledAll(calendar, old(crons), now))
      ensures due == DueTemplates(old(crons), now)
    {
      due := [];
      var entries := crons;
      var updated: seq<CronEntry> := [];
      var i := 0;
      while i < |entries|
        invariant 0 <= i <= |entries|
        invariant updated == RescheduledAll(calendar, entries[..i], now)
        invariant due == DueTemplates(entries[..i], now)
      {
        assert Init(entries[..i + 1]) == entries[..i];
        var entry := entries[i];
        if entry.nextRun <= now {
          due := due + [entry.template];
          var next := FindNext(calendar, entry.schedule, now);
          entry := entry.(nextRun := if next.Some? then next.value else U64_MAX);
        }
        updated := updated + [entry];
        i := i + 1;
      }
      assert entries[..i] == entries;
      crons := updated;
    }

    method EnqueueAll(specs: seq<JobSpec>, now: U64) returns (ids: seq<nat>)
      requires Valid()
      modifies this
      ensures Valid() && View() == InsertAll(old(View()), specs, now)
      ensures nextId == old(nextId) + |specs| && ids == Numbers(old(nextId) + 1, |specs|)
    {
      ids := [];
      var i := 0;
      while i < |specs|
        invariant 0 <= i <= |specs|
        invariant Valid() && View() == InsertAll(old(View()), specs[..i], now)
        invariant nextId == old(nextId) + i
        invariant ids == Numbers(old(nextId) + 1, i)
      {
        assert Init(specs[..i + 1]) == specs[..i];
        var id := Enqueue(specs[i], now);
        ids := ids + [id];
        i := i + 1;
      }
      assert specs[..i] == specs;
    }

    method Tick(now: U64) returns (ids: seq<nat>)
      requires Valid()
      modifies this
      ensures Valid() && View() == Ticked(calendar, old(View()), now)
      ensures nextId >= old(nextId) && ids == Numbers(old(nextId) + 1, nextId - old(nextId))
    {
      var due := CollectDue(now);
      ids := EnqueueAll(due, now);
    }
  }
}
