/** Backoff over every run of the job queue: exactly when the code keeps a failed job waiting as long as it should. */
module JobQueueBackoff {
  import opened Base
  import opened Cron
  import opened JobQueue
  import opened JobQueueRuns

  /** A failed job is never claimed again sooner than its backoff delay after the failure. */
  lemma {:induction false} NoEarlyRetry(cal: Calendar, states: seq<State>, events: seq<Event>, i: nat, j: nat, id: nat)
    requires Run(cal, states, events) && i < j < |events| && id in states[i].jobs
    requires events[i].Failed? && events[i].id == id && events[i].ok && ClaimOf(events[j], id)
    requires states[i].jobs[id].attempts < states[i].jobs[id].spec.maxAttempts
    requires var job := states[i].jobs[id]; events[i].now + Delay(job.spec.backoff, job.attempts) <= U64_MAX
    ensures var job := states[i].jobs[id]; events[j].now >= events[i].now + Delay(job.spec.backoff, job.attempts)
    decreases j
  {
    if m :| i < m < j && ClaimOf(events[m], id) {
      NoEarlyRetry(cal, states, events, i, m, id);
      assert events[m].now <= events[j].now;
    } else {
      RunMoves(cal, states, events, i, id);
      PendingUntilClaimed(cal, states, events, i + 1, j, id);
      ClaimTakesFirstReady(cal, states, events, j, id);
    }
  }

  /** In the run, event `i` fails an attempt of job `id` that has more to come. */
  ghost predicate FailsRetryable(states: seq<State>, events: seq<Event>, i: nat, id: nat)
    requires i < |events| && |states| == |events| + 1
  {
    && events[i].Failed? && events[i].id == id && events[i].ok
    && id in states[i].jobs && states[i].jobs[id].attempts < states[i].jobs[id].spec.maxAttempts
  }

  /** When the failed attempt's backoff is over, in exact arithmetic. */
  ghost function BackoffEnd(j: Job, now: U64): nat {
    now + Delay(j.spec.backoff, j.attempts)
  }

  /** In every run, a failed job is claimed again before its backoff is over exactly when that time exceeds 64 bits. */
  lemma EarlyReclaimIff(cal: Calendar, states: seq<State>, events: seq<Event>, i: nat, j: nat, id: nat)
    requires Run(cal, states, events) && i < j < |events|
    requires FailsRetryable(states, events, i, id) && ClaimOf(events[j], id)
    ensures events[j].now < BackoffEnd(states[i].jobs[id], events[i].now) <==>
              BackoffEnd(states[i].jobs[id], events[i].now) > U64_MAX
  {
    if BackoffEnd(states[i].jobs[id], events[i].now) <= U64_MAX {
      NoEarlyRetry(cal, states, events, i, j, id);
    }
  }

  /** The run fails the first attempt of job `id`, one like `spec`, at `now`, and claims the job again later. */
  ghost predicate Reclaims(
    cal: Calendar, states: seq<State>, events: seq<Event>, i: nat, j: nat, id: nat, spec: JobSpec, now: U64)
  {
    && Run(cal, states, events) && i < j < |events|
    && FailsRetryable(states, events, i, id) && ClaimOf(events[j], id)
    && states[i].jobs[id].spec == spec && states[i].jobs[id].attempts == 1 && events[i].now == now
  }

  /** No run claims such a job again before its backoff is over. */
  ghost predicate NeverEarly(spec: JobSpec, now: U64) {
    forall cal: Calendar, states: seq<State>, events: seq<Event>, i: nat, j: nat, id: nat ::
      Reclaims(cal, states, events, i, j, id, spec, now) ==> events[j].now >= now + Delay(spec.backoff, 1)
  }

  /** A queue whose only job is `j`. */
  ghost function Single(j: Job, starts: map<string, seq<U64>>): State {
    State(1, map[1 := j], map[], starts, [])
  }

  lemma ClaimOne(j: Job, starts: map<string, seq<U64>>, queue: string, now: U64)
    requires j.id == 1 && Ready(j, queue, now)
    ensures var later := starts[queue := StartsOf(Single(j, starts), queue) + [now]];
            var t := Single(Started(Promoted(j, queue, now), now), later);
            ClaimStep(Single(j, starts), queue, now, Some(1), t)
  {
    var s := Single(j, starts);
    var promoted := AfterPromotion(s, queue, now);
    assert promoted.jobs == map[1 := Promoted(j, queue, now)];
    assert ActiveCount(promoted, queue) == 0 by {
      assert Total(promoted.jobs, 0, ActiveIn(queue)) == 0;
    }
    assert First(promoted.jobs, queue, 1) && !NoneRunnable(promoted.jobs, queue);
    assert map[1 := Promoted(j, queue, now)][1 := Started(Promoted(j, queue, now), now)] ==
           map[1 := Started(Promoted(j, queue, now), now)];
  }

  lemma RunExtended(cal: Calendar, states: seq<State>, events: seq<Event>, e: Event, t: State)
    requires Run(cal, states, events) && Step(cal, states[|events|], e, t) && Clock(events) <= e.now
    ensures Run(cal, states + [t], events + [e])
  {
    var longer, more := states + [t], events + [e];
    forall i | 0 <= i < |more|
      ensures StepAt(cal, longer, more, i)
    {
      assert i < |events| ==> StepAt(cal, states, events, i);
    }
  }

  /** A job enqueued and claimed at one time, in a queue of its own. */
  lemma StartAtOnce(cal: Calendar, spec: JobSpec, now: U64) returns (states: seq<State>, events: seq<Event>, j: Job)
    requires spec.runAt.None? || spec.runAt.value <= now
    ensures Run(cal, states, events) && |events| == 2 && Clock(events) == now
    ensures j == Started(NewJob(1, spec, now), now)
    ensures states[2] == Single(j, map[spec.queue := [now]])
  {
    var empty, job := State(0, map[], map[], map[], []), NewJob(1, spec, now);
    var waiting := Single(job, map[]);
    j := Started(job, now);
    assert InsertJob(empty, spec, now) == waiting;
    RunExtended(cal, [empty], [], Enqueued(spec, now, 1), waiting);
    states, events := [empty] + [waiting], [] + [Enqueued(spec, now, 1)];
    assert StartsOf(waiting, spec.queue) + [now] == [now];
    ClaimOne(job, map[], spec.queue, now);
    var active := Single(j, map[spec.queue := [now]]);
    RunExtended(cal, states, events, Claimed(spec.queue, now, Some(1)), active);
    states, events := states + [active], events + [Claimed(spec.queue, now, Some(1))];
  }

  /** The job then failed, still at that time. */
  lemma FailAtOnce(cal: Calendar, spec: JobSpec, now: U64) returns (states: seq<State>, events: seq<Event>, j: Job)
    requires spec.runAt.None? || spec.runAt.value <= now
    ensures Run(cal, states, events) && |events| == 3 && events[2] == Failed(1, now, true)
    ensures j == Started(NewJob(1, spec, now), now) && 1 in states[2].jobs && states[2].jobs[1] == j
    ensures states[3] == Single(FailedJob(j, now), map[spec.queue := [now]])
  {
    states, events, j := StartAtOnce(cal, spec, now);
    var failed := Single(FailedJob(j, now), map[spec.queue := [now]]);
    assert map[1 := j][1 := FailedJob(j, now)] == map[1 := FailedJob(j, now)];
    RunExtended(cal, states, events, Failed(1, now, true), failed);
    states, events := states + [failed], events + [Failed(1, now, true)];
  }

  /** When the sum wraps, the failed job is claimed again at once. */
  lemma WrappedRetryIsEarly(cal: Calendar, spec: JobSpec, now: U64) returns (states: seq<State>, events: seq<Event>)
    requires spec.maxAttempts >= 2 && (spec.runAt.None? || spec.runAt.value <= now)
    requires now + Delay(spec.backoff, 1) > U64_MAX
    ensures Reclaims(cal, states, events, 2, 3, 1, spec, now) && events[3].now == now
  {
    var j;
    states, events, j := FailAtOnce(cal, spec, now);
    var failed, starts := FailedJob(j, now), map[spec.queue := [now]];
    ClaimOne(failed, starts, spec.queue, now);
    var later := starts[spec.queue := StartsOf(Single(failed, starts), spec.queue) + [now]];
    var again := Single(Started(Promoted(failed, spec.queue, now), now), later);
    RunExtended(cal, states, events, Claimed(spec.queue, now, Some(1)), again);
    states, events := states + [again], events + [Claimed(spec.queue, now, Some(1))];
  }

  /** No run claims the job early if and only if the failure time and the delay together fit 64 bits. */
  lemma BackoffHoldsIff(spec: JobSpec, now: U64)
    requires spec.maxAttempts >= 2 && (spec.runAt.None? || spec.runAt.value <= now)
    ensures NeverEarly(spec, now) <==> now + Delay(spec.backoff, 1) <= U64_MAX
  {
    if now + Delay(spec.backoff, 1) <= U64_MAX {
      forall cal: Calendar, states: seq<State>, events: seq<Event>, i: nat, j: nat, id: nat |
        Reclaims(cal, states, events, i, j, id, spec, now)
        ensures events[j].now >= now + Delay(spec.backoff, 1)
      {
        EarlyReclaimIff(cal, states, events, i, j, id);
      }
    } else {
      var cal: Calendar := _ => None;
      var states, events := WrappedRetryIsEarly(cal, spec, now);
    }
  }
}
