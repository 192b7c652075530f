/**
 The event bus under any interleaving of publishers, receivers and closers. A step is what a thread
 does between two points where another thread can tell the difference. A section under the queue lock
 is one step when it touches the semaphore or writes the closed flag at most once, because everything
 else in it is visible only under the lock; replacing the oldest value and closing touch them twice and
 are two steps, with the lock held in between.
 */
module BackpressureRuns {
  import opened Base
  import opened Backpressure

  datatype Fate = Received | Evicted

  /** A subscriber, who holds its lock, everything pushed to it, what became of what left it, and what receivers got. */
  datatype Channel<T> = Channel(sub: Sub<T>, lock: Option<nat>, delivered: seq<T>, fates: seq<Fate>, received: seq<T>)

  /** A push tries or waits; a wait may have a timeout. */
  datatype Mode = Try(policy: Policy) | Await(timeout: bool)

  /** Where a thread is in a push or a close. */
  datatype Phase<T> =
    | Idle
    | Checking(sub: nat, value: T, mode: Mode)
    | Acquiring(sub: nat, value: T, mode: Mode)
    | Enqueueing(sub: nat, value: T)
    | Refused(sub: nat)
    | Replacing(sub: nat, value: T)
    | Swapping(sub: nat, value: T, evicted: bool)
    | Recording(sub: nat, outcome: Outcome, evicted: bool)
    | Closing(sub: nat)

  /** What a thread does next. */
  datatype Move<T> =
    | Push(sub: nat, value: T, mode: Mode)
    | Close(sub: nat)
    | Look
    | Acquire
    | TimeOut
    | Enqueue
    | GiveBack
    | Evict
    | Swap
    | Record
    | Seal

  predicate Unlocked<T>(c: Channel<T>) {
    c.lock == None
  }

  /** The subscriber a move is about. */
  function Target<T>(p: Phase<T>, move: Move<T>): nat
    requires move.Push? || move.Close? || !p.Idle?
  {
    if move.Push? || move.Close? then move.sub else p.sub
  }

  predicate CanMove<T>(p: Phase<T>, c: Channel<T>, move: Move<T>) {
    match move
    case Push(_, _, _) => p.Idle?
    case Close(_) => p.Idle? && Unlocked(c)
    case Look => p.Checking?
    case Acquire => p.Acquiring? && (p.mode.Await? ==> CanAcquire(c.sub) || c.sub.sealed)
    case TimeOut => p.Acquiring? && p.mode == Await(true)
    case Enqueue => p.Enqueueing? && (c.sub.closed || Unlocked(c))
    case GiveBack => p.Refused?
    case Evict => p.Replacing? && (c.sub.closed || Unlocked(c))
    case Swap => p.Swapping?
    case Record => p.Recording?
    case Seal => p.Closing?
  }

  function Delivers<T>(c: Channel<T>, value: T): Channel<T> {
    c.(sub := Pushed(c.sub, value), delivered := c.delivered + [value])
  }

  function Leaves<T>(c: Channel<T>, fate: Fate): Channel<T>
    requires c.sub.queue != []
  {
    c.(sub := Removed(c.sub), fates := c.fates + [fate],
       received := if fate == Received then c.received + [c.sub.queue[0]] else c.received)
  }

  /** Thread `t` makes a move: its next phase, and the subscriber it moved on. */
  function Moved<T>(t: nat, p: Phase<T>, c: Channel<T>, move: Move<T>): (Phase<T>, Channel<T>)
    requires CanMove(p, c, move)
  {
    match move
    case Push(i, value, mode) => (Checking(i, value, mode), c)
    case Close(i) => (Closing(i), c.(sub := c.sub.(closed := true), lock := Some(t)))
    case Look =>
      if c.sub.closed then (Recording(p.sub, Closed, false), c)
      else if p.mode == Try(DropOldest) then (Replacing(p.sub, p.value), c)
      else (Acquiring(p.sub, p.value, p.mode), c)
    case Acquire =>
      if CanAcquire(c.sub) then (Enqueueing(p.sub, p.value), c.(sub := Acquired(c.sub)))
      else (Recording(p.sub, Refusal(p.mode), false), c)
    case TimeOut => (Recording(p.sub, TimedOut, false), c)
    case Enqueue =>
      if c.sub.closed || Full(c.sub) then (Refused(p.sub), c)
      else (Recording(p.sub, Delivered, false), Delivers(c, p.value))
    case GiveBack => (Recording(p.sub, Closed, false), c.(sub := Released(c.sub)))
    case Evict =>
      if c.sub.closed then (Recording(p.sub, Closed, false), c)
      else (Swapping(p.sub, p.value, Full(c.sub)),
            (if Full(c.sub) && c.sub.queue != [] then Leaves(c, Evicted) else c).(lock := Some(t)))
    case Swap =>
      if CanAcquire(c.sub)
      then (Recording(p.sub, Delivered, p.evicted), Delivers(c.(sub := Acquired(c.sub), lock := None), p.value))
      else (Recording(p.sub, Closed, p.evicted), c.(lock := None))
    case Record => (if p.evicted then p.(evicted := false) else Idle, c)
    case Seal => (Idle, c.(sub := c.sub.(sealed := true), lock := None))
  }

  /** What a push without a permit comes to. */
  function Refusal(mode: Mode): Outcome {
    if mode.Await? then Closed else if mode.policy == Wait then WouldBlock else Dropped
  }

  /** Recording first counts an eviction, then the outcome. */
  function Counted<T>(stats: Stats, p: Phase<T>): Stats
    requires p.Recording?
  {
    if p.evicted then stats.(dropped := stats.dropped + 1) else Recorded(stats, p.outcome, false)
  }

  /** How many pushes began, ran out of time, or were turned away for want of a permit. */
  datatype History = History(begun: nat, timeouts: nat, rejected: nat)

  /** All subscribers, all threads, the counters and the history. */
  datatype World<T> = World(channels: seq<Channel<T>>, threads: seq<Phase<T>>, stats: Stats, history: History)

  datatype Act<T> = Receive(sub: nat) | Act(thread: nat, move: Move<T>)

  predicate Enabled<T>(w: World<T>, act: Act<T>) {
    match act
    case Receive(i) => i < |w.channels| && Unlocked(w.channels[i]) && w.channels[i].sub.queue != []
    case Act(t, move) =>
      && t < |w.threads|
      && (move.Push? || move.Close? || !w.threads[t].Idle?)
      && Target(w.threads[t], move) < |w.channels|
      && CanMove(w.threads[t], w.channels[Target(w.threads[t], move)], move)
  }

  predicate TurnedAway<T>(p: Phase<T>, next: Phase<T>) {
    p.Acquiring? && next.Recording? && (next.outcome == Dropped || next.outcome == WouldBlock)
  }

  function Noted<T>(h: History, p: Phase<T>, move: Move<T>, next: Phase<T>): History {
    if move.Push? then h.(begun := h.begun + 1)
    else if move.TimeOut? then h.(timeouts := h.timeouts + 1)
    else if TurnedAway(p, next) then h.(rejected := h.rejected + 1)
    else h
  }

  function After<T>(w: World<T>, act: Act<T>): World<T>
    requires Enabled(w, act)
  {
    match act
    case Receive(i) => w.(channels := w.channels[i := Leaves(w.channels[i], Received)])
    case Act(t, move) =>
      var p := w.threads[t];
      var i := Target(p, move);
      var next := Moved(t, p, w.channels[i], move);
      World(w.channels[i := next.1],
            w.threads[t := next.0],
            if move.Record? then Counted(w.stats, p) else w.stats,
            Noted(w.history, p, move, next.0))
  }

  ghost predicate Initial<T>(w: World<T>) {
    && (forall c :: c in w.channels ==> c == Channel(Fresh(c.sub.capacity), None, [], [], []))
    && (forall p :: p in w.threads ==> p == Idle)
    && w.stats == Stats(0, 0, 0, 0, 0)
    && w.history == History(0, 0, 0)
  }

  ghost predicate StepAt<T>(worlds: seq<World<T>>, acts: seq<Act<T>>, i: nat)
    requires |worlds| == |acts| + 1 && i < |acts|
  {
    Enabled(worlds[i], acts[i]) && worlds[i + 1] == After(worlds[i], acts[i])
  }

  ghost predicate Run<T>(worlds: seq<World<T>>, acts: seq<Act<T>>) {
    && |worlds| == |acts| + 1
    && Initial(worlds[0])
    && forall i {:trigger StepAt(worlds, acts, i)} :: 0 <= i < |acts| ==> StepAt(worlds, acts, i)
  }

  // ----- Sums -----

  function Total<A>(s: seq<A>, weight: A -> nat): nat {
    if s == [] then 0 else Total(Init(s), weight) + weight(Last(s))
  }

  lemma {:induction false} TotalUpdate<A>(s: seq<A>, i: nat, x: A, weight: A -> nat)
    requires i < |s|
    ensures Total(s[i := x], weight) + weight(s[i]) == Total(s, weight) + weight(x)
    decreases s
  {
    var t := s[i := x];
    if i == |s| - 1 {
      assert Init(t) == Init(s);
    } else {
      TotalUpdate(Init(s), i, x, weight);
      assert Init(t) == Init(s)[i := x];
    }
  }

  lemma {:induction false} TotalZero<A>(s: seq<A>, weight: A -> nat)
    requires forall x :: x in s ==> weight(x) == 0
    ensures Total(s, weight) == 0
  {
    if s != [] {
      TotalZero(Init(s), weight);
    }
  }

  lemma {:induction false} TotalAtLeast<A>(s: seq<A>, i: nat, weight: A -> nat)
    requires i < |s|
    ensures Total(s, weight) >= weight(s[i])
  {
    if i < |s| - 1 {
      TotalAtLeast(Init(s), i, weight);
    }
  }

  // ----- What every step keeps -----

  /** A thread holds a permit of subscriber `i` between acquiring it and enqueueing or giving it back. */
  function Permit<T>(p: Phase<T>, i: nat): nat {
    if (p.Enqueueing? || p.Refused?) && p.sub == i then 1 else 0
  }

  function PermitOf<T>(i: nat): Phase<T> -> nat {
    p => Permit(p, i)
  }

  /** Permits of subscriber `i` in the hands of threads. */
  function Held<T>(w: World<T>, i: nat): nat {
    Total(w.threads, PermitOf(i))
  }

  /** The values received, told by the fates of the values that left. */
  function Picked<T>(left: seq<T>, fates: seq<Fate>): seq<T>
    requires |left| == |fates|
  {
    if left == [] then []
    else Picked(Init(left), Init(fates)) + (if Last(fates) == Received then [Last(left)] else [])
  }

  ghost predicate InOrder<T>(c: Channel<T>) {
    && |c.fates| <= |c.delivered|
    && c.sub.queue == c.delivered[|c.fates|..]
    && c.received == Picked(c.delivered[..|c.fates|], c.fates)
  }

  predicate WellFormed<T>(c: Channel<T>) {
    c.sub.capacity >= 1 && (c.sub.sealed ==> c.sub.closed)
  }

  /** A thread between the halves of a two-step section holds the lock, and the flag is as it left it. */
  predicate ThreadOk<T>(t: nat, p: Phase<T>, c: Channel<T>) {
    match p
    case Swapping(_, _, _) => c.lock == Some(t) && !c.sub.closed
    case Closing(_) => c.lock == Some(t) && c.sub.closed
    case Acquiring(_, _, mode) => mode != Try(DropOldest)
    case _ => true
  }

  ghost predicate Guarded<T>(w: World<T>) {
    && (forall i :: 0 <= i < |w.channels| ==> WellFormed(w.channels[i]))
    && (forall t :: 0 <= t < |w.threads| && !w.threads[t].Idle? ==>
          w.threads[t].sub < |w.channels| && ThreadOk(t, w.threads[t], w.channels[w.threads[t].sub]))
  }

  /** A move keeps the subscriber well formed, the mover's claim on the lock, and everyone else's. */
  lemma MoveGuards<T>(t: nat, p: Phase<T>, c: Channel<T>, move: Move<T>)
    requires CanMove(p, c, move) && WellFormed(c) && ThreadOk(t, p, c)
    ensures WellFormed(Moved(t, p, c, move).1)
    ensures ThreadOk(t, Moved(t, p, c, move).0, Moved(t, p, c, move).1)
    ensures forall u, q :: u != t && ThreadOk(u, q, c) ==> ThreadOk(u, q, Moved(t, p, c, move).1)
    ensures Moved(t, p, c, move).0.Idle? || Moved(t, p, c, move).0.sub == Target(p, move)
  {
  }

  lemma StepGuards<T>(w: World<T>, act: Act<T>)
    requires Guarded(w) && Enabled(w, act)
    ensures Guarded(After(w, act))
  {
    if act.Act? {
      var p, i := w.threads[act.thread], Target(w.threads[act.thread], act.move);
      MoveGuards(act.thread, p, w.channels[i], act.move);
    }
  }

  lemma {:induction false} RunGuarded<T>(worlds: seq<World<T>>, acts: seq<Act<T>>, n: nat)
    requires Run(worlds, acts) && n <= |acts|
    ensures Guarded(worlds[n])
    decreases n
  {
    if n == 0 {
      var w := worlds[0];
      assert forall t :: 0 <= t < |w.threads| ==> w.threads[t] in w.threads;
      assert forall i :: 0 <= i < |w.channels| ==> w.channels[i] in w.channels;
    } else {
      RunGuarded(worlds, acts, n - 1);
      assert StepAt(worlds, acts, n - 1);
      StepGuards(worlds[n - 1], acts[n - 1]);
    }
  }

  // ----- Permits -----

  /** Permits that went out of use: one for each value received after subscriber `i` was closed. */
  ghost function Retired<T>(worlds: seq<World<T>>, acts: seq<Act<T>>, n: nat, i: nat): nat
    requires n <= |acts| < |worlds|
  {
    if n == 0 then 0
    else
      var w := worlds[n - 1];
      Retired(worlds, acts, n - 1, i) +
      if acts[n - 1] == Receive(i) && i < |w.channels| && w.channels[i].sub.closed then 1 else 0
  }

  ghost predicate Balanced<T>(w: World<T>, i: nat, retired: nat)
    requires i < |w.channels|
  {
    var s := w.channels[i].sub;
    s.available + |s.queue| + Held(w, i) + retired == s.capacity && (!s.closed ==> retired == 0)
  }

  predicate Fits<T>(c: Channel<T>) {
    |c.sub.queue| <= c.sub.capacity
  }

  /** A move of a publisher or closer passes permits around and loses none. */
  lemma MoveKeepsPermits<T>(t: nat, p: Phase<T>, c: Channel<T>, move: Move<T>, i: nat)
    requires CanMove(p, c, move) && WellFormed(c) && ThreadOk(t, p, c) && i == Target(p, move)
    ensures var (q, d) := Moved(t, p, c, move);
            && d.sub.capacity == c.sub.capacity
            && d.sub.available + |d.sub.queue| + Permit(q, i) == c.sub.available + |c.sub.queue| + Permit(p, i)
            && (c.sub.closed ==> d.sub.closed)
            && forall j :: j != i ==> Permit(q, j) == Permit(p, j)
  {
  }

  lemma StepBalances<T>(w: World<T>, act: Act<T>, i: nat, retired: nat)
    requires Guarded(w) && Enabled(w, act) && i < |w.channels| && Balanced(w, i, retired)
    ensures Balanced(After(w, act), i, retired + if act == Receive(i) && w.channels[i].sub.closed then 1 else 0)
  {
    if act.Act? {
      var t, p := act.thread, w.threads[act.thread];
      var k := Target(p, act.move);
      MoveKeepsPermits(t, p, w.channels[k], act.move, k);
      TotalUpdate(w.threads, t, Moved(t, p, w.channels[k], act.move).0, PermitOf(i));
    }
  }

  /**
   Over every run and for every subscriber: available permits, queued values and permits in hand add up to the
   capacity while it is open, and after that to what the values received since have left of it; so the queue
   never outgrows the capacity.
   */
  lemma {:induction false} PermitsConserved<T>(worlds: seq<World<T>>, acts: seq<Act<T>>, n: nat, i: nat)
    requires Run(worlds, acts) && n <= |acts| && i < |worlds[n].channels|
    ensures Fits(worlds[n].channels[i])
    ensures Balanced(worlds[n], i, Retired(worlds, acts, n, i))
    decreases n
  {
    if n == 0 {
      TotalZero(worlds[0].threads, PermitOf(i));
      assert worlds[0].channels[i] in worlds[0].channels;
    } else {
      assert StepAt(worlds, acts, n - 1);
      PermitsConserved(worlds, acts, n - 1, i);
      RunGuarded(worlds, acts, n - 1);
      StepBalances(worlds[n - 1], acts[n - 1], i, Retired(worlds, acts, n - 1, i));
    }
  }

  /** A thread that holds a permit is refused by the queue exactly when the subscriber is closed. */
  lemma EnqueueRefusedIff<T>(worlds: seq<World<T>>, acts: seq<Act<T>>, n: nat, t: nat)
    requires Run(worlds, acts) && n < |acts| && acts[n] == Act(t, Enqueue) && StepAt(worlds, acts, n)
    ensures worlds[n + 1].threads[t].Refused? <==> worlds[n].channels[worlds[n].threads[t].sub].sub.closed
  {
    var w, i := worlds[n], worlds[n].threads[t].sub;
    PermitsConserved(worlds, acts, n, i);
    TotalAtLeast(w.threads, t, PermitOf(i));
  }

  // ----- Replacing the oldest value -----

  /** Between the halves of a replacement the queue has room. */
  ghost predicate Roomy<T>(w: World<T>, t: nat)
    requires t < |w.threads|
  {
    w.threads[t].Swapping? && w.threads[t].sub < |w.channels| ==>
      |w.channels[w.threads[t].sub].sub.queue| < w.channels[w.threads[t].sub].sub.capacity
  }

  lemma StepKeepsRoom<T>(w: World<T>, act: Act<T>, t: nat)
    requires Guarded(w) && Enabled(w, act) && t < |w.threads| && Roomy(w, t)
    requires forall i :: 0 <= i < |w.channels| ==> Fits(w.channels[i])
    ensures Roomy(After(w, act), t)
  {
  }

  lemma {:induction false} RunKeepsRoom<T>(worlds: seq<World<T>>, acts: seq<Act<T>>, n: nat, t: nat)
    requires Run(worlds, acts) && n <= |acts| && t < |worlds[n].threads|
    ensures Roomy(worlds[n], t)
    decreases n
  {
    if n == 0 {
      assert worlds[0].threads[t] in worlds[0].threads;
    } else {
      assert StepAt(worlds, acts, n - 1);
      RunKeepsRoom(worlds, acts, n - 1, t);
      RunGuarded(worlds, acts, n - 1);
      var w := worlds[n - 1];
      forall i | 0 <= i < |w.channels|
        ensures Fits(w.channels[i])
      {
        PermitsConserved(worlds, acts, n - 1, i);
      }
      StepKeepsRoom(worlds[n - 1], acts[n - 1], t);
    }
  }

  /**
   The second half of a replacement always runs on an open subscriber. It still reports `Closed` exactly
   when every free place is spoken for by permits in the hands of other publishers.
   */
  lemma ReplaceReportsClosedIff<T>(worlds: seq<World<T>>, acts: seq<Act<T>>, n: nat, t: nat)
    requires Run(worlds, acts) && n < |acts| && acts[n] == Act(t, Swap) && StepAt(worlds, acts, n)
    ensures var w, q := worlds[n], worlds[n + 1].threads[t];
            var s := w.channels[w.threads[t].sub].sub;
            && !s.closed
            && q.Recording?
            && q.outcome in {Delivered, Closed}
            && (q.outcome == Closed <==> Held(w, w.threads[t].sub) == s.capacity - |s.queue|)
            && |s.queue| < s.capacity
  {
    var w, i := worlds[n], worlds[n].threads[t].sub;
    RunGuarded(worlds, acts, n);
    RunKeepsRoom(worlds, acts, n, t);
    PermitsConserved(worlds, acts, n, i);
  }

  ghost predicate OnlyReplaces<T>(acts: seq<Act<T>>) {
    forall k :: 0 <= k < |acts| && acts[k].Act? && acts[k].move.Push? ==> acts[k].move.mode == Try(DropOldest)
  }

  lemma {:induction false} ReplacersHoldNothing<T>(worlds: seq<World<T>>, acts: seq<Act<T>>, n: nat, t: nat)
    requires Run(worlds, acts) && n <= |acts| && OnlyReplaces(acts) && t < |worlds[n].threads|
    ensures var p := worlds[n].threads[t];
            !p.Acquiring? && !p.Enqueueing? && !p.Refused? && (p.Checking? ==> p.mode == Try(DropOldest))
    decreases n
  {
    if n == 0 {
      assert worlds[0].threads[t] in worlds[0].threads;
    } else {
      assert StepAt(worlds, acts, n - 1);
      ReplacersHoldNothing(worlds, acts, n - 1, t);
    }
  }

  /** When every publisher drops the oldest, a replacement that got past its checks always delivers. */
  lemma ReplacersDeliver<T>(worlds: seq<World<T>>, acts: seq<Act<T>>, n: nat, t: nat)
    requires Run(worlds, acts) && n < |acts| && acts[n] == Act(t, Swap) && StepAt(worlds, acts, n) && OnlyReplaces(acts)
    ensures worlds[n + 1].threads[t].Recording? && worlds[n + 1].threads[t].outcome == Delivered
  {
    var w, i := worlds[n], worlds[n].threads[t].sub;
    forall p | p in w.threads
      ensures PermitOf(i)(p) == 0
    {
      var u :| 0 <= u < |w.threads| && w.threads[u] == p;
      ReplacersHoldNothing(worlds, acts, n, u);
    }
    TotalZero(w.threads, PermitOf(i));
    ReplaceReportsClosedIff(worlds, acts, n, t);
  }

  /** One subscriber of capacity one whose permit thread 0 has taken and not used yet; thread 1 is at `p`. */
  function PermitTaken<T>(a: T, p: Phase<T>): World<T> {
    var c := Channel(Sub(1, [], 0, false, false), None, [], [], []);
    World([c], [Enqueueing(0, a), p], Stats(0, 0, 0, 0, 0), History(if p.Idle? then 1 else 2, 0, 0))
  }

  lemma TakePermit<T>(a: T) returns (worlds: seq<World<T>>, acts: seq<Act<T>>)
    ensures Run(worlds, acts) && Last(worlds) == PermitTaken(a, Idle)
  {
    var w := World([Channel(Fresh(1), None, [], [], [])], [Idle, Idle], Stats(0, 0, 0, 0, 0), History(0, 0, 0));
    var begun := w.(history := History(1, 0, 0));
    worlds, acts := [w], [];
    worlds, acts := Extended(worlds, acts, Act(0, Push(0, a, Try(DropNewest))));
    assert Last(worlds) == begun.(threads := [Checking(0, a, Try(DropNewest)), Idle]);
    worlds, acts := Extended(worlds, acts, Act(0, Look));
    assert Last(worlds) == begun.(threads := [Acquiring(0, a, Try(DropNewest)), Idle]);
    worlds, acts := Extended(worlds, acts, Act(0, Acquire));
  }

  /** With mixed policies it may not: a permit taken and not used yet makes an open, empty one report `Closed`. */
  lemma ReplaceMayReportClosed<T>(a: T, b: T) returns (worlds: seq<World<T>>, acts: seq<Act<T>>)
    ensures Run(worlds, acts) && Last(worlds) == PermitTaken(a, Recording(0, Closed, false))
  {
    worlds, acts := TakePermit(a);
    worlds, acts := Extended(worlds, acts, Act(1, Push(0, b, Try(DropOldest))));
    assert Last(worlds) == PermitTaken(a, Checking(0, b, Try(DropOldest)));
    worlds, acts := Extended(worlds, acts, Act(1, Look));
    assert Last(worlds) == PermitTaken(a, Replacing(0, b));
    worlds, acts := Extended(worlds, acts, Act(1, Evict));
    assert Last(worlds).threads == [Enqueueing(0, a), Swapping(0, b, false)];
    worlds, acts := Extended(worlds, acts, Act(1, Swap));
  }

  lemma Extended<T>(worlds: seq<World<T>>, acts: seq<Act<T>>, act: Act<T>)
    returns (longer: seq<World<T>>, moreActs: seq<Act<T>>)
    requires Run(worlds, acts) && Enabled(Last(worlds), act)
    ensures Run(longer, moreActs) && Last(longer) == After(Last(worlds), act)
  {
    longer, moreActs := worlds + [After(Last(worlds), act)], acts + [act];
    forall i | 0 <= i < |moreActs|
      ensures StepAt(longer, moreActs, i)
    {
      assert i < |acts| ==> StepAt(worlds, acts, i);
    }
  }

  // ----- What each outcome means -----

  /** The thread has just come to an outcome. */
  predicate Concludes<T>(p: Phase<T>, q: Phase<T>) {
    !p.Recording? && q.Recording?
  }

  /**
   A push concludes as delivered exactly when its value entered the queue; as dropped or as blocked exactly when
   it was a try, without and with the waiting policy, that found no permit or a closed semaphore; as timed out
   exactly when its time ran out. The first look ends a push exactly when the subscriber is closed, and an
   acquire takes a permit exactly when there is one on an open semaphore.
   */
  lemma OutcomeMeaning<T>(t: nat, p: Phase<T>, c: Channel<T>, move: Move<T>)
    requires CanMove(p, c, move) && ThreadOk(t, p, c)
    ensures var (q, d) := Moved(t, p, c, move);
            && (Concludes(p, q) ==>
                 && (q.outcome == Delivered <==> |d.delivered| > |c.delivered|)
                 && (q.outcome == Delivered ==> d.delivered == c.delivered + [p.value])
                 && (q.outcome == TimedOut <==> move.TimeOut?)
                 && (q.outcome == Dropped || q.outcome == WouldBlock <==> move.Acquire? && p.mode.Try?)
                 && (q.outcome == Dropped ==> p.mode == Try(DropNewest))
                 && (q.outcome == WouldBlock ==> p.mode == Try(Wait))
                 && (q.evicted <==> move.Swap? && p.evicted))
            && (move.Look? ==> (c.sub.closed <==> Concludes(p, q)))
            && (move.Acquire? ==> (q.Enqueueing? <==> !c.sub.sealed && c.sub.available > 0))
            && (!Concludes(p, q) && !move.Record? ==> d.delivered == c.delivered)
  {
  }

  /**
   Over every run, a push is reported as closed only on a closed subscriber, except by the second half of a
   replacement; and a wait ends without a permit only by running out of time or on a closed subscriber.
   */
  lemma ClosedMeansClosed<T>(worlds: seq<World<T>>, acts: seq<Act<T>>, n: nat, t: nat, move: Move<T>)
    requires Run(worlds, acts) && n < |acts| && acts[n] == Act(t, move) && !move.Swap? && StepAt(worlds, acts, n)
    requires Concludes(worlds[n].threads[t], worlds[n + 1].threads[t])
    requires worlds[n + 1].threads[t].outcome == Closed
    ensures worlds[n].threads[t].sub < |worlds[n].channels|
    ensures worlds[n].channels[worlds[n].threads[t].sub].sub.closed
  {
    RunGuarded(worlds, acts, n);
    RefusedIsClosed(worlds, acts, n, t);
  }

  /** A thread that gives its permit back does so on a closed subscriber. */
  lemma {:induction false} RefusedIsClosed<T>(worlds: seq<World<T>>, acts: seq<Act<T>>, n: nat, t: nat)
    requires Run(worlds, acts) && n <= |acts| && t < |worlds[n].threads|
    ensures var w := worlds[n];
            w.threads[t].Refused? ==>
              w.threads[t].sub < |w.channels| && w.channels[w.threads[t].sub].sub.closed
    decreases n
  {
    if n == 0 {
      assert worlds[0].threads[t] in worlds[0].threads;
    } else {
      assert StepAt(worlds, acts, n - 1);
      RefusedIsClosed(worlds, acts, n - 1, t);
      if acts[n - 1] == Act(t, Enqueue) {
        EnqueueRefusedIff(worlds, acts, n - 1, t);
      }
    }
  }

  /** Closing is carried through: a closed subscriber whose lock is free has a closed semaphore. */
  lemma {:induction false} ClosedIsSealed<T>(worlds: seq<World<T>>, acts: seq<Act<T>>, n: nat, i: nat)
    requires Run(worlds, acts) && n <= |acts| && i < |worlds[n].channels|
    ensures var c := worlds[n].channels[i]; c.sub.closed && Unlocked(c) ==> c.sub.sealed
    decreases n
  {
    if n == 0 {
      assert worlds[0].channels[i] in worlds[0].channels;
    } else {
      assert StepAt(worlds, acts, n - 1);
      ClosedIsSealed(worlds, acts, n - 1, i);
      RunGuarded(worlds, acts, n - 1);
    }
  }

  /** Counting a push in one step or two comes to the sequential record. */
  lemma CountingRefinesRecord<T>(stats: Stats, p: Phase<T>)
    requires p.Recording?
    ensures var rest: Phase<T> := Recording(p.sub, p.outcome, false);
            Recorded(stats, p.outcome, p.evicted) ==
              if p.evicted then Counted(Counted(stats, p), rest) else Counted(stats, p)
  {
  }

  // ----- A push that runs alone -----

  predicate Alone<T>(p: Phase<T>, c: Channel<T>) {
    match p
    case Checking(_, _, mode) => mode.Try? && Unlocked(c)
    case Acquiring(_, _, mode) => mode.Try? && Unlocked(c)
    case Enqueueing(_, _) => Unlocked(c)
    case Replacing(_, _) => Unlocked(c)
    case _ => p.Refused? || p.Swapping? || p.Recording?
  }

  function StepsLeft<T>(p: Phase<T>): nat {
    match p
    case Checking(_, _, _) => 4
    case Acquiring(_, _, _) => 3
    case Replacing(_, _) => 3
    case Enqueueing(_, _) => 2
    case Swapping(_, _, _) => 2
    case Refused(_) => 1
    case _ => 0
  }

  function OwnMove<T>(p: Phase<T>): Move<T> {
    match p
    case Checking(_, _, _) => Look
    case Acquiring(_, _, _) => Acquire
    case Replacing(_, _) => Evict
    case Enqueueing(_, _) => Enqueue
    case Swapping(_, _, _) => Swap
    case _ => GiveBack
  }

  /** Thread `t` moves, and nobody else does, until it has an outcome to record. */
  function RunAlone<T>(t: nat, p: Phase<T>, c: Channel<T>): (Phase<T>, Channel<T>)
    requires Alone(p, c)
    decreases StepsLeft(p)
  {
    if p.Recording? then (p, c)
    else
      var next := Moved(t, p, c, OwnMove(p));
      RunAlone(t, next.0, next.1)
  }

  /** Run alone, the steps of a push come to what the sequential push computes. */
  lemma StepsRefinePush<T>(t: nat, i: nat, value: T, policy: Policy, c: Channel<T>)
    requires Unlocked(c)
    ensures var r := TryPush(c.sub, value, policy);
            var alone := RunAlone(t, Checking(i, value, Try(policy)), c);
            alone.0 == Recording(i, r.1, r.2) && alone.1.sub == r.0 && Unlocked(alone.1)
  {
    var p := Checking(i, value, Try(policy));
    var (q, d) := Moved(t, p, c, Look);
    assert RunAlone(t, p, c) == RunAlone(t, q, d);
    if !q.Recording? {
      var (q2, d2) := Moved(t, q, d, OwnMove(q));
      assert RunAlone(t, q, d) == RunAlone(t, q2, d2);
      if !q2.Recording? {
        var (q3, d3) := Moved(t, q2, d2, OwnMove(q2));
        assert RunAlone(t, q2, d2) == RunAlone(t, q3, d3);
        assert !q3.Recording? ==> RunAlone(t, q3, d3) == Moved(t, q3, d3, GiveBack);
      }
    }
  }

  // ----- Order -----

  lemma DeliversInOrder<T>(c: Channel<T>, value: T)
    requires InOrder(c)
    ensures InOrder(Delivers(c, value))
  {
    assert (c.delivered + [value])[..|c.fates|] == c.delivered[..|c.fates|];
  }

  lemma LeavesInOrder<T>(c: Channel<T>, fate: Fate)
    requires InOrder(c) && c.sub.queue != []
    ensures InOrder(Leaves(c, fate))
  {
    var k, d := |c.fates|, Leaves(c, fate);
    assert Init(c.delivered[..k + 1]) == c.delivered[..k] && Last(c.delivered[..k + 1]) == c.sub.queue[0];
    assert Init(d.fates) == c.fates;
  }

  lemma MoveKeepsOrder<T>(t: nat, p: Phase<T>, c: Channel<T>, move: Move<T>)
    requires CanMove(p, c, move) && InOrder(c)
    ensures InOrder(Moved(t, p, c, move).1)
  {
    if move.Enqueue? || move.Swap? {
      DeliversInOrder(c, p.value);
    } else if move.Evict? && c.sub.queue != [] {
      LeavesInOrder(c, Evicted);
    }
  }

  /**
   Over every run each queue is the suffix of what was delivered that has not left yet, and receivers got
   what left without being evicted, each once and in the order of delivery.
   */
  lemma {:induction false} ReceivedInOrder<T>(worlds: seq<World<T>>, acts: seq<Act<T>>, n: nat, i: nat)
    requires Run(worlds, acts) && n <= |acts| && i < |worlds[n].channels|
    ensures InOrder(worlds[n].channels[i])
    decreases n
  {
    if n == 0 {
      assert worlds[0].channels[i] in worlds[0].channels;
    } else {
      assert StepAt(worlds, acts, n - 1);
      ReceivedInOrder(worlds, acts, n - 1, i);
      var w, act := worlds[n - 1], acts[n - 1];
      if act.Act? {
        if Target(w.threads[act.thread], act.move) == i {
          MoveKeepsOrder(act.thread, w.threads[act.thread], w.channels[i], act.move);
        }
      } else if act.sub == i {
        LeavesInOrder(w.channels[i], Received);
      }
    }
  }

  // ----- Counters -----

  function Evictions(fates: seq<Fate>): nat {
    if fates == [] then 0 else Evictions(Init(fates)) + (if Last(fates) == Evicted then 1 else 0)
  }

  lemma {:induction false} LeftIsReceivedOrEvicted<T>(left: seq<T>, fates: seq<Fate>)
    requires |left| == |fates|
    ensures |Picked(left, fates)| + Evictions(fates) == |left|
  {
    if left != [] {
      LeftIsReceivedOrEvicted(Init(left), Init(fates));
    }
  }

  /** Deliveries a thread has yet to count. */
  function Uncounted<T>(p: Phase<T>): nat {
    if p.Recording? && p.outcome == Delivered then 1 else 0
  }

  /** Evictions and refusals a thread has yet to count. */
  function UncountedLosses<T>(p: Phase<T>): nat {
    match p
    case Swapping(_, _, evicted) => if evicted then 1 else 0
    case Recording(_, outcome, evicted) =>
      (if evicted then 1 else 0) + (if outcome == Dropped || outcome == WouldBlock then 1 else 0)
    case _ => 0
  }

  function DeliveredTo<T>(c: Channel<T>): nat {
    |c.delivered|
  }

  function EvictedFrom<T>(c: Channel<T>): nat {
    Evictions(c.fates)
  }

  ghost predicate Tallied<T>(w: World<T>) {
    && w.stats.delivered + Total(w.threads, Uncounted) == Total(w.channels, DeliveredTo)
    && w.stats.dropped + Total(w.threads, UncountedLosses) == Total(w.channels, EvictedFrom) + w.history.rejected
  }

  lemma MoveTallies<T>(t: nat, p: Phase<T>, c: Channel<T>, move: Move<T>, stats: Stats, h: History)
    requires CanMove(p, c, move) && WellFormed(c) && ThreadOk(t, p, c)
    ensures var (q, d) := Moved(t, p, c, move);
            var after := if move.Record? then Counted(stats, p) else stats;
            && after.delivered + Uncounted(q) + DeliveredTo(c) == stats.delivered + Uncounted(p) + DeliveredTo(d)
            && after.dropped + UncountedLosses(q) + EvictedFrom(c) + h.rejected ==
               stats.dropped + UncountedLosses(p) + EvictedFrom(d) + Noted(h, p, move, q).rejected
  {
    assert Init(c.fates + [Evicted]) == c.fates;
  }

  lemma StepTallies<T>(w: World<T>, act: Act<T>)
    requires Guarded(w) && Enabled(w, act) && Tallied(w)
    ensures Tallied(After(w, act))
  {
    match act
    case Receive(i) =>
      var d := Leaves(w.channels[i], Received);
      assert Init(d.fates) == w.channels[i].fates;
      TotalUpdate(w.channels, i, d, DeliveredTo);
      TotalUpdate(w.channels, i, d, EvictedFrom);
    case Act(t, move) =>
      var p := w.threads[t];
      var i := Target(p, move);
      var next := Moved(t, p, w.channels[i], move);
      MoveTallies(t, p, w.channels[i], move, w.stats, w.history);
      TotalUpdate(w.threads, t, next.0, Uncounted);
      TotalUpdate(w.threads, t, next.0, UncountedLosses);
      TotalUpdate(w.channels, i, next.1, DeliveredTo);
      TotalUpdate(w.channels, i, next.1, EvictedFrom);
  }

  lemma {:induction false} RunTallied<T>(worlds: seq<World<T>>, acts: seq<Act<T>>, n: nat)
    requires Run(worlds, acts) && n <= |acts|
    ensures Tallied(worlds[n])
    decreases n
  {
    if n == 0 {
      TotalZero(worlds[0].threads, Uncounted);
      TotalZero(worlds[0].threads, UncountedLosses);
      TotalZero(worlds[0].channels, DeliveredTo);
      TotalZero(worlds[0].channels, EvictedFrom);
    } else {
      assert StepAt(worlds, acts, n - 1);
      RunTallied(worlds, acts, n - 1);
      RunGuarded(worlds, acts, n - 1);
      StepTallies(worlds[n - 1], acts[n - 1]);
    }
  }

  predicate IsRefusal(outcome: Outcome) {
    outcome == Dropped || outcome == WouldBlock
  }

  /** Timeouts a thread has yet to count. */
  function UncountedTimeouts<T>(p: Phase<T>): nat {
    if p.Recording? && p.outcome == TimedOut then 1 else 0
  }

  /** A push that has begun and is neither counted nor turned away yet. */
  function Pending<T>(p: Phase<T>): nat {
    if p.Idle? || p.Closing? || (p.Recording? && IsRefusal(p.outcome)) then 0 else 1
  }

  /** The pushes that have ended, each counted under its outcome. */
  function Ended(stats: Stats, h: History): nat {
    stats.delivered + stats.timedOut + stats.closed + h.rejected
  }

  ghost predicate Reckoned<T>(w: World<T>) {
    && w.stats.timedOut + Total(w.threads, UncountedTimeouts) == w.history.timeouts
    && Ended(w.stats, w.history) + Total(w.threads, Pending) == w.history.begun
  }

  lemma MoveReckons<T>(t: nat, p: Phase<T>, c: Channel<T>, move: Move<T>, stats: Stats, h: History)
    requires CanMove(p, c, move) && ThreadOk(t, p, c)
    ensures var q := Moved(t, p, c, move).0;
            var after, later := if move.Record? then Counted(stats, p) else stats, Noted(h, p, move, q);
            && after.timedOut + UncountedTimeouts(q) + h.timeouts ==
               stats.timedOut + UncountedTimeouts(p) + later.timeouts
            && Ended(after, later) + Pending(q) + h.begun == Ended(stats, h) + Pending(p) + later.begun
  {
  }

  lemma {:induction false} RunReckoned<T>(worlds: seq<World<T>>, acts: seq<Act<T>>, n: nat)
    requires Run(worlds, acts) && n <= |acts|
    ensures Reckoned(worlds[n])
    decreases n
  {
    if n == 0 {
      TotalZero(worlds[0].threads, UncountedTimeouts);
      TotalZero(worlds[0].threads, Pending);
    } else {
      assert StepAt(worlds, acts, n - 1);
      RunReckoned(worlds, acts, n - 1);
      RunGuarded(worlds, acts, n - 1);
      StepReckons(worlds[n - 1], acts[n - 1]);
    }
  }

  lemma StepReckons<T>(w: World<T>, act: Act<T>)
    requires Guarded(w) && Enabled(w, act) && Reckoned(w)
    ensures Reckoned(After(w, act))
  {
    if act.Act? {
      var t, p := act.thread, w.threads[act.thread];
      var c := w.channels[Target(p, act.move)];
      var q := Moved(t, p, c, act.move).0;
      MoveReckons(t, p, c, act.move, w.stats, w.history);
      TotalUpdate(w.threads, t, q, UncountedTimeouts);
      TotalUpdate(w.threads, t, q, Pending);
    }
  }

  /** What a subscriber accounts for: received, evicted and still queued. */
  function Accounted<T>(c: Channel<T>): nat {
    |c.received| + Evictions(c.fates) + |c.sub.queue|
  }

  lemma {:induction false} AllAccounted<T>(channels: seq<Channel<T>>)
    requires forall c :: c in channels ==> InOrder(c)
    ensures Total(channels, DeliveredTo) == Total(channels, Accounted)
  {
    if channels != [] {
      AllAccounted(Init(channels));
      var c := Last(channels);
      assert c in channels;
      LeftIsReceivedOrEvicted(c.delivered[..|c.fates|], c.fates);
    }
  }

  /**
   Whenever no publisher is in flight, the delivered counter is the number of values received, evicted and
   queued over all subscribers; the dropped counter is the evictions plus the pushes turned away; the timed-out
   counter is the pushes that ran out of time; and the closed counter is all the other pushes that began.
   */
  lemma CountersAtRest<T>(worlds: seq<World<T>>, acts: seq<Act<T>>, n: nat)
    requires Run(worlds, acts) && n <= |acts| && forall p :: p in worlds[n].threads ==> p.Idle?
    ensures worlds[n].stats.delivered == Total(worlds[n].channels, Accounted)
    ensures worlds[n].stats.dropped == Total(worlds[n].channels, EvictedFrom) + worlds[n].history.rejected
    ensures worlds[n].stats.timedOut == worlds[n].history.timeouts
    ensures var stats, h := worlds[n].stats, worlds[n].history;
            h.begun == stats.delivered + h.rejected + stats.timedOut + stats.closed
  {
    RunTallied(worlds, acts, n);
    RunReckoned(worlds, acts, n);
    TotalZero(worlds[n].threads, Uncounted);
    TotalZero(worlds[n].threads, UncountedLosses);
    TotalZero(worlds[n].threads, UncountedTimeouts);
    TotalZero(worlds[n].threads, Pending);
    forall c | c in worlds[n].channels
      ensures InOrder(c)
    {
      var i :| 0 <= i < |worlds[n].channels| && worlds[n].channels[i] == c;
      ReceivedInOrder(worlds, acts, n, i);
    }
    AllAccounted(worlds[n].channels);
  }
}
