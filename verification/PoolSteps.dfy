/** When a thread can take its next step, where it stands then, and what has been run once it has. */
module PoolSteps {
  import opened Lists
  import opened ThreadPool
  import opened PoolInvariant
  import opened PoolTheorems

  // ----- What keeps a thread from going on -----

  ghost predicate HoldsQueue(s: Pool) {
    || (exists g :: g in s.workers && (g.Posting? || g.Unlocking?))
    || Inserted in s.pushers || Posted in s.pushers
  }

  ghost predicate HoldsCounters(s: Pool) {
    exists g :: g in s.waiters && (g.Reading? || g.LenZero?)
  }

  /** A mutex is locked exactly while some thread stands between its lock and its unlock. */
  lemma HeldBySomeone(s: Pool)
    requires Reachable(s)
    ensures s.rwHeld <==> HoldsQueue(s)
    ensures s.thHeld <==> HoldsCounters(s)
  {
    ReachableInv(s);
    if s.rwHeld { QueueHolder(s); }
    if s.thHeld {
      var j := SumPositive(s.waiters, WaiterHoldsTh);
      assert s.waiters[j] in s.waiters;
    }
    if g :| g in s.workers && (g.Posting? || g.Unlocking?) {
      var i :| 0 <= i < |s.workers| && s.workers[i] == g;
      SumUpdate(s.workers, i, Gone, WorkerHoldsRw);
    }
    if p :| p in s.pushers && p != Idle {
      var k :| 0 <= k < |s.pushers| && s.pushers[k] == p;
      SumUpdate(s.pushers, k, Idle, PusherHoldsRw);
    }
    if g :| g in s.waiters && (g.Reading? || g.LenZero?) {
      var j :| 0 <= j < |s.waiters| && s.waiters[j] == g;
      SumUpdate(s.waiters, j, Outside, WaiterHoldsTh);
    }
  }

  lemma QueueHolder(s: Pool)
    requires CountersOk(s) && s.rwHeld
    ensures HoldsQueue(s)
  {
    if Sum(s.workers, WorkerHoldsRw) > 0 {
      var i := SumPositive(s.workers, WorkerHoldsRw);
      assert s.workers[i] in s.workers;
    } else {
      var k := SumPositive(s.pushers, PusherHoldsRw);
      assert s.pushers[k] in s.pushers;
    }
  }

  /** A worker can go on unless it has gone or sleeps, or wants a mutex some other thread holds. */
  lemma WorkerGoesOn(s: Pool, i: nat)
    requires Reachable(s) && i < |s.workers|
    ensures (exists w :: Enabled(s, Work(i, w))) <==>
              var g := s.workers[i];
              && g != Gone && g != Asleep
              && (g.Starting? || g.Counting? || g.Uncounting? || g.Leaving? ==> !HoldsCounters(s))
              && (g.Pulling? ==> !HoldsQueue(s))
  {
    HeldBySomeone(s);
    var x := Sleeper(s);
    var y := SleepingWaiter(s);
    hide HoldsQueue, HoldsCounters, WakesWorker, WakesWaiter;
    assert Enabled(s, Work(i, if s.workers[i].Uncounting? then y else x)) <==> exists w :: Enabled(s, Work(i, w));
  }

  /** A push of any job can begin unless the pusher is at it, or some thread holds the queue; it then goes on. */
  lemma PusherGoesOn(s: Pool, k: nat, job: Job)
    requires Reachable(s) && k < |s.pushers|
    ensures Enabled(s, PushBegin(k, job)) <==> s.pushers[k] == Idle && !HoldsQueue(s)
    ensures (exists w :: Enabled(s, PushPost(k, w))) <==> s.pushers[k] == Inserted
    ensures Enabled(s, PushEnd(k)) <==> s.pushers[k] == Posted
  {
    HeldBySomeone(s);
    var x := Sleeper(s);
    hide HoldsQueue, WakesWorker;
    assert s.pushers[k] == Inserted ==> Enabled(s, PushPost(k, x));
  }

  /** The same of a caller of `thpool_wait`, which may also be woken for nothing; and of shutting down. */
  lemma WaiterGoesOn(s: Pool, j: nat)
    requires Reachable(s) && j < |s.waiters|
    ensures Enabled(s, WaitCall(j)) <==> s.waiters[j].Outside?
    ensures Enabled(s, WaitLock(j)) <==> (s.waiters[j].Entering? || s.waiters[j].Woken?) && !HoldsCounters(s)
    ensures Enabled(s, WaitReadLen(j)) <==> s.waiters[j].Reading?
    ensures Enabled(s, WaitReadWorking(j)) <==> s.waiters[j].LenZero?
    ensures Enabled(s, SpuriousWaiter(j)) <==> s.waiters[j].Sleeping?
    ensures Enabled(s, Shutdown) && (Enabled(s, PostAll) <==> !s.keepalive)
  {
    HeldBySomeone(s);
    hide HoldsCounters;
  }

  /** A signal wakes one sleeper, any of them; nobody else moves. */
  lemma AnySleeper(s: Pool, k: nat, w: nat)
    requires k < |s.pushers| && s.pushers[k] == Inserted && w < |s.workers| && s.workers[w] == Asleep
    ensures Enabled(s, PushPost(k, w)) && Enabled(s, SpuriousWorker(w))
    ensures Apply(s, PushPost(k, w)).workers == s.workers[w := Signalled]
    ensures Apply(s, SpuriousWorker(w)) == s.(workers := s.workers[w := Signalled])
  {
  }

  /** The worker that leaves nobody counted as working signals one waiter, any that sleeps; no other step of a
      worker wakes one. */
  lemma AnyWaiter(s: Pool, i: nat, w: nat)
    requires Reachable(s) && i < |s.workers| && w < |s.waiters|
    ensures s.workers[i] == Uncounting && !HoldsCounters(s) && s.working == 1 && s.waiters[w].Sleeping? ==>
              && Enabled(s, Work(i, w))
              && Apply(s, Work(i, w)).waiters == s.waiters[w := Woken(s.waiters[w].since)]
    ensures Enabled(s, Work(i, w)) && !(s.workers[i] == Uncounting && s.working == 1) ==>
              Apply(s, Work(i, w)).waiters == s.waiters
  {
    HeldBySomeone(s);
    hide NextStage, WakeWorker, WakesWorker, HoldsCounters, Reachable;
  }

  // ----- Where a thread comes from -----

  /** Where a worker that now stands at `h`, having moved, stood before, and what it found. */
  ghost predicate CameBy(s: Pool, g: Worker, h: Worker) {
    match h
    case Starting => false
    case Top => g == Starting || g == Uncounting || (g == Awake && !s.keepalive)
    case Testing => g == Top && s.keepalive
    case Asleep => (g == Testing || g == Signalled) && s.v == 0
    case Signalled => g == Asleep
    case Awake => (g == Testing || g == Signalled) && s.v == 1
    case Counting => g == Awake && s.keepalive
    case Pulling => g == Counting
    case Posting(k) => g == Pulling && |s.queue| >= 2 && k == |s.pulled|
    case Unlocking(o) =>
      || (o.Some? && g == Posting(o.value))
      || (g == Pulling && o.Some? && |s.queue| == 1 && o.value == |s.pulled|)
      || (g == Pulling && o.None? && s.queue == [])
    case Running(o) => g == Unlocking(o)
    case Uncounting => g.Running?
    case Leaving => g == Top && !s.keepalive
    case Gone => g == Leaving
  }

  /** A worker moves by its own steps, every one of them, and along the loop of `thread_do`; others only wake
      it. */
  lemma WorkerMoves(s: Pool, a: Action, i: nat)
    requires (s.v == 0 || s.v == 1) && Enabled(s, a) && i < |s.workers| == |Apply(s, a).workers|
    ensures var g, h := s.workers[i], Apply(s, a).workers[i];
      && (g != h ==> CameBy(s, g, h)) && (a.Work? && a.worker == i ==> g != h)
      && (g != h && !(a.Work? && a.worker == i) ==> h == Signalled)
  {
    if a.Work? {
      WorkersAfter(s, a.worker, a.wake);
      hide WorkerStep;
    }
  }

  /** The same of a pusher, whose three steps go round. */
  lemma PusherMoves(s: Pool, a: Action, k: nat)
    requires Enabled(s, a) && k < |s.pushers|
    ensures |Apply(s, a).pushers| == |s.pushers|
    ensures var p, q := s.pushers[k], Apply(s, a).pushers[k];
      && (p != q <==> (a.PushBegin? || a.PushPost? || a.PushEnd?) && a.pusher == k)
      && (p != q ==> match q case Idle => p == Posted case Inserted => p == Idle case Posted => p == Inserted)
  {
    hide NextStage, WakeWorker, WakesWorker, WakeWaiter, WakesWaiter, SignalAll;
  }

  /** And of a caller of `thpool_wait`. */
  lemma WaiterMoves(s: Pool, a: Action, j: nat)
    requires Enabled(s, a) && j < |s.waiters|
    ensures |Apply(s, a).waiters| == |s.waiters|
    ensures var g, h := s.waiters[j], Apply(s, a).waiters[j];
      g != h ==>
        match h
        case Outside => g.LenZero? && s.working == 0
        case Entering(n) => g == Outside && n == |s.pushed|
        case Reading(n) => g == Entering(n) || g == Woken(n)
        case LenZero(n) => g == Reading(n) && s.queue == []
        case Sleeping(n) => (g == Reading(n) && s.queue != []) || (g == LenZero(n) && s.working != 0)
        case Woken(n) => g == Sleeping(n)
    ensures (a.WaitCall? || a.WaitLock? || a.WaitReadLen? || a.WaitReadWorking? || a.SpuriousWaiter?) ==>
              a.waiter == j ==> s.waiters[j] != Apply(s, a).waiters[j]
  {
    hide NextStage, WakeWorker, WakesWorker, WakesWaiter, SignalAll;
    if a.Work? {
      WorkerCounts(s, a.worker, a.wake);
      hide WorkerStep, CanWork;
    }
  }

  // ----- Histories -----

  /** The jobs of the pushes in a run. */
  function JobsPushed(acts: seq<Action>): seq<Job> {
    if acts == [] then []
    else
      var a := acts[|acts| - 1];
      JobsPushed(acts[..|acts| - 1]) + if a.PushBegin? then [a.new_] else []
  }

  /** The job that a step calls, if it does. */
  function CalledBy(s: Pool, a: Action): (ran: seq<nat>)
    requires Enabled(s, a)
  {
    if a.Work? && s.workers[a.worker].Running? && s.workers[a.worker].job.Some?
    then [s.workers[a.worker].job.value] else []
  }

  /** The jobs called in a run, in order, by their position among the jobs pushed. */
  function JobsRun(s: Pool, acts: seq<Action>): seq<nat>
    requires Run(s, acts).Some?
  {
    if acts == [] then []
    else
      var t, a := Run(s, acts[..|acts| - 1]).value, acts[|acts| - 1];
      JobsRun(s, acts[..|acts| - 1]) + CalledBy(t, a)
  }

  ghost predicate History(t: Pool, acts: seq<Action>, ran: seq<nat>) {
    && t.pushed == JobsPushed(acts) && NoDup(ran) && (forall k :: k in ran <==> k in t.finished)
    && (t.keepalive <==> Shutdown !in acts)
  }

  /** What one step adds to the histories. */
  lemma StepHistory(s: Pool, a: Action)
    requires Enabled(s, a)
    ensures var t := Apply(s, a);
      && t.pushed == s.pushed + (if a.PushBegin? then [a.new_] else [])
      && t.finished == s.finished + (set k | k in CalledBy(s, a))
      && (t.keepalive <==> s.keepalive && !a.Shutdown?)
  {
    hide NextStage, WakeWorker, WakesWorker, WakeWaiter, WakesWaiter, SignalAll;
  }

  lemma {:induction false} RunHistory(n: nat, m: nat, w: nat, acts: seq<Action>)
    requires Run(Init(n, m, w), acts).Some?
    ensures History(Run(Init(n, m, w), acts).value, acts, JobsRun(Init(n, m, w), acts))
  {
    var s := Init(n, m, w);
    if acts != [] {
      var u, a := acts[..|acts| - 1], acts[|acts| - 1];
      assert acts == u + [a];
      RunHistory(n, m, w, u);
      InitInv(n, m, w);
      RunKeepsInv(s, u);
      var t := Run(s, u).value;
      assert Enabled(t, a) && Run(s, acts).value == Apply(t, a);
      assert JobsRun(s, acts) == JobsRun(s, u) + CalledBy(t, a);
      hide *;
      NextHistory(t, u, a, JobsRun(s, u));
    }
  }

  lemma PushedNext(u: seq<Action>, a: Action)
    ensures JobsPushed(u + [a]) == JobsPushed(u) + if a.PushBegin? then [a.new_] else []
  {
    assert (u + [a])[..|u|] == u;
  }

  lemma AppendedOnce(ran: seq<nat>, more: seq<nat>, done: set<nat>)
    requires NoDup(ran) && (forall k :: k in ran <==> k in done) && |more| <= 1 && forall k :: k in more ==> k !in done
    ensures NoDup(ran + more) && forall k :: k in ran + more <==> k in done || k in more
  {
    assert forall i :: 0 <= i < |ran| ==> ran[i] in ran;
    assert forall i :: 0 <= i < |more| ==> more[i] in more;
  }

  lemma NextHistory(t: Pool, u: seq<Action>, a: Action, ran: seq<nat>)
    requires Inv(t) && Enabled(t, a) && History(t, u, ran)
    ensures History(Apply(t, a), u + [a], ran + CalledBy(t, a))
  {
    StepHistory(t, a);
    NotYetRun(t, a);
    PushedNext(u, a);
    AppendedOnce(ran, CalledBy(t, a), t.finished);
    hide Apply, Enabled, Inv, JobsPushed, CalledBy, NoDup;
    assert forall x :: x in u + [a] <==> x in u || x == a;
  }

  lemma NotYetRun(s: Pool, a: Action)
    requires Inv(s) && Enabled(s, a)
    ensures forall k :: k in CalledBy(s, a) ==> k !in s.finished
  {
    if a.Work? && s.workers[a.worker].Running? && s.workers[a.worker].job.Some? {
      assert Has(s.workers[a.worker], s.workers[a.worker].job.value);
    }
  }

  /** A job is called once, and only if it was pushed; and once no internal step is left, and the pool is not
      being shut down, every job pushed has been called. */
  lemma EveryJobRunsOnce(n: nat, m: nat, w: nat, acts: seq<Action>)
    requires Run(Init(n, m, w), acts).Some?
    ensures var jobs, ran := JobsPushed(acts), JobsRun(Init(n, m, w), acts);
      && NoDup(ran) && (forall k :: k in ran ==> k < |jobs|)
      && (n >= 1 && Shutdown !in acts && Quiescent(Run(Init(n, m, w), acts).value) ==>
            forall k :: 0 <= k < |jobs| ==> k in ran)
  {
    var s := Init(n, m, w);
    var t := Run(s, acts).value;
    RunHistory(n, m, w, acts);
    InitInv(n, m, w);
    RunKeepsInv(s, acts);
    SameWorkers(s, acts);
    if n >= 1 && Shutdown !in acts && Quiescent(t) { QuiescentIsDrained(t); }
  }

  lemma {:induction false} SameWorkers(s: Pool, acts: seq<Action>)
    requires Run(s, acts).Some?
    ensures |Run(s, acts).value.workers| == |s.workers|
  {
    if acts != [] {
      SameWorkers(s, acts[..|acts| - 1]);
      ThreadsStay(Run(s, acts[..|acts| - 1]).value, acts[|acts| - 1]);
    }
  }

  // ----- The semaphore -----

  /** How often a worker has got past `bsem_wait` in a run. */
  function Passes(s: Pool, acts: seq<Action>): nat
    requires Run(s, acts).Some?
  {
    if acts == [] then 0
    else
      var t, a := Run(s, acts[..|acts| - 1]).value, acts[|acts| - 1];
      Passes(s, acts[..|acts| - 1]) + if a.Work? && Apply(t, a).workers[a.worker].Awake? then 1 else 0
  }

  /** How often the semaphore has been posted. */
  function Posts(s: Pool, acts: seq<Action>): nat
    requires Run(s, acts).Some?
  {
    if acts == [] then 0
    else
      var t, a := Run(s, acts[..|acts| - 1]).value, acts[|acts| - 1];
      Posts(s, acts[..|acts| - 1])
        + if a.PushPost? || a.PostAll? || (a.Work? && t.workers[a.worker].Posting?) then 1 else 0
  }

  lemma SemaphoreStep(s: Pool, a: Action)
    requires Enabled(s, a) && (s.v == 0 || s.v == 1)
    ensures |Apply(s, a).workers| == |s.workers|
    ensures var t := Apply(s, a);
      if a.PushPost? || a.PostAll? || (a.Work? && s.workers[a.worker].Posting?) then
        t.v == 1 && (a.Work? ==> !t.workers[a.worker].Awake?)
      else if a.Work? && t.workers[a.worker].Awake? then s.v == 1 && t.v == 0
      else t.v == s.v
  {
    ThreadsStay(s, a);
    hide WakeWaiter, WakesWorker, WakesWaiter, SignalAll;
  }

  /** Each post of the semaphore lets at most one worker through. */
  lemma {:induction false} OnePassAPost(n: nat, m: nat, w: nat, acts: seq<Action>)
    requires Run(Init(n, m, w), acts).Some?
    ensures Passes(Init(n, m, w), acts) + Run(Init(n, m, w), acts).value.v <= Posts(Init(n, m, w), acts)
    ensures 0 <= Run(Init(n, m, w), acts).value.v <= 1
  {
    var s := Init(n, m, w);
    if acts != [] {
      OnePassAPost(n, m, w, acts[..|acts| - 1]);
      SemaphoreStep(Run(s, acts[..|acts| - 1]).value, acts[|acts| - 1]);
      hide Apply, Enabled, Init;
    }
  }
}
