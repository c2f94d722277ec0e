/** What the thread pool promises, over every run from `thpool_init`. */
module PoolTheorems {
  import opened Wrappers
  import opened ThreadPool
  import opened PoolInvariant

  ghost predicate Reachable(s: Pool) {
    exists n: nat, m: nat, w: nat, acts: seq<Action> :: Run(Init(n, m, w), acts) == Some(s)
  }

  lemma ReachableInv(s: Pool)
    requires Reachable(s)
    ensures Inv(s)
  {
    var n: nat, m: nat, w: nat, acts: seq<Action> :| Run(Init(n, m, w), acts) == Some(s);
    InitInv(n, m, w);
    RunKeepsInv(Init(n, m, w), acts);
  }

  /** Jobs are pulled in push order; each pulled job is finished or in the hands of exactly one
      worker, never both. */
  lemma JobsConserved(s: Pool, k: nat)
    requires Reachable(s)
    ensures s.pushed == s.pulled + s.queue
    ensures k < |s.pulled| <==> (k in s.finished || exists i: nat :: i < |s.workers| && Has(s.workers[i], k))
    ensures forall i: nat, j: nat ::
              i < |s.workers| && j < |s.workers| && Has(s.workers[i], k) && Has(s.workers[j], k) ==>
                i == j && k !in s.finished
  {
    ReachableInv(s);
    if k < |s.pulled| && k !in s.finished { assert Held(s.workers, k); }
  }

  /** A job is run once: the step that finishes it finds it unfinished, and no step unfinishes one. */
  lemma RunAtMostOnce(s: Pool, a: Action, k: nat)
    requires Reachable(s) && Enabled(s, a)
    ensures k in s.finished ==> k in Apply(s, a).finished
    ensures a.Work? && s.workers[a.worker] == Running(Some(k)) ==> k !in s.finished && k in Apply(s, a).finished
  {
    ReachableInv(s);
    HistoriesGrow(s, a);
    if a.Work? && s.workers[a.worker] == Running(Some(k)) { assert Has(s.workers[a.worker], k); }
  }

  /** `num_threads_working` and `num_threads_alive` count what they say, and both mutexes exclude. */
  lemma CountersExact(s: Pool)
    requires Reachable(s)
    ensures s.working == Sum(s.workers, Counted) && s.alive == Sum(s.workers, Alive)
    ensures Sum(s.workers, WorkerHoldsRw) + Sum(s.pushers, PusherHoldsRw) <= 1 && Sum(s.waiters, WaiterHoldsTh) <= 1
  {
    ReachableInv(s);
  }

  /** No job is stranded: outside the queue lock a queued job has a posted semaphore or a worker on
      its way to it; and a posted semaphore with sleepers has a signalled worker. */
  lemma NoJobStranded(s: Pool)
    requires Reachable(s)
    ensures s.keepalive && !s.rwHeld && s.queue != [] ==> s.v == 1 || OnTheWay(s)
    ensures s.v == 1 && Asleep in s.workers ==> Signalled in s.workers
  {
    ReachableInv(s);
    if !s.rwHeld && PostPending(s) { HolderHolds(s); }
  }

  /** Whoever owes a post holds the queue's mutex. */
  lemma HolderHolds(s: Pool)
    requires CountersOk(s) && PostPending(s)
    ensures s.rwHeld
  {
    if Inserted in s.pushers {
      var k :| 0 <= k < |s.pushers| && s.pushers[k] == Inserted;
      SumUpdate(s.pushers, k, Idle, PusherHoldsRw);
    } else {
      var g :| g in s.workers && g.Posting?;
      var i :| 0 <= i < |s.workers| && s.workers[i] == g;
      SumUpdate(s.workers, i, Gone, WorkerHoldsRw);
    }
  }

  lemma NobodyCounted(s: Pool)
    requires CountersOk(s) && s.working == 0
    ensures forall i: nat, k: nat :: i < |s.workers| ==> !Has(s.workers[i], k)
  {
    forall i: nat, k: nat | i < |s.workers| ensures !Has(s.workers[i], k) {
      SumUpdate(s.workers, i, Gone, Counted);
    }
  }

  /** Of all steps of all threads one lets a caller of `thpool_wait` go, and that one exactly when nobody is
      counted as working. */
  lemma ReturnsBy(s: Pool, a: Action, j: nat)
    requires Enabled(s, a) && j < |s.waiters| && s.waiters[j] != Outside
    ensures |Apply(s, a).waiters| == |s.waiters|
    ensures Apply(s, a).waiters[j] == Outside <==> a == WaitReadWorking(j) && s.working == 0
  {
    hide NextStage, WakeWorker, WakesWorker, WakesWaiter, SignalAll;
  }

  /** Whatever step lets a caller of `thpool_wait` go, every job pushed before the call has finished then,
      though the call reads the queue's length without the queue's lock; and no worker has a job. */
  lemma WaitMeansFinished(s: Pool, a: Action, j: nat)
    requires Reachable(s) && Enabled(s, a) && j < |s.waiters| == |Apply(s, a).waiters|
    requires s.waiters[j] != Outside && Apply(s, a).waiters[j] == Outside
    ensures s.waiters[j].since <= |s.pulled| && forall k: nat :: k < s.waiters[j].since ==> k in s.finished
    ensures forall i: nat, k: nat :: i < |s.workers| ==> !Has(s.workers[i], k)
  {
    ReachableInv(s);
    ReturnsBy(s, a, j);
    NobodyCounted(s);
    assert s.waiters[j] in s.waiters;
    forall k: nat | k < s.waiters[j].since ensures k in s.finished {
      assert k in s.finished || Held(s.workers, k);
    }
  }

  /** A caller comes to have seen an empty queue in one way only. */
  lemma SeesEmptyBy(s: Pool, a: Action, j: nat)
    requires Enabled(s, a) && j < |s.waiters|
    ensures |Apply(s, a).waiters| == |s.waiters|
    ensures !s.waiters[j].LenZero? && Apply(s, a).waiters[j].LenZero? <==> a == WaitReadLen(j) && s.queue == []
  {
    hide NextStage, WakeWorker, WakesWorker, WakesWaiter, SignalAll;
  }

  /** Between the steps `i` and `|acts|` of a run caller `j` holds `thcount_lock`, having read at step `i` that
      the queue is empty. */
  ghost predicate SawEmptyAt(s: Pool, acts: seq<Action>, j: nat, i: nat) {
    && i < |acts| && acts[i] == WaitReadLen(j)
    && Run(s, acts[..i]).Some? && Run(s, acts[..i]).value.queue == []
    && forall k :: i < k <= |acts| ==>
         Run(s, acts[..k]).Some? && j < |Run(s, acts[..k]).value.waiters| && Run(s, acts[..k]).value.waiters[j].LenZero?
  }

  /** So whoever returns from `thpool_wait` has seen the queue empty, and held the lock since. */
  lemma {:induction false} SawEmpty(s: Pool, acts: seq<Action>, j: nat) returns (i: nat)
    requires j < |s.waiters| && !s.waiters[j].LenZero? && Run(s, acts).Some?
    requires |Run(s, acts).value.waiters| == |s.waiters| && Run(s, acts).value.waiters[j].LenZero?
    ensures SawEmptyAt(s, acts, j, i)
  {
    hide Apply, Enabled, SawEmptyAt;
    var u, a := acts[..|acts| - 1], acts[|acts| - 1];
    var t := Run(s, u).value;
    assert acts == u + [a];
    ThreadsStay(t, a);
    SeesEmptyBy(t, a, j);
    hide Run;
    if t.waiters[j].LenZero? {
      i := SawEmpty(s, u, j);
      SawLonger(s, u, a, j, i);
    } else {
      i := |u|;
      SawNow(s, u, a, j);
    }
  }

  lemma SawLonger(s: Pool, u: seq<Action>, a: Action, j: nat, i: nat)
    requires SawEmptyAt(s, u, j, i) && Run(s, u + [a]).Some? && j < |Run(s, u + [a]).value.waiters|
    requires Run(s, u + [a]).value.waiters[j].LenZero?
    ensures SawEmptyAt(s, u + [a], j, i)
  {
    hide Run;
    assert forall k :: 0 <= k <= |u| ==> (u + [a])[..k] == u[..k];
    assert (u + [a])[..|u| + 1] == u + [a];
  }

  lemma SawNow(s: Pool, u: seq<Action>, a: Action, j: nat)
    requires a == WaitReadLen(j) && Run(s, u).Some? && Run(s, u).value.queue == []
    requires Run(s, u + [a]).Some? && j < |Run(s, u + [a]).value.waiters|
    requires Run(s, u + [a]).value.waiters[j].LenZero?
    ensures SawEmptyAt(s, u + [a], j, |u|)
  {
    hide Run;
    assert (u + [a])[..|u|] == u && (u + [a])[..|u| + 1] == u + [a];
  }

  lemma ThreadsStay(s: Pool, a: Action)
    requires Enabled(s, a)
    ensures |Apply(s, a).workers| == |s.workers| && |Apply(s, a).waiters| == |s.waiters|
    ensures |Apply(s, a).pushers| == |s.pushers|
  {
    if a.Work? { WorkersAfter(s, a.worker, a.wake); }
  }

  /** What a waiter carries from call to return is the number of jobs pushed before the call. */
  lemma SinceIsFixed(s: Pool, a: Action, j: nat)
    requires Enabled(s, a) && j < |s.waiters|
    ensures |Apply(s, a).waiters| == |s.waiters|
    ensures s.waiters[j] == Outside && Apply(s, a).waiters[j] != Outside ==>
              Apply(s, a).waiters[j].since == |s.pushed|
    ensures s.waiters[j] != Outside && Apply(s, a).waiters[j] != Outside ==>
              Apply(s, a).waiters[j].since == s.waiters[j].since
  {
    hide NextStage, WakeWorker, WakesWorker, WakesWaiter, SignalAll;
  }

  // ----- The pool drains -----

  const POSTED: nat := 11

  function WorkerWeight(g: Worker): nat {
    match g
    case Gone | Asleep => 0
    case Signalled | Testing | Leaving => 1
    case Top => 2
    case Starting => 3
    case Uncounting => 6
    case Running(_) => 7
    case Unlocking(_) => 8
    case Pulling => 9
    case Counting => 10
    case Awake => 11
    case Posting(_) => 21
  }

  function PusherWeight(p: Pusher): nat {
    match p case Idle => 0 case Posted => 1 case Inserted => 14
  }

  function WaiterWeight(g: Waiter): nat {
    match g
    case Outside | Sleeping(_) => 0
    case LenZero(_) => 1
    case Reading(_) => 2
    case Entering(_) | Woken(_) => 3
  }

  /** Work left, in steps, over the queue, the semaphore and every thread's stage. */
  ghost function Measure(s: Pool): nat {
    13 * |s.queue| + (if s.v == 1 then POSTED else 0) + SumOf(s)
  }

  ghost function SumOf(s: Pool): nat {
    Sum(s.workers, WorkerWeight) + Sum(s.pushers, PusherWeight) + Sum(s.waiters, WaiterWeight)
  }

  /** Steps other than a new push, a new wait, a spurious wake-up or a shutdown. */
  predicate Internal(a: Action) {
    a.Work? || a.PushPost? || a.PushEnd? || a.WaitLock? || a.WaitReadLen? || a.WaitReadWorking?
  }

  lemma WakeCost(ws: seq<Worker>, w: nat)
    ensures Sum(WakeWorker(ws, w), WorkerWeight) <= Sum(ws, WorkerWeight) + 1
  {
    if w < |ws| && ws[w] == Asleep { SumUpdate(ws, w, Signalled, WorkerWeight); }
  }

  lemma WakeWaiterCost(ws: seq<Waiter>, w: nat)
    ensures Sum(WakeWaiter(ws, w), WaiterWeight) <= Sum(ws, WaiterWeight) + 3
  {
    if w < |ws| && ws[w].Sleeping? { SumUpdate(ws, w, Woken(ws[w].since), WaiterWeight); }
  }

  /** Queue, semaphore, the worker's own stage and what it may wake, taken together, weigh less. */
  lemma StageCost(s: Pool, i: nat, w: nat)
    requires (s.v == 0 || s.v == 1) && CanWork(s, i, w)
    ensures var t, g := WorkerStep(s, i, w), s.workers[i];
      13 * |t.queue| + (if t.v == 1 then POSTED else 0) + WorkerWeight(NextStage(s, g))
        + (if g.Posting? then 1 else 0) + (if g.Uncounting? then 3 else 0)
      < 13 * |s.queue| + (if s.v == 1 then POSTED else 0) + WorkerWeight(g)
  {
    hide WakeWorker, WakeWaiter, WakesWorker, WakesWaiter;
  }

  lemma OthersUntouched(s: Pool, i: nat, w: nat)
    requires CanWork(s, i, w)
    ensures var t, g := WorkerStep(s, i, w), s.workers[i];
      t.pushers == s.pushers && t.waiters == if g.Uncounting? && s.working == 1 then WakeWaiter(s.waiters, w)
        else s.waiters
  {
    hide NextStage, WakeWorker, WakeWaiter, WakesWorker, WakesWaiter;
  }

  lemma WorkerStepCost(s: Pool, i: nat, w: nat)
    requires (s.v == 0 || s.v == 1) && CanWork(s, i, w)
    ensures Measure(WorkerStep(s, i, w)) < Measure(s)
  {
    var g := s.workers[i];
    WorkersAfter(s, i, w);
    StageCost(s, i, w);
    OthersUntouched(s, i, w);
    hide WorkerStep, NextStage, WorkerWeight, WakeWorker, WakeWaiter;
    SumUpdate(s.workers, i, NextStage(s, g), WorkerWeight);
    WakeCost(s.workers[i := NextStage(s, g)], w);
    WakeWaiterCost(s.waiters, w);
  }

  lemma StepCost(s: Pool, a: Action)
    requires Inv(s) && Enabled(s, a) && Internal(a)
    ensures Measure(Apply(s, a)) < Measure(s)
  {
    if a.Work? {
      WorkerStepCost(s, a.worker, a.wake);
    } else if a.PushPost? || a.PushEnd? {
      PusherStepCost(s, a, a.pusher);
    } else {
      WaiterStepCost(s, a, a.waiter);
    }
  }

  lemma PusherStepCost(s: Pool, a: Action, k: nat)
    requires (s.v == 0 || s.v == 1) && Enabled(s, a) && (a.PushPost? || a.PushEnd?) && k == a.pusher
    ensures Measure(Apply(s, a)) < Measure(s)
  {
    hide WakeWorker, WakesWorker;
    SumUpdate(s.pushers, k, Apply(s, a).pushers[k], PusherWeight);
    if a.PushPost? { WakeCost(s.workers, a.wake); }
  }

  lemma WaiterStepCost(s: Pool, a: Action, j: nat)
    requires Enabled(s, a) && (a.WaitLock? || a.WaitReadLen? || a.WaitReadWorking?) && j == a.waiter
    ensures Measure(Apply(s, a)) < Measure(s)
  {
    SumUpdate(s.waiters, j, Apply(s, a).waiters[j], WaiterWeight);
  }

  /** Every run of internal steps is at most as long as the measure it starts with. */
  lemma {:induction false} InternalRunsEnd(s: Pool, acts: seq<Action>)
    requires Inv(s) && Run(s, acts).Some? && forall a :: a in acts ==> Internal(a)
    ensures |acts| + Measure(Run(s, acts).value) <= Measure(s)
  {
    if acts != [] {
      var u := acts[..|acts| - 1];
      InternalRunsEnd(s, u);
      RunKeepsInv(s, u);
      StepCost(Run(s, u).value, acts[|acts| - 1]);
    }
  }

  ghost predicate Quiescent(s: Pool) {
    forall a :: Internal(a) ==> !Enabled(s, a)
  }

  /** Whoever holds a mutex can take a step. */
  lemma HolderCanStep(s: Pool) returns (a: Action)
    requires CountersOk(s) && (s.rwHeld || s.thHeld)
    ensures Internal(a) && Enabled(s, a)
  {
    var w := Sleeper(s);
    if s.thHeld {
      var j := SumPositive(s.waiters, WaiterHoldsTh);
      a := if s.waiters[j].Reading? then WaitReadLen(j) else WaitReadWorking(j);
    } else if Sum(s.workers, WorkerHoldsRw) > 0 {
      var i := SumPositive(s.workers, WorkerHoldsRw);
      a := Work(i, w);
    } else {
      var k := SumPositive(s.pushers, PusherHoldsRw);
      a := if s.pushers[k] == Inserted then PushPost(k, w) else PushEnd(k);
    }
  }

  /** With no internal step left nobody holds a mutex. */
  lemma QuiescentUnlocked(s: Pool)
    requires CountersOk(s) && Quiescent(s)
    ensures !s.thHeld && !s.rwHeld
  {
    if s.rwHeld || s.thHeld {
      var a := HolderCanStep(s);
      assert false;
    }
  }

  /** Someone `pthread_cond_signal` may wake. */
  lemma Sleeper(s: Pool) returns (w: nat)
    ensures WakesWorker(s, w)
  {
    w := 0;
    if Asleep in s.workers {
      var j :| 0 <= j < |s.workers| && s.workers[j] == Asleep;
      w := j;
    }
  }

  lemma SleepingWaiter(s: Pool) returns (w: nat)
    ensures WakesWaiter(s, w)
  {
    w := 0;
    if exists x :: x in s.waiters && x.Sleeping? {
      var x :| x in s.waiters && x.Sleeping?;
      var j :| 0 <= j < |s.waiters| && s.waiters[j] == x;
      w := j;
    }
  }

  lemma QuiescentWorkers(s: Pool)
    requires Inv(s) && Quiescent(s)
    ensures forall g :: g in s.workers ==> g == Asleep || g == Gone
  {
    QuiescentUnlocked(s);
    forall g | g in s.workers ensures g == Asleep || g == Gone {
      var i :| 0 <= i < |s.workers| && s.workers[i] == g;
      var x := Sleeper(s);
      var y := SleepingWaiter(s);
      assert !Enabled(s, Work(i, if g.Uncounting? then y else x));
    }
  }

  /** The pool drains: when no internal step is left, the queue is empty, every pushed job has
      finished, and a single caller of `thpool_wait` has returned. */
  lemma QuiescentIsDrained(s: Pool)
    requires Inv(s) && Quiescent(s) && s.keepalive && |s.workers| >= 1
    ensures s.queue == [] && forall k: nat :: k < |s.pushed| ==> k in s.finished
    ensures |s.waiters| <= 1 ==> forall g :: g in s.waiters ==> g == Outside
  {
    QuiescentUnlocked(s);
    QuiescentWorkers(s);
    assert s.workers[0] in s.workers;
    if PostPending(s) { HolderHolds(s); }
    forall i | 0 <= i < |s.workers| ensures Counted(s.workers[i]) == 0 {
      assert s.workers[i] in s.workers;
    }
    SumZero(s.workers, Counted);
    NobodyCounted(s);
    forall k: nat | k < |s.pushed| ensures k in s.finished {
      assert k in s.finished || Held(s.workers, k);
    }
    forall g | |s.waiters| <= 1 && g in s.waiters ensures g == Outside {
      var j :| 0 <= j < |s.waiters| && s.waiters[j] == g;
      assert !Enabled(s, WaitLock(j)) && !Enabled(s, WaitReadLen(j)) && !Enabled(s, WaitReadWorking(j));
    }
  }

  /** From every reachable state some internal run drains the pool; by `InternalRunsEnd` every
      internal run that goes on as long as it can does. */
  lemma Drains(s: Pool) returns (acts: seq<Action>)
    requires Inv(s) && s.keepalive && |s.workers| >= 1
    ensures (forall a :: a in acts ==> Internal(a)) && Run(s, acts).Some?
    ensures var t := Run(s, acts).value; t.pushed == s.pushed && t.queue == [] && forall k: nat :: k < |s.pushed| ==>
      k in t.finished
    decreases Measure(s)
  {
    if Quiescent(s) {
      QuiescentIsDrained(s);
      acts := [];
    } else {
      var a :| Internal(a) && Enabled(s, a);
      StepKeepsInv(s, a);
      StepCost(s, a);
      InternalKeeps(s, a);
      var rest := Drains(Apply(s, a));
      acts := [a] + rest;
      RunFrom(s, a, rest);
    }
  }

  lemma InternalKeeps(s: Pool, a: Action)
    requires Enabled(s, a) && Internal(a)
    ensures var t := Apply(s, a); t.pushed == s.pushed && t.keepalive == s.keepalive && |t.workers| == |s.workers|
  {
    if a.Work? {
      WorkersAfter(s, a.worker, a.wake);
      WorkerKeeps(s, a.worker, a.wake);
      hide WorkerStep, CanWork, NextStage;
    }
  }

  lemma WorkerKeeps(s: Pool, i: nat, w: nat)
    requires CanWork(s, i, w)
    ensures WorkerStep(s, i, w).pushed == s.pushed && WorkerStep(s, i, w).keepalive == s.keepalive
  {
    hide NextStage, WakeWorker, WakeWaiter, WakesWorker, WakesWaiter;
  }

  lemma {:induction false} RunFrom(s: Pool, a: Action, rest: seq<Action>)
    requires Enabled(s, a)
    ensures Run(s, [a] + rest) == Run(Apply(s, a), rest)
  {
    hide Apply, Enabled;
    if rest == [] {
      assert ([a] + rest)[..0] == [];
    } else {
      RunFrom(s, a, rest[..|rest| - 1]);
      assert ([a] + rest)[..|rest|] == [a] + rest[..|rest| - 1];
    }
  }

  // ----- Shutdown -----

  function IsGone(g: Worker): nat { Bit(g == Gone) }

  /** Once every started worker is off the alive count, no job is in anyone's hands: what was pulled
      has finished and what was not is still queued, for `jobqueue_clear`. */
  lemma AllGone(s: Pool)
    requires Reachable(s) && s.alive == 0 && Starting !in s.workers
    ensures (forall g :: g in s.workers ==> g == Gone) && s.working == 0
    ensures s.pushed == s.pulled + s.queue && forall k: nat :: k < |s.pulled| <==> k in s.finished
  {
    ReachableInv(s);
    forall g | g in s.workers ensures g == Gone {
      var i :| 0 <= i < |s.workers| && s.workers[i] == g;
      SumUpdate(s.workers, i, Gone, Alive);
    }
    forall i | 0 <= i < |s.workers| ensures Counted(s.workers[i]) == 0 {
      assert s.workers[i] in s.workers;
    }
    SumZero(s.workers, Counted);
    NobodyCounted(s);
    forall k: nat | k < |s.pulled| ensures k in s.finished {
      assert k in s.finished || Held(s.workers, k);
    }
  }

  /** After a broadcast: another worker has gone, or the post is still to be taken, or whoever took
      it, or was not waiting, is on its way out. */
  ghost predicate OneMoreLeaves(s: Pool, gone: nat) {
    || Sum(s.workers, IsGone) > gone
    || s.v == 1
    || exists g :: g in s.workers && Moving(g)
  }

  predicate Moving(g: Worker) {
    g != Asleep && g != Signalled && g != Testing && g != Gone
  }

  /** A worker takes the post by moving, and moves until it has gone. */
  lemma MovesOn(s: Pool, i: nat, w: nat)
    requires CanWork(s, i, w) && !s.keepalive
    ensures var t := WorkerStep(s, i, w); i < |s.workers| == |t.workers| && !t.keepalive
    ensures var t := WorkerStep(s, i, w); var g, h := s.workers[i], t.workers[i];
      && (s.v == 1 ==> t.v == 1 || Moving(h)) && (Moving(g) ==> Moving(h) || (IsGone(g) == 0 && IsGone(h) == 1))
      && IsGone(g) <= IsGone(h) && IsGone(Asleep) == IsGone(Signalled) == 0 && !Moving(Asleep)
  {
    WorkersAfter(s, i, w);
    hide WakeWorker, WakeWaiter, WakesWorker, WakesWaiter;
  }

  lemma WorkerKeepsLeaving(s: Pool, i: nat, w: nat, gone: nat)
    requires Inv(s) && !s.keepalive && OneMoreLeaves(s, gone) && Sum(s.workers, IsGone) >= gone && CanWork(s, i, w)
    ensures var t := WorkerStep(s, i, w);
      !t.keepalive && OneMoreLeaves(t, gone) && Sum(t.workers, IsGone) >= gone
  {
    hide WorkerStep, NextStage, CanWork, Moving, Inv, IsGone;
    MovesOn(s, i, w);
    var t, g := WorkerStep(s, i, w), s.workers[i];
    WorkerSum(s, i, w, IsGone);
    WorkersAfter(s, i, w);
    OthersStay(s, i, w);
    assert t.workers[i] in t.workers;
    if exists h :: h in s.workers && Moving(h) {
      var h :| h in s.workers && Moving(h);
      assert h == g || h in t.workers;
    }
  }

  lemma KeepsLeaving(s: Pool, a: Action, gone: nat)
    requires Inv(s) && !s.keepalive && OneMoreLeaves(s, gone) && Sum(s.workers, IsGone) >= gone
    requires Enabled(s, a) && Internal(a)
    ensures var t := Apply(s, a);
      !t.keepalive && OneMoreLeaves(t, gone) && Sum(t.workers, IsGone) >= gone
  {
    if a.Work? {
      WorkerKeepsLeaving(s, a.worker, a.wake, gone);
    } else if a.PushPost? {
      WakeKeepsSum(s.workers, a.wake, IsGone);
    }
  }

  lemma {:induction false} RunKeepsLeaving(s: Pool, acts: seq<Action>, gone: nat)
    requires Inv(s) && !s.keepalive && OneMoreLeaves(s, gone) && Sum(s.workers, IsGone) >= gone
    requires Run(s, acts).Some? && forall a :: a in acts ==> Internal(a)
    ensures var t := Run(s, acts).value;
      Inv(t) && !t.keepalive && OneMoreLeaves(t, gone) && Sum(t.workers, IsGone) >= gone && |t.workers| == |s.workers|
  {
    if acts != [] {
      var u, a := acts[..|acts| - 1], acts[|acts| - 1];
      RunKeepsLeaving(s, u, gone);
      StepKeepsInv(Run(s, u).value, a);
      HistoriesGrow(Run(s, u).value, a);
      KeepsLeaving(Run(s, u).value, a, gone);
    }
  }

  lemma {:induction false} AllGoneSum(ws: seq<Worker>)
    requires forall i :: 0 <= i < |ws| ==> ws[i] == Gone
    ensures Sum(ws, IsGone) == |ws|
  {
    if ws != [] {
      AllGoneSum(ws[..|ws| - 1]);
    }
  }

  /** Each `bsem_post_all` of `thpool_destroy`, left to take its course, lets at least one more
      worker go while any is left, although the semaphore it broadcasts admits only one. */
  lemma EachBroadcastReleases(s: Pool, acts: seq<Action>)
    requires Inv(s) && !s.keepalive && Sum(s.workers, IsGone) < |s.workers|
    requires Run(Apply(s, PostAll), acts).Some? && (forall a :: a in acts ==> Internal(a))
    requires Quiescent(Run(Apply(s, PostAll), acts).value)
    ensures Sum(Run(Apply(s, PostAll), acts).value.workers, IsGone) > Sum(s.workers, IsGone)
  {
    var gone, p := Sum(s.workers, IsGone), Apply(s, PostAll);
    StepKeepsInv(s, PostAll);
    SignalAllKeepsSum(s.workers, IsGone);
    RunKeepsLeaving(p, acts, gone);
    var t := Run(p, acts).value;
    QuiescentWorkers(t);
    if Asleep !in t.workers {
      forall i | 0 <= i < |t.workers| ensures t.workers[i] == Gone {
        assert t.workers[i] in t.workers;
      }
      AllGoneSum(t.workers);
    }
  }
}
