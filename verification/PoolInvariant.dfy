/** What every step of the thread pool keeps, in every interleaving of any number of threads. */
module PoolInvariant {
  import opened Wrappers
  import opened ThreadPool

  // ----- Sums over threads -----

  ghost function Sum<T>(l: seq<T>, f: T -> nat): nat {
    if l == [] then 0 else Sum(l[..|l| - 1], f) + f(l[|l| - 1])
  }

  lemma {:induction false} SumUpdate<T>(l: seq<T>, i: nat, x: T, f: T -> nat)
    requires i < |l|
    ensures Sum(l[i := x], f) == Sum(l, f) - f(l[i]) + f(x)
    ensures Sum(l, f) >= f(l[i])
  {
    var m := l[i := x];
    if i == |l| - 1 {
      assert m[..|l| - 1] == l[..|l| - 1];
    } else {
      assert m[..|l| - 1] == l[..|l| - 1][i := x];
      SumUpdate(l[..|l| - 1], i, x, f);
    }
  }

  lemma {:induction false} SumPositive<T>(l: seq<T>, f: T -> nat) returns (i: nat)
    requires Sum(l, f) > 0
    ensures i < |l| && f(l[i]) > 0
  {
    if f(l[|l| - 1]) > 0 {
      i := |l| - 1;
    } else {
      i := SumPositive(l[..|l| - 1], f);
    }
  }

  lemma {:induction false} SumZero<T>(l: seq<T>, f: T -> nat)
    requires forall i :: 0 <= i < |l| ==> f(l[i]) == 0
    ensures Sum(l, f) == 0
  {
    if l != [] { SumZero(l[..|l| - 1], f); }
  }

  // ----- The invariant -----

  function Bit(b: bool): nat { if b then 1 else 0 }

  /** Between num_threads_working++ and num_threads_working--. */
  function Counted(g: Worker): nat {
    Bit(g.Pulling? || g.Posting? || g.Unlocking? || g.Running? || g.Uncounting?)
  }

  function Alive(g: Worker): nat { Bit(!g.Starting? && !g.Gone?) }

  function WorkerHoldsRw(g: Worker): nat { Bit(g.Posting? || g.Unlocking?) }

  function PusherHoldsRw(g: Pusher): nat { Bit(g.Inserted? || g.Posted?) }

  function WaiterHoldsTh(g: Waiter): nat { Bit(g.Reading? || g.LenZero?) }

  /** Worker `g` has taken job `k` from the queue and not finished it. */
  predicate Has(g: Worker, k: nat) {
    g == Posting(k) || g == Unlocking(Some(k)) || g == Running(Some(k))
  }

  ghost predicate JobsOk(s: Pool) {
    && s.pushed == s.pulled + s.queue
    && (forall k :: k in s.finished ==> k < |s.pulled|)
    && (forall i: nat, k: nat {:trigger Has(s.workers[i], k)} ::
          i < |s.workers| && Has(s.workers[i], k) ==> k < |s.pulled| && k !in s.finished)
    && (forall i: nat, j: nat, k: nat ::
          i < |s.workers| && j < |s.workers| && Has(s.workers[i], k) && Has(s.workers[j], k) ==> i == j)
    && (forall k: nat :: k < |s.pulled| && k !in s.finished ==> Held(s.workers, k))
  }

  ghost predicate Held(ws: seq<Worker>, k: nat) {
    exists i: nat :: i < |ws| && Has(ws[i], k)
  }

  ghost predicate CountersOk(s: Pool) {
    && s.working == Sum(s.workers, Counted) && s.alive == Sum(s.workers, Alive)
    && Sum(s.workers, WorkerHoldsRw) + Sum(s.pushers, PusherHoldsRw) == Bit(s.rwHeld)
    && Sum(s.waiters, WaiterHoldsTh) == Bit(s.thHeld)
    && (s.v == 0 || s.v == 1)
  }

  /** Someone will post the semaphore before releasing the queue. */
  ghost predicate PostPending(s: Pool) {
    (exists g :: g in s.workers && g.Posting?) || Inserted in s.pushers
  }

  /** Some worker has returned from bsem_wait and not yet pulled. */
  ghost predicate OnTheWay(s: Pool) {
    Awake in s.workers || Counting in s.workers || Pulling in s.workers
  }

  ghost predicate NoLostWakeup(s: Pool) {
    && (s.keepalive && s.queue != [] ==> s.v == 1 || OnTheWay(s) || PostPending(s))
    && (s.v == 1 && Asleep in s.workers ==> Signalled in s.workers)
    && (s.keepalive ==> Leaving !in s.workers && Gone !in s.workers)
  }

  ghost predicate WaitersOk(s: Pool) {
    && (forall g :: g in s.waiters && g != Outside ==> g.since <= |s.pushed|)
    && (forall g :: g in s.waiters && g.LenZero? ==> g.since <= |s.pulled|)
  }

  /** A sleeping waiter has something left to be signalled for. */
  ghost predicate WaiterNotStranded(s: Pool) {
    (exists g :: g in s.waiters && g.Sleeping?) ==> s.queue != [] || s.working > 0
  }

  ghost predicate Inv(s: Pool) {
    && JobsOk(s) && CountersOk(s) && NoLostWakeup(s) && WaitersOk(s)
    && (|s.waiters| <= 1 ==> WaiterNotStranded(s))
  }

  lemma InitInv(workers: nat, pushers: nat, waiters: nat)
    ensures Inv(Init(workers, pushers, waiters))
  {
    var s := Init(workers, pushers, waiters);
    SumZero(s.workers, Counted);
    SumZero(s.workers, Alive);
    SumZero(s.workers, WorkerHoldsRw);
    SumZero(s.pushers, PusherHoldsRw);
    SumZero(s.waiters, WaiterHoldsTh);
  }

  /** A worker's step sets its own place, and at most wakes one sleeper besides. */
  lemma WorkersAfter(s: Pool, i: nat, w: nat)
    requires CanWork(s, i, w)
    ensures var ws, g := s.workers[i := NextStage(s, s.workers[i])], s.workers[i];
      WorkerStep(s, i, w).workers == if g.Posting? then WakeWorker(ws, w) else ws
    ensures |WorkerStep(s, i, w).workers| == |s.workers|
    ensures WorkerStep(s, i, w).workers[i] == NextStage(s, s.workers[i])
  {
  }

  // ----- Jobs -----

  /** Who has which job after a step of worker `i`. */
  lemma HasAfter(s: Pool, i: nat, w: nat)
    requires CanWork(s, i, w)
    ensures var t := WorkerStep(s, i, w);
      && |t.workers| == |s.workers|
      && (forall j: nat, k: nat :: j < |s.workers| && j != i ==> (Has(t.workers[j], k) <==> Has(s.workers[j], k)))
      && (forall k: nat :: Has(t.workers[i], k) <==>
            (Has(s.workers[i], k) && !s.workers[i].Running?)
              || (s.workers[i] == Pulling && s.queue != [] && k == |s.pulled|))
  {
    WorkersAfter(s, i, w);
    hide WorkerStep;
  }

  lemma WorkerKeepsJobs(s: Pool, i: nat, w: nat)
    requires JobsOk(s) && CanWork(s, i, w)
    ensures JobsOk(WorkerStep(s, i, w))
  {
    var t := WorkerStep(s, i, w);
    HasAfter(s, i, w);
    WorkerHistory(s, i, w);
    assert forall k :: s.workers[i] == Running(Some(k)) ==> Has(s.workers[i], k);
    assert forall k: nat :: k in t.finished && k !in s.finished ==> Has(s.workers[i], k) && !Has(t.workers[i], k);
    forall j: nat, k: nat | j < |t.workers| && Has(t.workers[j], k)
      ensures k < |t.pulled| && k !in t.finished
    {
      if j != i { assert Has(s.workers[j], k); }
    }
    forall j: nat, l: nat, k: nat | j < |t.workers| && l < |t.workers| && Has(t.workers[j], k) && Has(t.workers[l], k)
      ensures j == l
    {
      if j != i { assert Has(s.workers[j], k); }
      if l != i { assert Has(s.workers[l], k); }
    }
    forall k: nat | k < |t.pulled| && k !in t.finished
      ensures Held(t.workers, k)
    {
      if k < |s.pulled| {
        assert k !in s.finished;
        var j: nat :| j < |s.workers| && Has(s.workers[j], k);
        assert Has(t.workers[j], k);
      } else {
        assert Has(t.workers[i], k);
      }
    }
  }

  /** The histories after a step of worker `i`. */
  lemma WorkerHistory(s: Pool, i: nat, w: nat)
    requires CanWork(s, i, w)
    ensures var t := WorkerStep(s, i, w);
      && t.pushed == s.pushed && t.pulled + t.queue == s.pulled + s.queue
      && |t.pulled| == |s.pulled| + (if s.workers[i] == Pulling && s.queue != [] then 1 else 0)
      && s.finished <= t.finished
      && (forall k :: k in t.finished && k !in s.finished <==> s.workers[i] == Running(Some(k)) && k !in s.finished)
  {
  }

  lemma SameHas(s: Pool, t: Pool)
    requires |t.workers| == |s.workers|
    requires forall i: nat :: i < |s.workers| ==>
      t.workers[i] == s.workers[i] || (s.workers[i] == Asleep && t.workers[i] == Signalled)
    ensures forall i: nat, k: nat :: i < |s.workers| ==> (Has(t.workers[i], k) <==> Has(s.workers[i], k))
  {
  }

  /** Signals and broadcasts move no job. */
  lemma SameJobs(s: Pool, t: Pool)
    requires JobsOk(s) && |t.workers| == |s.workers|
    requires t.pulled == s.pulled && t.finished == s.finished && t.pushed == t.pulled + t.queue
    requires forall i: nat :: i < |s.workers| ==>
      t.workers[i] == s.workers[i] || (s.workers[i] == Asleep && t.workers[i] == Signalled)
    ensures JobsOk(t)
  {
    SameHas(s, t);
    forall i: nat, k: nat | i < |t.workers| && Has(t.workers[i], k) ensures k < |t.pulled| && k !in t.finished {
      assert Has(s.workers[i], k);
    }
    forall k: nat | k < |t.pulled| && k !in t.finished
      ensures Held(t.workers, k)
    {
      assert Held(s.workers, k);
      var j: nat :| j < |s.workers| && Has(s.workers[j], k);
      assert Has(t.workers[j], k);
    }
  }

  lemma StepKeepsJobs(s: Pool, a: Action)
    requires JobsOk(s) && Enabled(s, a)
    ensures JobsOk(Apply(s, a))
  {
    if a.Work? {
      WorkerKeepsJobs(s, a.worker, a.wake);
    } else {
      MovesNoJob(s, a);
      hide Apply, Enabled, JobsOk;
      SameJobs(s, Apply(s, a));
    }
  }

  /** Only workers have jobs; the others at most wake them. */
  lemma MovesNoJob(s: Pool, a: Action)
    requires Enabled(s, a) && !a.Work? && s.pushed == s.pulled + s.queue
    ensures var t := Apply(s, a);
      && |t.workers| == |s.workers| && t.pulled == s.pulled && t.finished == s.finished
      && t.pushed == t.pulled + t.queue
      && forall i: nat :: i < |s.workers| ==>
           || t.workers[i] == s.workers[i]
           || (s.workers[i] == Asleep && t.workers[i] == Signalled)
  {
  }

  // ----- Counters and locks -----

  lemma WakeKeepsSum(ws: seq<Worker>, w: nat, f: Worker -> nat)
    requires f(Asleep) == f(Signalled)
    ensures Sum(WakeWorker(ws, w), f) == Sum(ws, f)
  {
    if w < |ws| && ws[w] == Asleep { SumUpdate(ws, w, Signalled, f); }
  }

  lemma {:induction false} SignalAllKeepsSum(ws: seq<Worker>, f: Worker -> nat)
    requires f(Asleep) == f(Signalled)
    ensures Sum(SignalAll(ws), f) == Sum(ws, f)
  {
    if ws != [] {
      SignalAllKeepsSum(ws[..|ws| - 1], f);
      assert SignalAll(ws)[..|ws| - 1] == SignalAll(ws[..|ws| - 1]);
    }
  }

  lemma WakeWaiterKeepsSum(ws: seq<Waiter>, w: nat)
    ensures Sum(WakeWaiter(ws, w), WaiterHoldsTh) == Sum(ws, WaiterHoldsTh)
  {
    if w < |ws| && ws[w].Sleeping? { SumUpdate(ws, w, Woken(ws[w].since), WaiterHoldsTh); }
  }

  /** A step of worker `i` changes its own share of each sum and no other. */
  lemma WorkerSum(s: Pool, i: nat, w: nat, f: Worker -> nat)
    requires CanWork(s, i, w) && f(Asleep) == f(Signalled)
    ensures i < |WorkerStep(s, i, w).workers|
    ensures Sum(WorkerStep(s, i, w).workers, f)
         == Sum(s.workers, f) - f(s.workers[i]) + f(WorkerStep(s, i, w).workers[i])
    ensures Sum(s.workers, f) >= f(s.workers[i])
  {
    WorkersAfter(s, i, w);
    var g := WorkerStep(s, i, w).workers[i];
    hide WorkerStep, NextStage;
    SumUpdate(s.workers, i, g, f);
    WakeKeepsSum(s.workers[i := g], w, f);
  }

  lemma WorkerKeepsCounters(s: Pool, i: nat, w: nat)
    requires CountersOk(s) && CanWork(s, i, w)
    ensures CountersOk(WorkerStep(s, i, w))
  {
    WorkerSum(s, i, w, Counted);
    WorkerSum(s, i, w, Alive);
    WorkerSum(s, i, w, WorkerHoldsRw);
    WakeWaiterKeepsSum(s.waiters, w);
    WorkerShares(s, i, w);
    hide WorkerStep, NextStage, CanWork, Counted, Alive, WorkerHoldsRw, WakeWaiter;
  }

  /** The shared variables move with the worker's share of each sum. */
  lemma WorkerShares(s: Pool, i: nat, w: nat)
    requires CanWork(s, i, w)
    ensures var t := WorkerStep(s, i, w); var g, h := s.workers[i], t.workers[i];
      && t.working == s.working - Counted(g) + Counted(h) && t.alive == s.alive - Alive(g) + Alive(h)
      && t.pushers == s.pushers && (t.waiters == s.waiters || t.waiters == WakeWaiter(s.waiters, w))
      && t.thHeld == s.thHeld && (t.v == s.v || t.v == 0 || t.v == 1)
      && 0 <= WorkerHoldsRw(g) <= 1 && 0 <= WorkerHoldsRw(h) <= 1
      && (WorkerHoldsRw(g) < WorkerHoldsRw(h) ==> !s.rwHeld && t.rwHeld)
      && (WorkerHoldsRw(g) > WorkerHoldsRw(h) ==> !t.rwHeld)
      && (WorkerHoldsRw(g) == WorkerHoldsRw(h) ==> t.rwHeld == s.rwHeld)
  {
    WorkerCounts(s, i, w);
    WorkerLocks(s, i, w);
    hide WorkerStep, CanWork, Counted, Alive, WorkerHoldsRw;
  }

  lemma WorkerCounts(s: Pool, i: nat, w: nat)
    requires CanWork(s, i, w)
    ensures var t := WorkerStep(s, i, w); i < |s.workers| == |t.workers|
    ensures var t := WorkerStep(s, i, w); var g, h := s.workers[i], t.workers[i];
      && t.working == s.working - Counted(g) + Counted(h) && t.alive == s.alive - Alive(g) + Alive(h)
      && t.pushers == s.pushers && (t.waiters == s.waiters || t.waiters == WakeWaiter(s.waiters, w))
  {
    WorkersAfter(s, i, w);
    hide WakeWorker, WakeWaiter;
  }

  lemma WorkerLocks(s: Pool, i: nat, w: nat)
    requires CanWork(s, i, w)
    ensures var t := WorkerStep(s, i, w); i < |s.workers| == |t.workers|
    ensures var t := WorkerStep(s, i, w); var g, h := s.workers[i], t.workers[i];
      && t.thHeld == s.thHeld && (t.v == s.v || t.v == 0 || t.v == 1)
      && 0 <= WorkerHoldsRw(g) <= 1 && 0 <= WorkerHoldsRw(h) <= 1
      && (WorkerHoldsRw(g) < WorkerHoldsRw(h) ==> !s.rwHeld && t.rwHeld)
      && (WorkerHoldsRw(g) > WorkerHoldsRw(h) ==> !t.rwHeld)
      && (WorkerHoldsRw(g) == WorkerHoldsRw(h) ==> t.rwHeld == s.rwHeld)
  {
    WorkersAfter(s, i, w);
    hide WakeWorker, WakeWaiter;
  }

  lemma StepKeepsCounters(s: Pool, a: Action)
    requires CountersOk(s) && Enabled(s, a)
    ensures CountersOk(Apply(s, a))
  {
    match a
    case Work(i, w) => WorkerKeepsCounters(s, i, w);
    case PushBegin(k, _) => PusherKeepsCounters(s, a, k);
    case PushPost(k, w) => PusherKeepsCounters(s, a, k);
    case PushEnd(k) => PusherKeepsCounters(s, a, k);
    case SpuriousWorker(i) => WorkersOnlyWoken(s, Apply(s, a), i);
    case PostAll =>
      SignalAllKeepsSum(s.workers, Counted);
      SignalAllKeepsSum(s.workers, Alive);
      SignalAllKeepsSum(s.workers, WorkerHoldsRw);
    case Shutdown =>
    case WaitCall(j) => WaiterKeepsCounters(s, a, j);
    case WaitLock(j) => WaiterKeepsCounters(s, a, j);
    case WaitReadLen(j) => WaiterKeepsCounters(s, a, j);
    case WaitReadWorking(j) => WaiterKeepsCounters(s, a, j);
    case SpuriousWaiter(j) => WaiterKeepsCounters(s, a, j);
  }

  lemma PusherKeepsCounters(s: Pool, a: Action, k: nat)
    requires CountersOk(s) && Enabled(s, a) && (a.PushBegin? || a.PushPost? || a.PushEnd?) && k == a.pusher
    ensures CountersOk(Apply(s, a))
  {
    var t := Apply(s, a);
    SumUpdate(s.pushers, k, t.pushers[k], PusherHoldsRw);
    if a.PushPost? { WorkersOnlyWoken(s, t, a.wake); }
  }

  lemma WaiterKeepsCounters(s: Pool, a: Action, j: nat)
    requires CountersOk(s) && Enabled(s, a)
    requires (a.WaitCall? || a.WaitLock? || a.WaitReadLen? || a.WaitReadWorking? || a.SpuriousWaiter?)
    requires j == a.waiter
    ensures CountersOk(Apply(s, a))
  {
    WaiterShares(s, a, j);
    hide Apply, Enabled, WaiterHoldsTh;
    SumUpdate(s.waiters, j, Apply(s, a).waiters[j], WaiterHoldsTh);
  }

  /** The counters' mutex moves with the waiter's share of it. */
  lemma WaiterShares(s: Pool, a: Action, j: nat)
    requires Enabled(s, a) && j < |s.waiters|
    requires (a.WaitCall? || a.WaitLock? || a.WaitReadLen? || a.WaitReadWorking? || a.SpuriousWaiter?)
    requires j == a.waiter
    ensures var t := Apply(s, a);
      && |t.waiters| == |s.waiters| && t == s.(waiters := s.waiters[j := t.waiters[j]], thHeld := t.thHeld)
      && var g, h := WaiterHoldsTh(s.waiters[j]), WaiterHoldsTh(t.waiters[j]);
        && 0 <= g <= 1 && 0 <= h <= 1
        && (g < h ==> !s.thHeld && t.thHeld) && (g > h ==> !t.thHeld) && (g == h ==> t.thHeld == s.thHeld)
  {
  }

  lemma WorkersOnlyWoken(s: Pool, t: Pool, w: nat)
    requires t.workers == WakeWorker(s.workers, w)
    ensures Sum(t.workers, Counted) == Sum(s.workers, Counted) && Sum(t.workers, Alive) == Sum(s.workers, Alive)
    ensures Sum(t.workers, WorkerHoldsRw) == Sum(s.workers, WorkerHoldsRw)
  {
    WakeKeepsSum(s.workers, w, Counted);
    WakeKeepsSum(s.workers, w, Alive);
    WakeKeepsSum(s.workers, w, WorkerHoldsRw);
  }

  // ----- Wake-ups -----

  /** Every worker but `i` keeps its place, or is woken; nobody else arrives anywhere. */
  lemma OthersStay(s: Pool, i: nat, w: nat)
    requires CanWork(s, i, w)
    ensures var ws := WorkerStep(s, i, w).workers;
      && (forall g :: g in s.workers && g != Asleep && g != s.workers[i] ==> g in ws)
      && (forall g :: g in ws ==> g in s.workers || g == NextStage(s, s.workers[i]) || g == Signalled)
      && NextStage(s, s.workers[i]) in ws
  {
    WorkersAfter(s, i, w);
    var ws := WorkerStep(s, i, w).workers;
    hide WorkerStep, NextStage;
    forall g | g in s.workers && g != Asleep && g != s.workers[i] ensures g in ws {
      var j :| 0 <= j < |s.workers| && s.workers[j] == g;
      assert ws[j] == g;
    }
  }

  /** After a post, a sleeper implies a signalled worker. */
  lemma WakeSignals(ws: seq<Worker>, w: nat)
    requires Asleep in ws ==> w < |ws| && ws[w] == Asleep
    ensures Asleep in WakeWorker(ws, w) ==> Signalled in WakeWorker(ws, w)
    ensures forall g :: g in ws && g != Asleep ==> g in WakeWorker(ws, w)
  {
    var t := WakeWorker(ws, w);
    if Asleep in t {
      var j :| 0 <= j < |t| && t[j] == Asleep;
      assert ws[j] == Asleep;
      assert t[w] == Signalled;
    }
    forall g | g in ws && g != Asleep ensures g in t {
      var j :| 0 <= j < |ws| && ws[j] == g;
      assert t[j] == g;
    }
  }

  lemma WorkerKeepsWakeups(s: Pool, i: nat, w: nat)
    requires NoLostWakeup(s) && CanWork(s, i, w)
    ensures NoLostWakeup(WorkerStep(s, i, w))
  {
    var t, g := WorkerStep(s, i, w), s.workers[i];
    WorkersAfter(s, i, w);
    OthersStay(s, i, w);
    if g.Posting? {
      assert Asleep in s.workers[i := NextStage(s, g)] ==> Asleep in s.workers;
      WakeSignals(s.workers[i := NextStage(s, g)], w);
    }
    if t.keepalive && t.queue != [] { JobStaysCovered(s, i, w); }
  }

  /** While jobs are queued, whoever will see to them still will, or worker `i` now does. */
  lemma JobStaysCovered(s: Pool, i: nat, w: nat)
    requires NoLostWakeup(s) && CanWork(s, i, w) && s.keepalive && WorkerStep(s, i, w).queue != []
    ensures var t := WorkerStep(s, i, w); t.v == 1 || OnTheWay(t) || PostPending(t)
  {
    var t, g := WorkerStep(s, i, w), s.workers[i];
    WorkersAfter(s, i, w);
    OthersStay(s, i, w);
    if PostPending(s) && Inserted !in s.pushers {
      var p :| p in s.workers && p.Posting?;
      assert p == g || p in t.workers;
    }
  }

  lemma StepKeepsWakeups(s: Pool, a: Action)
    requires NoLostWakeup(s) && Enabled(s, a)
    ensures NoLostWakeup(Apply(s, a))
  {
    var t := Apply(s, a);
    match a
    case Work(i, w) => WorkerKeepsWakeups(s, i, w);
    case PushPost(k, w) =>
      WakeSignals(s.workers, w);
      WokenOnly(s.workers, t.workers);
    case PushBegin(k, _) => assert t.pushers[k] == Inserted;
    case PushEnd(k) => PushersStay(s.pushers, k);
    case SpuriousWorker(i) =>
      assert t.workers[i] == Signalled;
      WokenOnly(s.workers, t.workers);
    case PostAll => NoneAsleep(s.workers);
    case _ =>
  }

  lemma WokenOnly(ws: seq<Worker>, us: seq<Worker>)
    requires |us| == |ws| && forall i :: 0 <= i < |ws| ==> us[i] == ws[i] || (ws[i] == Asleep && us[i] == Signalled)
    ensures forall g :: g in ws && g != Asleep ==> g in us
    ensures forall g :: g in us ==> g in ws || g == Signalled
  {
    forall g | g in ws && g != Asleep ensures g in us {
      var j :| 0 <= j < |ws| && ws[j] == g;
      assert us[j] == g;
    }
    forall g | g in us ensures g in ws || g == Signalled {
      var j :| 0 <= j < |us| && us[j] == g;
      assert ws[j] == g || g == Signalled;
    }
  }

  lemma PushersStay(ps: seq<Pusher>, k: nat)
    requires k < |ps| && ps[k] != Inserted
    ensures Inserted in ps ==> Inserted in ps[k := Idle]
  {
    if Inserted in ps {
      var j :| 0 <= j < |ps| && ps[j] == Inserted;
      assert ps[k := Idle][j] == Inserted;
    }
  }

  lemma NoneAsleep(ws: seq<Worker>)
    ensures Asleep !in SignalAll(ws)
    ensures forall g :: g in SignalAll(ws) ==> g in ws || g == Signalled
  {
  }

  // ----- Waiters -----

  lemma StepKeepsWaiters(s: Pool, a: Action)
    requires JobsOk(s) && CountersOk(s) && WaitersOk(s) && Enabled(s, a)
    ensures WaitersOk(Apply(s, a))
  {
    var t := Apply(s, a);
    HistoriesGrow(s, a);
    forall g | g in t.waiters
      ensures g != Outside ==> g.since <= |t.pushed|
      ensures g.LenZero? ==> g.since <= |t.pulled|
    {
      hide Apply, Enabled, CountersOk;
      var j :| 0 <= j < |t.waiters| && t.waiters[j] == g;
      WaiterAfter(s, a, j);
      assert s.waiters[j] in s.waiters;
    }
  }

  /** What a step makes of waiter `j`. */
  lemma WaiterAfter(s: Pool, a: Action, j: nat)
    requires Enabled(s, a) && j < |Apply(s, a).waiters|
    ensures |Apply(s, a).waiters| == |s.waiters|
    ensures var g, h := s.waiters[j], Apply(s, a).waiters[j];
      || h == Outside || h == Entering(|s.pushed|)
      || (g != Outside && h.since == g.since && (h.LenZero? ==> g.LenZero? || s.queue == []))
  {
    if a.Work? { WorkersAfter(s, a.worker, a.wake); }
  }

  lemma HistoriesGrow(s: Pool, a: Action)
    requires JobsOk(s) && Enabled(s, a)
    ensures s.pushed <= Apply(s, a).pushed && s.pulled <= Apply(s, a).pulled && s.finished <= Apply(s, a).finished
    ensures |Apply(s, a).waiters| == |s.waiters| && |Apply(s, a).workers| == |s.workers|
  {
    if a.Work? { WorkersAfter(s, a.worker, a.wake); }
  }

  lemma WorkerKeepsWaiter(s: Pool, i: nat, w: nat)
    requires CountersOk(s) && WaiterNotStranded(s) && |s.waiters| == 1 && CanWork(s, i, w)
    ensures WaiterNotStranded(WorkerStep(s, i, w))
  {
    var t := WorkerStep(s, i, w);
    WorkerShares(s, i, w);
    SumUpdate(s.workers, i, s.workers[i], Counted);
    assert s.waiters[0] in s.waiters;
    assert |t.waiters| == 1 && (t.waiters[0].Sleeping? ==> s.waiters[0].Sleeping?);
    if s.workers[i] == Uncounting && s.working == 1 {
      assert !t.waiters[0].Sleeping?;
    }
  }

  /** With one waiter a sleeping waiter always has a queued job or a counted worker to wait for. */
  lemma StepKeepsWaiter(s: Pool, a: Action)
    requires CountersOk(s) && WaiterNotStranded(s) && |s.waiters| <= 1 && Enabled(s, a)
    ensures WaiterNotStranded(Apply(s, a))
  {
    if |s.waiters| == 1 {
      assert s.waiters[0] in s.waiters;
      if a.Work? { WorkerKeepsWaiter(s, a.worker, a.wake); }
    }
  }

  /** The invariant is kept by every step of every thread. */
  lemma StepKeepsInv(s: Pool, a: Action)
    requires Inv(s) && Enabled(s, a)
    ensures Inv(Apply(s, a))
  {
    StepKeepsJobs(s, a);
    StepKeepsCounters(s, a);
    StepKeepsWakeups(s, a);
    StepKeepsWaiters(s, a);
    HistoriesGrow(s, a);
    if |s.waiters| <= 1 { StepKeepsWaiter(s, a); }
  }

  lemma {:induction false} RunKeepsInv(s: Pool, acts: seq<Action>)
    requires Inv(s) && Run(s, acts).Some?
    ensures Inv(Run(s, acts).value)
  {
    if acts != [] {
      RunKeepsInv(s, acts[..|acts| - 1]);
      StepKeepsInv(Run(s, acts[..|acts| - 1]).value, acts[|acts| - 1]);
    }
  }
}
