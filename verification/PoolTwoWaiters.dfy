/**
 * `thpool_wait` is for one caller at a time: a worker that leaves none working signals one waiter,
 * and a waiter that returns signals nobody. With a second waiter there is a run that leaves it
 * asleep with an empty queue and nobody working.
 */
module PoolTwoWaiters {
  import opened Wrappers
  import opened ThreadPool
  import opened PoolInvariant

  /** Worker 0 at `g`, pusher 0 at `p`, waiters 0 and 1 at `a` and `b`, all others where they began. */
  function With(n: nat, m: nat, w: nat, g: Worker, p: Pusher, a: Waiter, b: Waiter): Pool {
    Init(n, m, w).(workers := seq(n, i => if i == 0 then g else Starting),
                   pushers := seq(m, i => if i == 0 then p else Idle),
                   waiters := seq(w, i => if i == 0 then a else if i == 1 then b else Outside))
  }

  lemma Go(s: Pool, acts: seq<Action>, t: Pool, a: Action, u: Pool)
    requires Run(s, acts) == Some(t) && Enabled(t, a) && Apply(t, a) == u
    ensures Run(s, acts + [a]) == Some(u)
  {
    assert (acts + [a])[..|acts|] == acts;
  }

  lemma NothingYet(s: Pool)
    ensures Run(s, []) == Some(s)
  {
  }

  lemma JobArrives(n: nat, m: nat, w: nat, job: Job) returns (acts: seq<Action>)
    requires n >= 1 && m >= 1 && w >= 2
    ensures Run(Init(n, m, w), acts) ==
            Some(With(n, m, w, Starting, Inserted, Outside, Outside).(queue := [job], pushed := [job], rwHeld := true))
  {
    var s := Init(n, m, w);
    NothingYet(s);
    hide Run;
    assert [] + [job] == [job];
    var t := With(n, m, w, Starting, Inserted, Outside, Outside);
    assert s.workers == t.workers && s.waiters == t.waiters && s.pushers[0 := Inserted] == t.pushers;
    Go(s, [], s, PushBegin(0, job), Apply(s, PushBegin(0, job)));
    acts := [PushBegin(0, job)];
    assert [] + acts == acts;
  }

  /** Both waiters fall asleep, one after the other, while one job is queued. */
  lemma FirstSleeps(n: nat, m: nat, w: nat, job: Job, before: seq<Action>) returns (acts: seq<Action>)
    requires n >= 1 && m >= 1 && w >= 2
    requires Run(Init(n, m, w), before) ==
             Some(With(n, m, w, Starting, Inserted, Outside, Outside).(queue := [job], pushed := [job], rwHeld := true))
    ensures Run(Init(n, m, w), acts) ==
            Some(With(n, m, w, Starting, Inserted, Sleeping(1), Outside).(queue := [job], pushed := [job],
              rwHeld := true))
  {
    var s := Init(n, m, w);
    var q := (a: Waiter, th: bool) =>
      With(n, m, w, Starting, Inserted, a, Outside).(queue := [job], pushed := [job], rwHeld := true, thHeld := th);
    hide Run;
    acts := before;
    Go(s, acts, q(Outside, false), WaitCall(0), q(Entering(1), false));
    acts := acts + [WaitCall(0)];
    Go(s, acts, q(Entering(1), false), WaitLock(0), q(Reading(1), true));
    acts := acts + [WaitLock(0)];
    Go(s, acts, q(Reading(1), true), WaitReadLen(0), q(Sleeping(1), false));
    acts := acts + [WaitReadLen(0)];
  }

  lemma SecondSleeps(n: nat, m: nat, w: nat, job: Job, before: seq<Action>) returns (acts: seq<Action>)
    requires n >= 1 && m >= 1 && w >= 2
    requires Run(Init(n, m, w), before) ==
             Some(With(n, m, w, Starting, Inserted, Sleeping(1), Outside).(queue := [job], pushed := [job],
               rwHeld := true))
    ensures Run(Init(n, m, w), acts) ==
            Some(With(n, m, w, Starting, Inserted, Sleeping(1), Sleeping(1)).(queue := [job], pushed := [job],
              rwHeld := true))
  {
    var s := Init(n, m, w);
    var q := (b: Waiter, th: bool) =>
      With(n, m, w, Starting, Inserted, Sleeping(1), b).(queue := [job], pushed := [job], rwHeld := true, thHeld := th);
    hide Run;
    acts := before;
    Go(s, acts, q(Outside, false), WaitCall(1), q(Entering(1), false));
    acts := acts + [WaitCall(1)];
    Go(s, acts, q(Entering(1), false), WaitLock(1), q(Reading(1), true));
    acts := acts + [WaitLock(1)];
    Go(s, acts, q(Reading(1), true), WaitReadLen(1), q(Sleeping(1), false));
    acts := acts + [WaitReadLen(1)];
  }

  /** The push ends and worker 0 goes for the semaphore. */
  lemma PushEnds(n: nat, m: nat, w: nat, job: Job, before: seq<Action>) returns (acts: seq<Action>)
    requires n >= 1 && m >= 1 && w >= 2
    requires Run(Init(n, m, w), before) ==
             Some(With(n, m, w, Starting, Inserted, Sleeping(1), Sleeping(1)).(queue := [job], pushed := [job],
               rwHeld := true))
    ensures Run(Init(n, m, w), acts) ==
            Some(With(n, m, w, Top, Idle, Sleeping(1), Sleeping(1)).(queue := [job], pushed := [job], v := 1,
              alive := 1))
  {
    var s := Init(n, m, w);
    var q := (g: Worker, p: Pusher, rw: bool, v: int, alive: int) =>
      With(n, m, w, g, p, Sleeping(1), Sleeping(1)).(queue := [job], pushed := [job], rwHeld := rw, v := v,
        alive := alive);
    hide Run;
    acts := before;
    assert Asleep !in q(Starting, Inserted, true, 0, 0).workers;
    Go(s, acts, q(Starting, Inserted, true, 0, 0), PushPost(0, n), q(Starting, Posted, true, 1, 0));
    acts := acts + [PushPost(0, n)];
    Go(s, acts, q(Starting, Posted, true, 1, 0), PushEnd(0), q(Starting, Idle, false, 1, 0));
    acts := acts + [PushEnd(0)];
    Go(s, acts, q(Starting, Idle, false, 1, 0), Work(0, 0), q(Top, Idle, false, 1, 1));
    acts := acts + [Work(0, 0)];
  }

  /** Worker 0 reaches the queue. */
  lemma WorkerReachesQueue(n: nat, m: nat, w: nat, job: Job, before: seq<Action>) returns (acts: seq<Action>)
    requires n >= 1 && m >= 1 && w >= 2
    requires Run(Init(n, m, w), before) ==
             Some(With(n, m, w, Top, Idle, Sleeping(1), Sleeping(1)).(queue := [job], pushed := [job], v := 1,
               alive := 1))
    ensures Run(Init(n, m, w), acts) ==
            Some(With(n, m, w, Pulling, Idle, Sleeping(1), Sleeping(1)).(queue := [job], pushed := [job], alive := 1,
              working := 1))
  {
    var s := Init(n, m, w);
    var q := (g: Worker, v: int, working: int) =>
      With(n, m, w, g, Idle, Sleeping(1), Sleeping(1)).(queue := [job], pushed := [job], v := v, alive := 1,
        working := working);
    hide Run;
    acts := before;
    Go(s, acts, q(Top, 1, 0), Work(0, 0), q(Testing, 1, 0));
    acts := acts + [Work(0, 0)];
    Go(s, acts, q(Testing, 1, 0), Work(0, 0), q(Awake, 0, 0));
    acts := acts + [Work(0, 0)];
    Go(s, acts, q(Awake, 0, 0), Work(0, 0), q(Counting, 0, 0));
    acts := acts + [Work(0, 0)];
    Go(s, acts, q(Counting, 0, 0), Work(0, 0), q(Pulling, 0, 1));
    acts := acts + [Work(0, 0)];
  }

  /** Worker 0 runs the job, signals waiter 0 and is idle again. */
  lemma OneIsSignalled(n: nat, m: nat, w: nat, job: Job, before: seq<Action>) returns (acts: seq<Action>)
    requires n >= 1 && m >= 1 && w >= 2
    requires Run(Init(n, m, w), before) ==
             Some(With(n, m, w, Pulling, Idle, Sleeping(1), Sleeping(1)).(queue := [job], pushed := [job], alive := 1,
               working := 1))
    ensures Run(Init(n, m, w), acts) ==
            Some(With(n, m, w, Top, Idle, Woken(1), Sleeping(1)).(pushed := [job], pulled := [job], finished := {0},
              alive := 1))
  {
    var s := Init(n, m, w);
    var q := (g: Worker, a: Waiter, rw: bool, working: int, done: set<nat>) =>
      With(n, m, w, g, Idle, a, Sleeping(1)).(
        pushed := [job], pulled := [job], rwHeld := rw, alive := 1, working := working, finished := done);
    hide Run;
    acts := before;
    Go(s, acts, With(n, m, w, Pulling, Idle, Sleeping(1), Sleeping(1)).(queue := [job], pushed := [job], alive := 1,
      working := 1),
       Work(0, 0), q(Unlocking(Some(0)), Sleeping(1), true, 1, {}));
    acts := acts + [Work(0, 0)];
    Go(s, acts, q(Unlocking(Some(0)), Sleeping(1), true, 1, {}), Work(0, 0),
      q(Running(Some(0)), Sleeping(1), false, 1, {}));
    acts := acts + [Work(0, 0)];
    Go(s, acts, q(Running(Some(0)), Sleeping(1), false, 1, {}), Work(0, 0), q(Uncounting, Sleeping(1), false, 1, {0}));
    acts := acts + [Work(0, 0)];
    Go(s, acts, q(Uncounting, Sleeping(1), false, 1, {0}), Work(0, 0), q(Top, Woken(1), false, 0, {0}));
    acts := acts + [Work(0, 0)];
  }

  ghost predicate ReachableFrom(n: nat, m: nat, w: nat, s: Pool) {
    exists acts :: Run(Init(n, m, w), acts) == Some(s)
  }

  /** A sleeping waiter always has something left to be signalled for exactly when there is at most
      one waiter. */
  lemma WaitIsForOne(n: nat, m: nat, w: nat)
    requires n >= 1 && m >= 1
    ensures (forall s :: ReachableFrom(n, m, w, s) ==> WaiterNotStranded(s)) <==> w <= 1
  {
    if w <= 1 {
      forall s | ReachableFrom(n, m, w, s) ensures WaiterNotStranded(s) {
        var acts :| Run(Init(n, m, w), acts) == Some(s);
        InitInv(n, m, w);
        RunKeepsInv(Init(n, m, w), acts);
        SameThreads(Init(n, m, w), acts);
      }
    } else {
      var job := Job(0, 0);
      var acts := JobArrives(n, m, w, job);
      acts := FirstSleeps(n, m, w, job, acts);
      acts := SecondSleeps(n, m, w, job, acts);
      acts := PushEnds(n, m, w, job, acts);
      acts := WorkerReachesQueue(n, m, w, job, acts);
      acts := OneIsSignalled(n, m, w, job, acts);
      var s := With(n, m, w, Top, Idle, Woken(1), Sleeping(1)).(pushed := [job], pulled := [job], finished := {0},
        alive := 1);
      assert ReachableFrom(n, m, w, s);
      assert s.waiters[1] in s.waiters;
    }
  }

  lemma {:induction false} SameThreads(s: Pool, acts: seq<Action>)
    requires Run(s, acts).Some? && Inv(s)
    ensures |Run(s, acts).value.waiters| == |s.waiters|
  {
    if acts != [] {
      SameThreads(s, acts[..|acts| - 1]);
      RunKeepsInv(s, acts[..|acts| - 1]);
      HistoriesGrow(Run(s, acts[..|acts| - 1]).value, acts[|acts| - 1]);
    }
  }
}
