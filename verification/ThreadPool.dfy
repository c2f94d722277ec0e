/**
 * The thread pool of Project-2/webserver_part2.c as a step relation: any number of workers,
 * pushers and waiters, one program counter each. A critical section of the semaphore's mutex
 * is one step, as nothing inside it can be seen before it ends; the queue's mutex and the
 * counters' mutex are held across steps where the code reads shared data without them.
 */
module ThreadPool {
  import opened Wrappers

  datatype Job = Job(call: int, arg: int)

  /** Where a worker stands in `thread_do`. A job is named by its position in the pulled history. */
  datatype Worker =
    | Starting                    // before num_threads_alive += 1
    | Top                         // at while(threads_keepalive)
    | Testing                     // in bsem_wait, about to test v
    | Asleep                      // in pthread_cond_wait, not signalled
    | Signalled                   // woken there, about to test v again
    | Awake                       // back from bsem_wait, at if (threads_keepalive)
    | Counting                    // before num_threads_working++
    | Pulling                     // before jobqueue_pull takes rwmutex
    | Posting(took: nat)          // holds rwmutex, more jobs were queued, before bsem_post
    | Unlocking(got: Option<nat>) // holds rwmutex, before its release
    | Running(job: Option<nat>)   // has a job, or none, and no lock
    | Uncounting                  // before num_threads_working--
    | Leaving                     // after the loop, before num_threads_alive--
    | Gone

  /** A caller of `thpool_add_work`, in `jobqueue_push`. */
  datatype Pusher = Idle | Inserted | Posted

  /** A caller of `thpool_wait`; `since` counts the jobs pushed before the call. */
  datatype Waiter =
    | Outside
    | Entering(since: nat)        // before taking thcount_lock
    | Reading(since: nat)         // holds thcount_lock, before reading len
    | LenZero(since: nat)         // holds thcount_lock, len was 0, before reading num_threads_working
    | Sleeping(since: nat)        // in pthread_cond_wait, not signalled
    | Woken(since: nat)           // signalled, before retaking thcount_lock

  datatype Pool = Pool(
    queue: seq<Job>, v: int, working: int, alive: int, keepalive: bool, rwHeld: bool, thHeld: bool,
    workers: seq<Worker>, pushers: seq<Pusher>, waiters: seq<Waiter>,
    pushed: seq<Job>, pulled: seq<Job>, finished: set<nat>)

  datatype Action =
    | Work(worker: nat, wake: nat)          // the next step of a worker; `wake` is whom a signal wakes
    | PushBegin(pusher: nat, new_: Job)     // lock rwmutex, append the job
    | PushPost(pusher: nat, wake: nat)
    | PushEnd(pusher: nat)
    | WaitCall(waiter: nat)
    | WaitLock(waiter: nat)
    | WaitReadLen(waiter: nat)
    | WaitReadWorking(waiter: nat)
    | SpuriousWorker(worker: nat)           // pthread_cond_wait may return unsignalled
    | SpuriousWaiter(waiter: nat)
    | Shutdown                              // thpool_destroy clears threads_keepalive
    | PostAll                               // and calls bsem_post_all

  /** After `thpool_init` has created its threads. */
  function Init(workers: nat, pushers: nat, waiters: nat): Pool {
    Pool([], 0, 0, 0, true, false, false,
         seq(workers, i => Starting), seq(pushers, i => Idle), seq(waiters, i => Outside), [], [], {})
  }

  /** pthread_cond_signal on the semaphore: some sleeper if there is one. */
  predicate WakesWorker(s: Pool, w: nat) {
    Asleep in s.workers ==> w < |s.workers| && s.workers[w] == Asleep
  }

  predicate WakesWaiter(s: Pool, w: nat) {
    (exists x :: x in s.waiters && x.Sleeping?) ==> w < |s.waiters| && s.waiters[w].Sleeping?
  }

  function WakeWorker(ws: seq<Worker>, w: nat): seq<Worker> {
    if w < |ws| && ws[w] == Asleep then ws[w := Signalled] else ws
  }

  function WakeWaiter(ws: seq<Waiter>, w: nat): seq<Waiter> {
    if w < |ws| && ws[w].Sleeping? then ws[w := Woken(ws[w].since)] else ws
  }

  function SignalAll(ws: seq<Worker>): seq<Worker> {
    seq(|ws|, i requires 0 <= i < |ws| => if ws[i] == Asleep then Signalled else ws[i])
  }

  predicate CanWork(s: Pool, i: nat, w: nat) {
    i < |s.workers| &&
    match s.workers[i]
    case Starting | Counting | Leaving => !s.thHeld
    case Uncounting => !s.thHeld && (s.working == 1 ==> WakesWaiter(s, w))
    case Pulling => !s.rwHeld
    case Posting(_) => WakesWorker(s, w)
    case Asleep | Gone => false
    case _ => true
  }

  /** Where the next step takes a worker standing at `g`. */
  function NextStage(s: Pool, g: Worker): Worker {
    match g
    case Starting => Top
    case Top => if s.keepalive then Testing else Leaving
    case Testing | Signalled => if s.v == 1 then Awake else Asleep
    case Asleep | Gone => g
    case Awake => if s.keepalive then Counting else Top
    case Counting => Pulling
    case Pulling =>
      if s.queue == [] then Unlocking(None)
      else if |s.queue| == 1 then Unlocking(Some(|s.pulled|))
      else Posting(|s.pulled|)
    case Posting(k) => Unlocking(Some(k))
    case Unlocking(o) => Running(o)
    case Running(_) => Uncounting
    case Uncounting => Top
    case Leaving => Gone
  }

  /** One step of worker `i`. */
  function WorkerStep(s: Pool, i: nat, w: nat): Pool
    requires CanWork(s, i, w)
  {
    var g := s.workers[i];
    var t := s.(workers := s.workers[i := NextStage(s, g)]);
    match g
    case Starting => t.(alive := s.alive + 1)
    case Testing | Signalled => t.(v := if s.v == 1 then 0 else s.v)
    case Counting => t.(working := s.working + 1)
    case Pulling =>
      if s.queue == [] then t.(rwHeld := true)
      else t.(rwHeld := true, queue := s.queue[1..], pulled := s.pulled + [s.queue[0]])
    case Posting(_) => t.(v := 1, workers := WakeWorker(t.workers, w))
    case Unlocking(_) => t.(rwHeld := false)
    case Running(o) => if o.Some? then t.(finished := s.finished + {o.value}) else t
    case Uncounting =>
      t.(working := s.working - 1, waiters := if s.working == 1 then WakeWaiter(s.waiters, w) else s.waiters)
    case Leaving => t.(alive := s.alive - 1)
    case _ => t
  }

  predicate Enabled(s: Pool, a: Action) {
    match a
    case Work(i, w) => CanWork(s, i, w)
    case PushBegin(k, _) => k < |s.pushers| && s.pushers[k] == Idle && !s.rwHeld
    case PushPost(k, w) => k < |s.pushers| && s.pushers[k] == Inserted && WakesWorker(s, w)
    case PushEnd(k) => k < |s.pushers| && s.pushers[k] == Posted
    case WaitCall(j) => j < |s.waiters| && s.waiters[j] == Outside
    case WaitLock(j) => j < |s.waiters| && (s.waiters[j].Entering? || s.waiters[j].Woken?) && !s.thHeld
    case WaitReadLen(j) => j < |s.waiters| && s.waiters[j].Reading?
    case WaitReadWorking(j) => j < |s.waiters| && s.waiters[j].LenZero?
    case SpuriousWorker(i) => i < |s.workers| && s.workers[i] == Asleep
    case SpuriousWaiter(j) => j < |s.waiters| && s.waiters[j].Sleeping?
    case Shutdown => true
    case PostAll => !s.keepalive
  }

  function Apply(s: Pool, a: Action): Pool
    requires Enabled(s, a)
  {
    match a
    case Work(i, w) => WorkerStep(s, i, w)
    case PushBegin(k, job) =>
      s.(rwHeld := true, queue := s.queue + [job], pushed := s.pushed + [job], pushers := s.pushers[k := Inserted])
    case PushPost(k, w) => s.(v := 1, workers := WakeWorker(s.workers, w), pushers := s.pushers[k := Posted])
    case PushEnd(k) => s.(rwHeld := false, pushers := s.pushers[k := Idle])
    case WaitCall(j) => s.(waiters := s.waiters[j := Entering(|s.pushed|)])
    case WaitLock(j) => s.(thHeld := true, waiters := s.waiters[j := Reading(s.waiters[j].since)])
    case WaitReadLen(j) =>
      if s.queue != [] then s.(thHeld := false, waiters := s.waiters[j := Sleeping(s.waiters[j].since)])
      else s.(waiters := s.waiters[j := LenZero(s.waiters[j].since)])
    case WaitReadWorking(j) =>
      s.(thHeld := false, waiters := s.waiters[j := if s.working != 0 then Sleeping(s.waiters[j].since) else Outside])
    case SpuriousWorker(i) => s.(workers := s.workers[i := Signalled])
    case SpuriousWaiter(j) => s.(waiters := s.waiters[j := Woken(s.waiters[j].since)])
    case Shutdown => s.(keepalive := false)
    case PostAll => s.(v := 1, workers := SignalAll(s.workers))
  }

  /** The state after the steps `acts`, if they can be taken one after another from `s`. */
  function Run(s: Pool, acts: seq<Action>): Option<Pool> {
    if acts == [] then Some(s)
    else
      var r := Run(s, acts[..|acts| - 1]);
      var a := acts[|acts| - 1];
      if r.Some? && Enabled(r.value, a) then Some(Apply(r.value, a)) else None
  }
}
