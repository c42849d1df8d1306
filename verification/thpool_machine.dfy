/** The thread pool of thpool.c as a state machine: one step per critical section or unlocked access, any
    number of workers, of threads adding work and of threads in thpool_wait, and spurious wakeups of every
    condition variable. The pool is never destroyed, and job i is the i-th one linked into the queue. */
module ThpoolMachine {
  import opened Sums
  import opened Wrappers

  /** Where a worker stands in thread_do. */
  datatype Worker =
    | Waiting                    // before the test of v in bsem_wait
    | Asleep                     // in pthread_cond_wait of bsem_wait
    | Token                      // took the token
    | Counted                    // incremented num_threads_working
    | Posting(job: nat)          // pulled a job, must post while it still holds rwmutex
    | Running(job: nat)          // runs its job
    | Finished                   // before it decrements num_threads_working

  /** Where a thread that calls thpool_wait, any number of times, stands; before is the number of jobs added
      when its current call was made. */
  datatype Waiter =
    | Idle
    | Locked(before: nat)        // holds thcount_lock, about to read len
    | SawEmpty(before: nat)      // read len == 0, about to read num_threads_working
    | Sleeping(before: nat)      // in pthread_cond_wait
    | Woken(before: nat)         // must take thcount_lock again
    | Returned(before: nat)      // the call is over

  /** Holder of rwmutex, between the critical section's work on the list and its bsem_post. */
  datatype RwMutex = Free | Pushing | Pulling(w: nat)

  datatype Pool = Pool(
    queue: seq<nat>, v: nat, rwmutex: RwMutex,
    working: int, thcountLock: Option<nat>,
    workers: seq<Worker>, waiters: seq<Waiter>,
    added: nat, pulled: nat, finished: seq<nat>)

  datatype Step =
    | Push                                     // jobqueue_push up to its bsem_post
    | PushPost(wake: Option<nat>)              // that bsem_post and the unlock
    | TakeToken(w: nat)                        // the test in bsem_wait
    | WakeWorker(w: nat)                       // spurious wakeup
    | CountUp(w: nat)
    | Pull(w: nat)                             // jobqueue_pull up to its bsem_post
    | PullPost(w: nat, wake: Option<nat>)      // that bsem_post and the unlock
    | RunJob(w: nat)
    | CountDown(w: nat, wake: Option<nat>)
    | Call(u: nat)                             // thpool_wait takes thcount_lock
    | Leave(u: nat)                            // the caller goes on after a call that has returned
    | ReadLen(u: nat)
    | ReadWorking(u: nat)
    | Resume(u: nat)                           // a woken waiter takes thcount_lock again
    | WakeWaiter(u: nat)                       // spurious wakeup

  function Init(workers: nat, waiters: nat): Pool {
    Pool([], 0, Free, 0, None, seq(workers, _ => Waiting), seq(waiters, _ => Idle), 0, 0, [])
  }

  predicate Sleeps(pc: Worker) {
    pc.Asleep?
  }

  predicate WaiterSleeps(pc: Waiter) {
    pc.Sleeping?
  }

  function Woke(workers: seq<Worker>, wake: Option<nat>): seq<Worker> {
    if wake.Some? && wake.value < |workers| then workers[wake.value := Waiting] else workers
  }

  predicate AtWorker(s: Pool, w: nat, pc: Worker) {
    w < |s.workers| && s.workers[w] == pc
  }

  predicate Enabled(s: Pool, step: Step) {
    match step
    case Push => s.rwmutex == Free
    case PushPost(wake) => s.rwmutex == Pushing && Signals(s.workers, Sleeps, wake)
    case TakeToken(w) => AtWorker(s, w, Waiting)
    case WakeWorker(w) => AtWorker(s, w, Asleep)
    case CountUp(w) => AtWorker(s, w, Token) && s.thcountLock.None?
    case Pull(w) => AtWorker(s, w, Counted) && s.rwmutex == Free
    case PullPost(w, wake) =>
      && w < |s.workers| && s.workers[w].Posting? && s.rwmutex == Pulling(w)
      && Signals(s.workers, Sleeps, wake)
    case RunJob(w) => w < |s.workers| && s.workers[w].Running?
    case CountDown(w, wake) =>
      && AtWorker(s, w, Finished) && s.thcountLock.None?
      && if s.working == 1 then Signals(s.waiters, WaiterSleeps, wake) else wake.None?
    case Call(u) => u < |s.waiters| && s.waiters[u].Idle? && s.thcountLock.None?
    case Leave(u) => u < |s.waiters| && s.waiters[u].Returned?
    case ReadLen(u) => u < |s.waiters| && s.waiters[u].Locked?
    case ReadWorking(u) => u < |s.waiters| && s.waiters[u].SawEmpty?
    case Resume(u) => u < |s.waiters| && s.waiters[u].Woken? && s.thcountLock.None?
    case WakeWaiter(u) => u < |s.waiters| && s.waiters[u].Sleeping?
  }

  function Next(s: Pool, step: Step): (s': Pool)
    requires Enabled(s, step)
    ensures |s'.workers| == |s.workers| && |s'.waiters| == |s.waiters|
  {
    match step
    case Push => s.(queue := s.queue + [s.added], added := s.added + 1, rwmutex := Pushing)
    case PushPost(wake) => s.(v := 1, workers := Woke(s.workers, wake), rwmutex := Free)
    case TakeToken(w) =>
      if s.v == 1 then s.(v := 0, workers := s.workers[w := Token])
      else s.(workers := s.workers[w := Asleep])
    case WakeWorker(w) => s.(workers := s.workers[w := Waiting])
    case CountUp(w) => s.(working := s.working + 1, workers := s.workers[w := Counted])
    case Pull(w) =>
      if |s.queue| == 0 then s.(workers := s.workers[w := Finished])
      else
        var t := s.(queue := s.queue[1..], pulled := s.pulled + 1);
        if |s.queue| == 1 then t.(workers := s.workers[w := Running(s.queue[0])])
        else t.(workers := s.workers[w := Posting(s.queue[0])], rwmutex := Pulling(w))
    case PullPost(w, wake) =>
      s.(v := 1, workers := Woke(s.workers, wake)[w := Running(s.workers[w].job)], rwmutex := Free)
    case RunJob(w) => s.(workers := s.workers[w := Finished], finished := s.finished + [s.workers[w].job])
    case CountDown(w, wake) =>
      s.(working := s.working - 1, workers := s.workers[w := Waiting],
         waiters := if wake.Some? then s.waiters[wake.value := Woken(s.waiters[wake.value].before)] else s.waiters)
    case Call(u) => s.(thcountLock := Some(u), waiters := s.waiters[u := Locked(s.added)])
    case Leave(u) => s.(waiters := s.waiters[u := Idle])
    case ReadLen(u) =>
      var n := s.waiters[u].before;
      if |s.queue| == 0 then s.(waiters := s.waiters[u := SawEmpty(n)])
      else s.(waiters := s.waiters[u := Sleeping(n)], thcountLock := None)
    case ReadWorking(u) =>
      var n := s.waiters[u].before;
      s.(waiters := s.waiters[u := if s.working == 0 then Returned(n) else Sleeping(n)], thcountLock := None)
    case Resume(u) => s.(thcountLock := Some(u), waiters := s.waiters[u := Locked(s.waiters[u].before)])
    case WakeWaiter(u) => s.(waiters := s.waiters[u := Woken(s.waiters[u].before)])
  }

  // ----- counting threads -----

  /** Weights that count the workers in some condition. */
  function Busy(pc: Worker): nat {
    if pc.Counted? || pc.Posting? || pc.Running? || pc.Finished? then 1 else 0
  }

  function Bound(pc: Worker): nat {
    if pc.Token? || pc.Counted? || pc.Posting? then 1 else 0
  }

  function InCondWait(pc: Worker): nat {
    if pc.Asleep? then 1 else 0
  }

  function Testing(pc: Worker): nat {
    if pc.Waiting? then 1 else 0
  }

  function Holding(k: nat): Worker -> nat {
    (pc: Worker) => if (pc.Posting? || pc.Running?) && pc.job == k then 1 else 0
  }

  // ----- the invariant -----

  /** How often job k is finished or in the hands of a worker. */
  ghost function Times(s: Pool, k: nat): nat {
    multiset(s.finished)[k] + Sum(s.workers, Holding(k))
  }

  /** The queue holds the jobs not pulled yet, in push order; each pulled one is held or finished, once. */
  ghost predicate JobInv(s: Pool) {
    && s.pulled <= s.added && |s.queue| == s.added - s.pulled
    && (forall i | 0 <= i < |s.queue| :: s.queue[i] == s.pulled + i)
    && forall k: nat {:trigger Times(s, k)} :: Times(s, k) == if k < s.pulled then 1 else 0
  }

  /** num_threads_working counts exactly the workers between its increment and its decrement. */
  predicate CountInv(s: Pool) {
    s.working == Sum(s.workers, Busy)
  }

  /** One binary token stands for any number of jobs: whenever jobs wait, it is set, about to be set, or
      in the hands of a worker that has not finished pulling. */
  predicate TokenInv(s: Pool) {
    && s.v <= 1
    && (|s.queue| > 0 ==> s.v == 1 || s.rwmutex == Pushing || Sum(s.workers, Bound) > 0)
  }

  /** A set token is never slept through. */
  predicate WakeInv(s: Pool) {
    s.v == 1 && Sum(s.workers, InCondWait) > 0 ==> Sum(s.workers, Testing) > 0
  }

  predicate RwInv(s: Pool) {
    && (forall w | 0 <= w < |s.workers| && s.workers[w].Posting? :: s.rwmutex == Pulling(w))
    && (s.rwmutex.Pulling? ==> s.rwmutex.w < |s.workers| && s.workers[s.rwmutex.w].Posting?)
  }

  predicate InLock(pc: Waiter) {
    pc.Locked? || pc.SawEmpty?
  }

  predicate LockInv(s: Pool) {
    && (forall u | 0 <= u < |s.waiters| && InLock(s.waiters[u]) :: s.thcountLock == Some(u))
    && (s.thcountLock.Some? ==> s.thcountLock.value < |s.waiters| && InLock(s.waiters[s.thcountLock.value]))
  }

  predicate Done(s: Pool, n: nat) {
    forall k | 0 <= k < n :: k in s.finished
  }

  /** A waiter that saw len == 0 came after every job added before its call was pulled. */
  predicate WaitInv(s: Pool) {
    forall u | 0 <= u < |s.waiters| && !s.waiters[u].Idle? ::
      var pc := s.waiters[u];
      && pc.before <= s.added
      && (pc.SawEmpty? ==> pc.before <= s.pulled)
      && (pc.Returned? ==> Done(s, pc.before))
  }

  ghost predicate Inv(s: Pool) {
    JobInv(s) && CountInv(s) && TokenInv(s) && WakeInv(s) && RwInv(s) && LockInv(s) && WaitInv(s)
  }

  // ----- one worker moves -----

  lemma Moved(s: Pool, w: nat, pc: Worker)
    requires w < |s.workers|
    ensures var workers := s.workers[w := pc];
      && Sum(workers, Busy) == Sum(s.workers, Busy) - Busy(s.workers[w]) + Busy(pc)
      && Sum(workers, Bound) == Sum(s.workers, Bound) - Bound(s.workers[w]) + Bound(pc)
      && Sum(workers, InCondWait) == Sum(s.workers, InCondWait) - InCondWait(s.workers[w]) + InCondWait(pc)
      && Sum(workers, Testing) == Sum(s.workers, Testing) - Testing(s.workers[w]) + Testing(pc)
  {
    SumUpdate(s.workers, Busy, w, pc);
    SumUpdate(s.workers, Bound, w, pc);
    SumUpdate(s.workers, InCondWait, w, pc);
    SumUpdate(s.workers, Testing, w, pc);
  }

  lemma MovedHolding(s: Pool, w: nat, pc: Worker, k: nat)
    requires w < |s.workers|
    ensures Sum(s.workers[w := pc], Holding(k)) == Sum(s.workers, Holding(k)) - Holding(k)(s.workers[w]) + Holding(k)(pc)
  {
    SumUpdate(s.workers, Holding(k), w, pc);
  }

  /** After a signal on the semaphore either nobody sleeps or somebody has just woken up. */
  lemma WokeSums(s: Pool, wake: Option<nat>)
    requires Signals(s.workers, Sleeps, wake)
    ensures var workers := Woke(s.workers, wake);
      && Sum(workers, Busy) == Sum(s.workers, Busy)
      && Sum(workers, Bound) == Sum(s.workers, Bound)
      && (Sum(workers, InCondWait) == 0 || Sum(workers, Testing) > 0)
      && (forall k: nat :: Sum(workers, Holding(k)) == Sum(s.workers, Holding(k)))
  {
    if wake.Some? {
      Moved(s, wake.value, Waiting);
      forall k: nat ensures Sum(Woke(s.workers, wake), Holding(k)) == Sum(s.workers, Holding(k)) {
        MovedHolding(s, wake.value, Waiting, k);
      }
    } else {
      SumZero(s.workers, InCondWait);
    }
  }

  // ----- every step keeps the invariant -----

  lemma InitInv(workers: nat, waiters: nat)
    ensures Inv(Init(workers, waiters))
  {
    var s := Init(workers, waiters);
    SumZero(s.workers, Busy);
    forall k: nat ensures Times(s, k) == 0 {
      SumZero(s.workers, Holding(k));
    }
  }

  /** The worker a step moves, and where to. */
  function Mover(s: Pool, step: Step): Option<(nat, Worker)>
    requires Enabled(s, step)
  {
    match step
    case TakeToken(w) => Some((w, if s.v == 1 then Token else Asleep))
    case WakeWorker(w) => Some((w, Waiting))
    case CountUp(w) => Some((w, Counted))
    case Pull(w) =>
      Some((w, if |s.queue| == 0 then Finished else if |s.queue| == 1 then Running(s.queue[0]) else Posting(s.queue[0])))
    case RunJob(w) => Some((w, Finished))
    case CountDown(w, _) => Some((w, Waiting))
    case _ => None
  }

  /** The workers after a step: those woken by its signal, then its own move. */
  lemma WorkersAfter(s: Pool, step: Step)
    requires Enabled(s, step)
    ensures Mover(s, step).Some? ==> Mover(s, step).value.0 < |s.workers|
    ensures Next(s, step).workers ==
      if step.PushPost? then Woke(s.workers, step.wake)
      else if step.PullPost? then Woke(s.workers, step.wake)[step.w := Running(s.workers[step.w].job)]
      else if Mover(s, step).Some? then s.workers[Mover(s, step).value.0 := Mover(s, step).value.1]
      else s.workers
  {
  }

  lemma BusyAfter(s: Pool, step: Step)
    requires Enabled(s, step)
    ensures Sum(Next(s, step).workers, Busy) ==
      Sum(s.workers, Busy) + if step.CountUp? then 1 else if step.CountDown? then -1 else 0
  {
    WorkersAfter(s, step);
    if step.PushPost? {
      WokeSums(s, step.wake);
    } else if step.PullPost? {
      WokeSums(s, step.wake);
      Moved(s.(workers := Woke(s.workers, step.wake)), step.w, Running(s.workers[step.w].job));
    } else if Mover(s, step).Some? {
      var (w, pc) := Mover(s, step).value;
      Moved(s, w, pc);
    }
  }

  lemma BoundAfter(s: Pool, step: Step)
    requires Enabled(s, step)
    ensures Sum(Next(s, step).workers, Bound) ==
      Sum(s.workers, Bound) +
      if step.TakeToken? && s.v == 1 then 1
      else if step.PullPost? || (step.Pull? && |s.queue| <= 1) then -1 else 0
  {
    WorkersAfter(s, step);
    if step.PushPost? {
      WokeSums(s, step.wake);
    } else if step.PullPost? {
      WokeSums(s, step.wake);
      Moved(s.(workers := Woke(s.workers, step.wake)), step.w, Running(s.workers[step.w].job));
    } else if Mover(s, step).Some? {
      var (w, pc) := Mover(s, step).value;
      Moved(s, w, pc);
    }
  }

  lemma HoldingAfter(s: Pool, step: Step, k: nat)
    requires Enabled(s, step)
    ensures Sum(Next(s, step).workers, Holding(k)) ==
      Sum(s.workers, Holding(k)) +
      if step.Pull? && |s.queue| > 0 && s.queue[0] == k then 1
      else if step.RunJob? && s.workers[step.w].job == k then -1 else 0
  {
    WorkersAfter(s, step);
    if step.PushPost? {
      WokeSums(s, step.wake);
    } else if step.PullPost? {
      WokeSums(s, step.wake);
      MovedHolding(s.(workers := Woke(s.workers, step.wake)), step.w, Running(s.workers[step.w].job), k);
    } else if Mover(s, step).Some? {
      var (w, pc) := Mover(s, step).value;
      MovedHolding(s, w, pc, k);
    }
  }

  lemma JobKeeps(s: Pool, step: Step)
    requires JobInv(s) && Enabled(s, step)
    ensures JobInv(Next(s, step))
  {
    var s' := Next(s, step);
    forall k: nat ensures Times(s', k) == if k < s'.pulled then 1 else 0 {
      HoldingAfter(s, step, k);
      assert Times(s, k) == if k < s.pulled then 1 else 0;
    }
  }

  lemma CountKeeps(s: Pool, step: Step)
    requires CountInv(s) && Enabled(s, step)
    ensures CountInv(Next(s, step))
  {
    BusyAfter(s, step);
  }

  lemma TokenKeeps(s: Pool, step: Step)
    requires TokenInv(s) && Enabled(s, step)
    ensures TokenInv(Next(s, step))
  {
    BoundAfter(s, step);
    if step.Pull? {
      SumZero(Next(s, step).workers, Bound);
    }
  }

  lemma WakeKeeps(s: Pool, step: Step)
    requires WakeInv(s) && Enabled(s, step)
    ensures WakeInv(Next(s, step))
  {
    WorkersAfter(s, step);
    if step.PushPost? {
      WokeSums(s, step.wake);
    } else if step.PullPost? {
      WokeSums(s, step.wake);
      Moved(s.(workers := Woke(s.workers, step.wake)), step.w, Running(s.workers[step.w].job));
    } else if Mover(s, step).Some? {
      var (w, pc) := Mover(s, step).value;
      Moved(s, w, pc);
    }
  }

  lemma RwKeeps(s: Pool, step: Step)
    requires RwInv(s) && Enabled(s, step)
    ensures RwInv(Next(s, step))
  {
    WorkersAfter(s, step);
  }

  lemma LockKeeps(s: Pool, step: Step)
    requires LockInv(s) && Enabled(s, step)
    ensures LockInv(Next(s, step))
  {
  }

  /** With nobody busy, every job pulled so far is finished. */
  lemma IdleMeansDone(s: Pool)
    requires JobInv(s) && CountInv(s) && s.working == 0
    ensures Done(s, s.pulled)
  {
    forall k | 0 <= k < s.pulled ensures k in s.finished {
      SumBelow(s.workers, Holding(k), Busy);
      assert Times(s, k) == 1;
    }
  }

  lemma WaitKeeps(s: Pool, step: Step)
    requires Inv(s) && Enabled(s, step)
    ensures WaitInv(Next(s, step))
  {
    var s' := Next(s, step);
    assert forall k :: k in s.finished ==> k in s'.finished;
    if step.ReadWorking? && s.working == 0 {
      IdleMeansDone(s);
    }
  }

  lemma StepKeepsInv(s: Pool, step: Step)
    requires Inv(s) && Enabled(s, step)
    ensures Inv(Next(s, step))
  {
    JobKeeps(s, step);
    CountKeeps(s, step);
    TokenKeeps(s, step);
    WakeKeeps(s, step);
    RwKeeps(s, step);
    LockKeeps(s, step);
    WaitKeeps(s, step);
  }
}
