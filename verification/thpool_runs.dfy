/** Whole runs of the thread pool: no job is stranded, jobs start in push order and run once, thpool_wait
    means what it says, and when a waiter can be left asleep. */
module ThpoolRuns {
  import opened Sums
  import opened Wrappers
  import opened ThpoolMachine

  ghost predicate IsRun(states: seq<Pool>, steps: seq<Step>) {
    && |states| == |steps| + 1
    && forall i | 0 <= i < |steps| :: Enabled(states[i], steps[i]) && Next(states[i], steps[i]) == states[i + 1]
  }

  /** A run of a pool with the given numbers of workers and of threads that call thpool_wait, from
      thpool_init on. */
  ghost predicate IsPoolRun(states: seq<Pool>, steps: seq<Step>, workers: nat, waiters: nat) {
    IsRun(states, steps) && states[0] == Init(workers, waiters)
  }

  lemma {:induction false} RunInv(states: seq<Pool>, steps: seq<Step>, workers: nat, waiters: nat, i: nat)
    requires IsPoolRun(states, steps, workers, waiters) && i <= |steps|
    ensures Inv(states[i]) && |states[i].workers| == workers && |states[i].waiters| == waiters
  {
    if i == 0 {
      InitInv(workers, waiters);
    } else {
      RunInv(states, steps, workers, waiters, i - 1);
      StepKeepsInv(states[i - 1], steps[i - 1]);
    }
  }

  // ----- no job is stranded -----

  predicate PullSoon(s: Pool, w: nat) {
    w < |s.workers| && Bound(s.workers[w]) == 1
  }

  /** At every moment of every run at which jobs wait, the token is set, or about to be set by a push, or
      some worker has taken it and not yet finished pulling. */
  lemma NoJobStranded(states: seq<Pool>, steps: seq<Step>, workers: nat, waiters: nat, i: nat)
    requires IsPoolRun(states, steps, workers, waiters) && i <= |steps|
    requires |states[i].queue| > 0
    ensures states[i].v == 1 || states[i].rwmutex == Pushing || exists w :: PullSoon(states[i], w)
  {
    RunInv(states, steps, workers, waiters, i);
    var s := states[i];
    SumZero(s.workers, Bound);
    if w: nat :| w < |s.workers| && Bound(s.workers[w]) != 0 {
      assert PullSoon(s, w);
    }
  }

  // ----- push order, at most once -----

  /** A worker always pulls the oldest job not yet pulled, and only a job that never started before. */
  lemma PullsInOrder(states: seq<Pool>, steps: seq<Step>, workers: nat, waiters: nat, i: nat)
    requires IsPoolRun(states, steps, workers, waiters) && i < |steps| && steps[i].Pull? && |states[i].queue| > 0
    ensures var pc := states[i + 1].workers[steps[i].w];
      (pc.Running? || pc.Posting?) && pc.job == states[i].pulled && states[i + 1].pulled == states[i].pulled + 1
    ensures states[i].pulled !in states[i].finished
    ensures forall w | 0 <= w < |states[i].workers| && (states[i].workers[w].Posting? || states[i].workers[w].Running?) ::
      states[i].workers[w].job != states[i].pulled
  {
    RunInv(states, steps, workers, waiters, i);
    var s := states[i];
    assert Times(s, s.pulled) == 0;
    SumZero(s.workers, Holding(s.pulled));
    forall w | 0 <= w < workers && (s.workers[w].Posting? || s.workers[w].Running?) ensures s.workers[w].job != s.pulled {
      assert Holding(s.pulled)(s.workers[w]) == 0;
    }
  }

  lemma TwiceCounts(s: seq<nat>, a: nat, b: nat)
    requires a < b < |s| && s[a] == s[b]
    ensures multiset(s)[s[a]] >= 2
  {
    assert s == s[..b] + [s[b]] + s[b + 1..];
    assert s[..b][a] in multiset(s[..b]);
  }

  lemma NoRepeats(s: seq<nat>)
    requires forall k: nat :: multiset(s)[k] <= 1
    ensures forall a, b | 0 <= a < b < |s| :: s[a] != s[b]
  {
    forall a, b | 0 <= a < b < |s| && s[a] == s[b] ensures multiset(s)[s[a]] >= 2 {
      TwiceCounts(s, a, b);
    }
  }

  /** No job runs twice, and what has run was pulled. */
  lemma RunsAtMostOnce(states: seq<Pool>, steps: seq<Step>, workers: nat, waiters: nat, i: nat)
    requires IsPoolRun(states, steps, workers, waiters) && i <= |steps|
    ensures var f := states[i].finished;
      (forall a, b | 0 <= a < b < |f| :: f[a] != f[b]) && forall k | k in f :: k < states[i].pulled
  {
    RunInv(states, steps, workers, waiters, i);
    var s := states[i];
    forall k: nat ensures multiset(s.finished)[k] <= 1 {
      assert Times(s, k) <= 1;
    }
    NoRepeats(s.finished);
    forall k | k in s.finished ensures k < s.pulled {
      assert Times(s, k) > 0;
    }
  }

  // ----- thpool_wait -----

  lemma CallBegins(s: Pool, u: nat)
    requires Enabled(s, Call(u))
    ensures var s' := Next(s, Call(u));
      u < |s'.waiters| && !s'.waiters[u].Idle? && s'.waiters[u].before == s.added
  {
  }

  lemma CallGoesOn(s: Pool, step: Step, u: nat)
    requires Enabled(s, step) && step != Leave(u) && u < |s.waiters| && !s.waiters[u].Idle?
    ensures var s' := Next(s, step);
      u < |s'.waiters| && !s'.waiters[u].Idle? && s'.waiters[u].before == s.waiters[u].before
  {
  }

  lemma {:induction false} CallRemembered(states: seq<Pool>, steps: seq<Step>, u: nat, i: nat, j: nat)
    requires IsRun(states, steps) && i < j <= |steps| && steps[i] == Call(u)
    requires forall k | i < k < j :: steps[k] != Leave(u)
    ensures u < |states[j].waiters| && !states[j].waiters[u].Idle? && states[j].waiters[u].before == states[i].added
    decreases j
  {
    hide Enabled, Next;
    assert Enabled(states[j - 1], steps[j - 1]) && Next(states[j - 1], steps[j - 1]) == states[j];
    if i + 1 < j {
      CallRemembered(states, steps, u, i, j - 1);
      CallGoesOn(states[j - 1], steps[j - 1], u);
    } else {
      CallBegins(states[i], u);
    }
  }

  /** Once a call of thpool_wait has returned, every job added before that call has been run to its end. */
  lemma WaitMeansFinished(states: seq<Pool>, steps: seq<Step>, workers: nat, waiters: nat, u: nat, i: nat, j: nat)
    requires IsPoolRun(states, steps, workers, waiters) && i < j <= |steps| && steps[i] == Call(u)
    requires forall k | i < k < j :: steps[k] != Leave(u)
    requires u < |states[j].waiters| && states[j].waiters[u].Returned?
    ensures forall k | 0 <= k < states[i].added :: k in states[j].finished
  {
    CallRemembered(states, steps, u, i, j);
    RunInv(states, steps, workers, waiters, j);
  }

  // ----- everything gets done -----

  /** Steps of the pool itself and of calls already made; the rest come from outside or from nowhere. */
  predicate Internal(step: Step) {
    !(step.Push? || step.Call? || step.Leave? || step.WakeWorker? || step.WakeWaiter?)
  }

  function Effort(pc: Worker): nat {
    match pc
    case Asleep => 0
    case Waiting => 1
    case Finished => 5
    case Running(_) => 6
    case Counted => 8
    case Token => 9
    case Posting(_) => 17
  }

  function WaiterEffort(pc: Waiter): nat {
    match pc
    case Woken(_) => 3
    case Locked(_) => 2
    case SawEmpty(_) => 1
    case _ => 0
  }

  /** An upper bound on the internal steps still to come. */
  function Remaining(s: Pool): nat {
    10 * |s.queue| + Sum(s.workers, Effort) + Sum(s.waiters, WaiterEffort) +
    (if s.v == 1 then 9 else 0) + if s.rwmutex == Pushing then 11 else 0
  }

  lemma EffortAfter(s: Pool, step: Step)
    requires Enabled(s, step) && Internal(step)
    ensures var woken := if (step.PushPost? || step.PullPost?) && step.wake.Some? then 1 else 0;
      Sum(Next(s, step).workers, Effort) == Sum(s.workers, Effort) + woken +
        match step
        case TakeToken(w) => (if s.v == 1 then 8 else -1)
        case CountUp(w) => -1
        case Pull(w) => (if |s.queue| == 0 then -3 else if |s.queue| == 1 then -2 else 9)
        case PullPost(w, _) => -11
        case RunJob(w) => -1
        case CountDown(w, _) => -4
        case _ => 0
  {
    hide Next, Sum;
    WorkersAfter(s, step);
    if (step.PushPost? || step.PullPost?) && step.wake.Some? {
      SumUpdate(s.workers, Effort, step.wake.value, Waiting);
    }
    if step.PullPost? {
      SumUpdate(Woke(s.workers, step.wake), Effort, step.w, Running(s.workers[step.w].job));
    } else if Mover(s, step).Some? {
      var (w, pc) := Mover(s, step).value;
      SumUpdate(s.workers, Effort, w, pc);
    }
  }

  lemma WaitersAfter(s: Pool, step: Step)
    requires Enabled(s, step) && Internal(step)
    ensures Sum(Next(s, step).waiters, WaiterEffort) <= Sum(s.waiters, WaiterEffort) +
        match step
        case CountDown(_, wake) => (if wake.Some? then 3 else 0)
        case ReadLen(_) => -1
        case ReadWorking(_) => -1
        case Resume(_) => -1
        case _ => 0
  {
    var s' := Next(s, step);
    if step.ReadLen? || step.ReadWorking? || step.Resume? {
      SumUpdate(s.waiters, WaiterEffort, step.u, s'.waiters[step.u]);
      assert s'.waiters == s.waiters[step.u := s'.waiters[step.u]];
    } else if step.CountDown? && step.wake.Some? {
      SumUpdate(s.waiters, WaiterEffort, step.wake.value, s'.waiters[step.wake.value]);
    }
  }

  /** Every internal step uses some of it up: without new jobs, calls and spurious wakeups, runs end. */
  lemma RemainingDecreases(s: Pool, step: Step)
    requires Inv(s) && Enabled(s, step) && Internal(step)
    ensures Remaining(Next(s, step)) < Remaining(s)
  {
    EffortAfter(s, step);
    WaitersAfter(s, step);
  }

  /** So a run of internal steps is never longer than what remained at its start. */
  lemma {:induction false} RunsEnd(states: seq<Pool>, steps: seq<Step>, i: nat)
    requires IsRun(states, steps) && Inv(states[0]) && i <= |steps|
    requires forall k | 0 <= k < |steps| :: Internal(steps[k])
    ensures Inv(states[i]) && i + Remaining(states[i]) <= Remaining(states[0])
  {
    if i > 0 {
      RunsEnd(states, steps, i - 1);
      StepKeepsInv(states[i - 1], steps[i - 1]);
      RemainingDecreases(states[i - 1], steps[i - 1]);
    }
  }

  ghost predicate Stuck(s: Pool) {
    forall step | Enabled(s, step) :: !Internal(step)
  }

  /** A pool that cannot move any more has run every job, and its workers all sleep. */
  lemma StuckMeansDone(s: Pool)
    requires Inv(s) && |s.workers| > 0 && Stuck(s)
    ensures s.queue == [] && Done(s, s.added) && s.working == 0
    ensures forall w | 0 <= w < |s.workers| :: s.workers[w].Asleep?
    ensures forall u | 0 <= u < |s.waiters| :: s.waiters[u].Idle? || s.waiters[u].Sleeping? || s.waiters[u].Returned?
  {
    var u := if s.thcountLock.Some? then s.thcountLock.value else 0;
    assert !Enabled(s, ReadLen(u)) && !Enabled(s, ReadWorking(u));
    var wake := SomeSignal(s);
    var w := if s.rwmutex.Pulling? then s.rwmutex.w else 0;
    assert !Enabled(s, PushPost(wake)) && !Enabled(s, PullPost(w, wake));
    forall w | 0 <= w < |s.workers| ensures s.workers[w].Asleep? {
      WorkerCanMove(s, w);
    }
    SumZero(s.workers, Bound);
    SumZero(s.workers, Busy);
    SumZero(s.workers, Testing);
    SumZero(s.workers, InCondWait);
    assert InCondWait(s.workers[0]) == 1;
    IdleMeansDone(s);
    forall u | 0 <= u < |s.waiters| ensures s.waiters[u].Idle? || s.waiters[u].Sleeping? || s.waiters[u].Returned? {
      assert !Enabled(s, Resume(u));
    }
  }

  lemma SomeSignal(s: Pool) returns (wake: Option<nat>)
    ensures Signals(s.workers, Sleeps, wake)
  {
    if w: nat :| w < |s.workers| && Sleeps(s.workers[w]) {
      wake := Some(w);
    } else {
      wake := None;
    }
  }

  lemma SomeWaiter(s: Pool) returns (wake: Option<nat>)
    ensures Signals(s.waiters, WaiterSleeps, wake)
  {
    if u: nat :| u < |s.waiters| && WaiterSleeps(s.waiters[u]) {
      wake := Some(u);
    } else {
      wake := None;
    }
  }

  lemma WorkerCanMove(s: Pool, w: nat)
    requires Stuck(s) && w < |s.workers| && s.thcountLock.None? && s.rwmutex == Free && RwInv(s)
    ensures s.workers[w].Asleep?
  {
    var quiet := SomeWaiter(s);
    assert !Enabled(s, TakeToken(w)) && !Enabled(s, CountUp(w)) && !Enabled(s, Pull(w)) && !Enabled(s, RunJob(w));
    assert !Enabled(s, CountDown(w, if s.working == 1 then quiet else None));
  }

  // ----- how many may wait at once -----

  /** A waiter sleeps only while jobs wait or somebody works, so that a signal is still to come. */
  predicate SleepInv(s: Pool) {
    forall u | 0 <= u < |s.waiters| && s.waiters[u].Sleeping? :: |s.queue| > 0 || s.working > 0
  }

  /** No two threads sleep in thpool_wait at once. */
  predicate Alone(s: Pool) {
    forall u, u' | 0 <= u < u' < |s.waiters| :: !(s.waiters[u].Sleeping? && s.waiters[u'].Sleeping?)
  }

  lemma SleepKeeps(s: Pool, step: Step)
    requires Inv(s) && SleepInv(s) && Enabled(s, step) && Alone(s)
    ensures SleepInv(Next(s, step))
  {
    SumZero(s.workers, Busy);
  }

  ghost predicate Reachable(s: Pool, workers: nat, waiters: nat) {
    exists states: seq<Pool>, steps: seq<Step> :: IsPoolRun(states, steps, workers, waiters) && states[|steps|] == s
  }

  lemma ReachInit(workers: nat, waiters: nat)
    ensures Reachable(Init(workers, waiters), workers, waiters)
  {
    var states, steps: seq<Step> := [Init(workers, waiters)], [];
    assert IsPoolRun(states, steps, workers, waiters) && states[|steps|] == Init(workers, waiters);
  }

  lemma ReachStep(s: Pool, step: Step, workers: nat, waiters: nat) returns (s': Pool)
    requires Reachable(s, workers, waiters) && Enabled(s, step)
    ensures s' == Next(s, step) && Reachable(s', workers, waiters)
  {
    s' := Next(s, step);
    var states: seq<Pool>, steps: seq<Step> :| IsPoolRun(states, steps, workers, waiters) && states[|steps|] == s;
    var states', steps' := states + [s'], steps + [step];
    forall i | 0 <= i < |steps'| ensures Enabled(states'[i], steps'[i]) && Next(states'[i], steps'[i]) == states'[i + 1] {
      assert states'[i] == states[i];
    }
    assert IsPoolRun(states', steps', workers, waiters) && states'[|steps'|] == s';
  }

  /** In a run where waiters never sleep together, none ever sleeps with nothing to come. */
  lemma {:induction false} SleepRun(states: seq<Pool>, steps: seq<Step>, workers: nat, waiters: nat, i: nat)
    requires IsPoolRun(states, steps, workers, waiters) && i <= |steps|
    requires forall k | 0 <= k < i :: Alone(states[k])
    ensures SleepInv(states[i])
  {
    if i > 0 {
      SleepRun(states, steps, workers, waiters, i - 1);
      RunInv(states, steps, workers, waiters, i - 1);
      SleepKeeps(states[i - 1], steps[i - 1]);
    }
  }

  /** Such a run, once the pool cannot move any more, has let every waiter go. */
  lemma LoneWaiterReturns(states: seq<Pool>, steps: seq<Step>, workers: nat, waiters: nat, i: nat)
    requires IsPoolRun(states, steps, workers, waiters) && workers > 0 && i <= |steps|
    requires forall k | 0 <= k < i :: Alone(states[k])
    requires Stuck(states[i])
    ensures forall u | 0 <= u < |states[i].waiters| :: states[i].waiters[u].Idle? || states[i].waiters[u].Returned?
  {
    RunInv(states, steps, workers, waiters, i);
    SleepRun(states, steps, workers, waiters, i);
    StuckMeansDone(states[i]);
  }

  /** Waiter u sleeps although it should return, and nobody has a token or a signal for it. */
  predicate Lost(s: Pool, u: nat) {
    && u < |s.waiters| && s.waiters[u].Sleeping? && s.queue == [] && s.v == 0 && s.rwmutex == Free
    && forall w | 0 <= w < |s.workers| :: s.workers[w].Waiting? || s.workers[w].Asleep?
  }

  /** A lost waiter stays lost until a new job is pushed or its condition variable wakes it for no reason. */
  lemma LostStaysLost(s: Pool, u: nat, step: Step)
    requires Lost(s, u) && Enabled(s, step) && !step.Push? && step != WakeWaiter(u)
    ensures Lost(Next(s, step), u)
  {
  }

  lemma TwoWaitersSleep(workers: nat, waiters: nat) returns (s: Pool)
    requires workers >= 1 && waiters >= 2
    ensures Reachable(s, workers, waiters)
    ensures s == Init(workers, waiters).(
      queue := [0], added := 1, v := 1, waiters := seq(waiters, _ => Idle)[0 := Sleeping(1)][1 := Sleeping(1)])
  {
    hide Reachable;
    ReachInit(workers, waiters);
    s := Init(workers, waiters);
    s := ReachStep(s, Push, workers, waiters);
    s := ReachStep(s, PushPost(None), workers, waiters);
    s := ReachStep(s, Call(0), workers, waiters);
    s := ReachStep(s, ReadLen(0), workers, waiters);
    s := ReachStep(s, Call(1), workers, waiters);
    s := ReachStep(s, ReadLen(1), workers, waiters);
  }

  /** Two threads asleep in thpool_wait behind one job: its end signals only one of them. */
  lemma TwoWaitersStrand(workers: nat, waiters: nat) returns (s: Pool)
    requires workers >= 1 && waiters >= 2
    ensures Reachable(s, workers, waiters) && Lost(s, 1) && !SleepInv(s)
  {
    hide Reachable;
    s := TwoWaitersSleep(workers, waiters);
    s := ReachStep(s, TakeToken(0), workers, waiters);
    s := ReachStep(s, CountUp(0), workers, waiters);
    s := ReachStep(s, Pull(0), workers, waiters);
    s := ReachStep(s, RunJob(0), workers, waiters);
    s := ReachStep(s, CountDown(0, Some(0)), workers, waiters);
    assert s.waiters[1].Sleeping?;
  }

  lemma OneIsAlone(workers: nat, waiters: nat, s: Pool)
    requires Reachable(s, workers, waiters) && waiters <= 1
    ensures Inv(s) && SleepInv(s)
  {
    var states: seq<Pool>, steps: seq<Step> :| IsPoolRun(states, steps, workers, waiters) && states[|steps|] == s;
    forall k | 0 <= k <= |steps| ensures Alone(states[k]) {
      RunInv(states, steps, workers, waiters, k);
    }
    RunInv(states, steps, workers, waiters, |steps|);
    SleepRun(states, steps, workers, waiters, |steps|);
  }

  /** No reachable state has a lost waiter exactly when at most one thread calls thpool_wait, however often. */
  lemma WaitersWokenIff(workers: nat, waiters: nat)
    requires workers >= 1
    ensures (forall s, u | Reachable(s, workers, waiters) :: !Lost(s, u)) <==> waiters <= 1
  {
    if waiters <= 1 {
      forall s, u | Reachable(s, workers, waiters) ensures !Lost(s, u) {
        OneIsAlone(workers, waiters, s);
        SumZero(s.workers, Busy);
      }
    } else {
      var s := TwoWaitersStrand(workers, waiters);
    }
  }

  // ----- two sleepers can always go wrong -----

  predicate TwoSleep(s: Pool, u: nat, u': nat) {
    u < u' < |s.waiters| && s.waiters[u].Sleeping? && s.waiters[u'].Sleeping?
  }

  /** A run in which the pool goes on by itself. */
  ghost predicate IsInternalRun(states: seq<Pool>, steps: seq<Step>) {
    IsRun(states, steps) && forall k | 0 <= k < |steps| :: Internal(steps[k])
  }

  lemma Prepend(s: Pool, step: Step, states: seq<Pool>, steps: seq<Step>) returns (states': seq<Pool>, steps': seq<Step>)
    requires Enabled(s, step) && Internal(step) && IsInternalRun(states, steps) && states[0] == Next(s, step)
    ensures IsInternalRun(states', steps') && states'[0] == s && states'[|steps'|] == states[|steps|]
  {
    states', steps' := [s] + states, [step] + steps;
    forall i | 0 <= i < |steps'| ensures Enabled(states'[i], steps'[i]) && Next(states'[i], steps'[i]) == states'[i + 1] {
      if i > 0 {
        assert Enabled(states[i - 1], steps[i - 1]) && Next(states[i - 1], steps[i - 1]) == states[i];
      }
    }
  }

  lemma {:induction false} Join(a: seq<Pool>, x: seq<Step>, b: seq<Pool>, y: seq<Step>) returns (c: seq<Pool>, z: seq<Step>)
    requires IsInternalRun(a, x) && IsInternalRun(b, y) && a[|x|] == b[0]
    ensures IsInternalRun(c, z) && c[0] == a[0] && c[|z|] == b[|y|]
  {
    if x == [] {
      c, z := b, y;
    } else {
      assert Enabled(a[0], x[0]) && Next(a[0], x[0]) == a[1];
      forall i | 0 <= i < |x[1..]| ensures Enabled(a[1..][i], x[1..][i]) && Next(a[1..][i], x[1..][i]) == a[1..][i + 1] {
        assert Enabled(a[i + 1], x[i + 1]) && Next(a[i + 1], x[i + 1]) == a[i + 2];
      }
      c, z := Join(a[1..], x[1..], b, y);
      c, z := Prepend(a[0], x[0], c, z);
    }
  }

  lemma Onward(s: Pool, step: Step) returns (t: Pool)
    requires Inv(s) && Enabled(s, step) && Internal(step)
    ensures t == Next(s, step) && Inv(t) && Remaining(t) < Remaining(s)
  {
    t := Next(s, step);
    StepKeepsInv(s, step);
    RemainingDecreases(s, step);
  }

  /** Waiter x, woken while jobs wait, goes back to sleep. */
  lemma SleepsAgain(s: Pool, x: nat) returns (t: Pool, v: Pool)
    requires Inv(s) && x < |s.waiters| && s.waiters[x].Woken? && s.thcountLock.None? && |s.queue| > 0
    ensures Enabled(s, Resume(x)) && t == Next(s, Resume(x)) && Enabled(t, ReadLen(x)) && v == Next(t, ReadLen(x))
    ensures Inv(v) && Remaining(v) < Remaining(s) && v.waiters == s.waiters[x := Sleeping(s.waiters[x].before)]
  {
    t := Onward(s, Resume(x));
    v := Onward(t, ReadLen(x));
  }

  /** Waiter x, woken while a worker counts, goes back to sleep even though no jobs wait. */
  lemma SleepsAgainEmpty(s: Pool, x: nat) returns (t: Pool, t': Pool, v: Pool)
    requires Inv(s) && x < |s.waiters| && s.waiters[x].Woken? && s.thcountLock.None? && s.queue == [] && s.working != 0
    ensures Enabled(s, Resume(x)) && t == Next(s, Resume(x)) && Enabled(t, ReadLen(x)) && t' == Next(t, ReadLen(x))
    ensures Enabled(t', ReadWorking(x)) && v == Next(t', ReadWorking(x))
    ensures Inv(v) && Remaining(v) < Remaining(s) && v.waiters == s.waiters[x := Sleeping(s.waiters[x].before)]
  {
    t := Onward(s, Resume(x));
    t' := Onward(t, ReadLen(x));
    v := Onward(t', ReadWorking(x));
  }

  /** Worker w takes a stale token and counts, before the waiter it has just woken resumes. */
  lemma CountsAgain(s: Pool, w: nat) returns (t: Pool, v: Pool)
    requires Inv(s) && AtWorker(s, w, Waiting) && s.v == 1 && s.thcountLock.None?
    ensures Enabled(s, TakeToken(w)) && t == Next(s, TakeToken(w)) && Enabled(t, CountUp(w)) && v == Next(t, CountUp(w))
    ensures Inv(v) && Remaining(v) < Remaining(s) && v.waiters == s.waiters && v.queue == s.queue
    ensures v.thcountLock.None? && v.working == s.working + 1
  {
    t := Onward(s, TakeToken(w));
    v := Onward(t, CountUp(w));
  }

  /** Nothing can happen by itself but the signal of the last worker counting down. */
  ghost predicate OnlySignals(s: Pool) {
    forall step | Enabled(s, step) && Internal(step) :: step.CountDown? && step.wake.Some?
  }

  lemma OnlySignalsLocks(s: Pool)
    requires Inv(s) && OnlySignals(s)
    ensures s.thcountLock.None? && s.rwmutex == Free
  {
    var u := if s.thcountLock.Some? then s.thcountLock.value else 0;
    assert !Enabled(s, ReadLen(u)) && !Enabled(s, ReadWorking(u));
    var wake := SomeSignal(s);
    var w := if s.rwmutex.Pulling? then s.rwmutex.w else 0;
    assert !Enabled(s, PushPost(wake)) && !Enabled(s, PullPost(w, wake));
  }

  lemma OnlySignalsWorker(s: Pool, w: nat)
    requires OnlySignals(s) && RwInv(s) && s.thcountLock.None? && s.rwmutex == Free && w < |s.workers|
    ensures s.workers[w].Asleep? || (s.workers[w].Finished? && s.working == 1)
  {
    assert !Enabled(s, TakeToken(w)) && !Enabled(s, CountUp(w)) && !Enabled(s, Pull(w)) && !Enabled(s, RunJob(w));
    assert s.working != 1 ==> !Enabled(s, CountDown(w, None));
  }

  /** Then no token is out while a worker sleeps, and none while the queue is empty unless nobody sleeps. */
  lemma OnlySignalsToken(s: Pool)
    requires Inv(s) && OnlySignals(s)
    ensures s.thcountLock.None? && s.rwmutex == Free
    ensures forall w | 0 <= w < |s.workers| :: s.workers[w].Asleep? || (s.workers[w].Finished? && s.working == 1)
    ensures s.v == 0 ==> s.queue == []
    ensures s.v == 1 ==> forall w | 0 <= w < |s.workers| :: s.workers[w].Finished?
  {
    OnlySignalsLocks(s);
    forall w | 0 <= w < |s.workers| ensures s.workers[w].Asleep? || (s.workers[w].Finished? && s.working == 1) {
      OnlySignalsWorker(s, w);
    }
    SumZero(s.workers, Bound);
    SumZero(s.workers, Testing);
    SumZero(s.workers, InCondWait);
    forall w | 0 <= w < |s.workers| && s.v == 1 ensures !s.workers[w].Asleep? {
      assert InCondWait(s.workers[w]) == 0;
    }
  }

  /** The last worker counts down: nobody is busy any more. */
  lemma LastOut(s: Pool, w: nat, x: nat) returns (t: Pool)
    requires Inv(s) && OnlySignals(s) && AtWorker(s, w, Finished) && x < |s.waiters| && s.waiters[x].Sleeping?
    ensures Enabled(s, CountDown(w, Some(x))) && t == Next(s, CountDown(w, Some(x)))
    ensures Inv(t) && Remaining(t) < Remaining(s) && t.thcountLock.None? && t.working == 0
    ensures t.waiters == s.waiters[x := Woken(s.waiters[x].before)] && AtWorker(t, w, Waiting)
    ensures t.v == s.v && t.queue == s.queue && t.rwmutex == Free
    ensures forall k | 0 <= k < |t.workers| :: t.workers[k].Waiting? || t.workers[k].Asleep?
  {
    OnlySignalsToken(s);
    t := Onward(s, CountDown(w, Some(x)));
    SumZero(t.workers, Busy);
    forall k | 0 <= k < |t.workers| ensures t.workers[k].Waiting? || t.workers[k].Asleep? {
      assert Busy(t.workers[k]) == 0;
    }
  }

  /** As a run: waiter x, woken while jobs wait, goes back to sleep. */
  lemma SleepingRun(s: Pool, x: nat) returns (states: seq<Pool>, steps: seq<Step>)
    requires Inv(s) && x < |s.waiters| && s.waiters[x].Woken? && s.thcountLock.None? && |s.queue| > 0
    ensures IsInternalRun(states, steps) && states[0] == s
    ensures var v := states[|steps|];
      Inv(v) && Remaining(v) < Remaining(s) && v.waiters == s.waiters[x := Sleeping(s.waiters[x].before)]
  {
    hide Inv, Remaining, Enabled, Next;
    var t, v := SleepsAgain(s, x);
    states, steps := Standing(v);
    states, steps := Prepend(t, ReadLen(x), states, steps);
    states, steps := Prepend(s, Resume(x), states, steps);
  }

  /** As a run: waiter x, woken while no jobs wait but a stale token is set, goes back to sleep because worker
      w counts again. */
  lemma StaleRun(s: Pool, w: nat, x: nat) returns (states: seq<Pool>, steps: seq<Step>)
    requires Inv(s) && AtWorker(s, w, Waiting) && s.v == 1 && s.thcountLock.None? && s.queue == [] && s.working == 0
    requires x < |s.waiters| && s.waiters[x].Woken?
    ensures IsInternalRun(states, steps) && states[0] == s
    ensures var v := states[|steps|];
      Inv(v) && Remaining(v) < Remaining(s) && v.waiters == s.waiters[x := Sleeping(s.waiters[x].before)]
  {
    hide Inv, Remaining, Enabled, Next;
    var t, t' := CountsAgain(s, w);
    var u, u', v := SleepsAgainEmpty(t', x);
    states, steps := Standing(v);
    states, steps := Prepend(u', ReadWorking(x), states, steps);
    states, steps := Prepend(u, ReadLen(x), states, steps);
    states, steps := Prepend(t', Resume(x), states, steps);
    states, steps := Prepend(t, CountUp(w), states, steps);
    states, steps := Prepend(s, TakeToken(w), states, steps);
  }

  lemma Standing(s: Pool) returns (states: seq<Pool>, steps: seq<Step>)
    ensures IsInternalRun(states, steps) && states[0] == s && states[|steps|] == s
  {
    states, steps := [s], [];
  }

  lemma {:induction false} SameWorkers(states: seq<Pool>, steps: seq<Step>, i: nat)
    requires IsRun(states, steps) && i <= |steps|
    ensures |states[i].workers| == |states[0].workers|
  {
    hide Next, Enabled;
    if i > 0 {
      SameWorkers(states, steps, i - 1);
      assert Enabled(states[i - 1], steps[i - 1]) && Next(states[i - 1], steps[i - 1]) == states[i];
    }
  }

  lemma OnlyBit(s: Pool)
    requires Inv(s)
    ensures s.v == 0 || s.v == 1
  {
  }

  lemma SomeFinished(s: Pool) returns (w: Option<nat>)
    requires Inv(s) && |s.workers| > 0 && OnlySignals(s)
    ensures if w.Some? then AtWorker(s, w.value, Finished) else
      s.v == 0 && s.queue == [] && s.rwmutex == Free && forall w | 0 <= w < |s.workers| :: s.workers[w].Asleep?
  {
    hide Inv, OnlySignals;
    OnlyBit(s);
    OnlySignalsToken(s);
    if s.v == 1 {
      w := Some(0);
    } else if w': nat :| w' < |s.workers| && s.workers[w'].Finished? {
      w := Some(w');
    } else {
      w := None;
    }
  }

  /** From there a lost waiter is reached, or two sleep again with less to do. */
  lemma SignalOne(s: Pool, u: nat, u': nat) returns (states: seq<Pool>, steps: seq<Step>, lost: bool)
    requires Inv(s) && |s.workers| > 0 && TwoSleep(s, u, u') && OnlySignals(s)
    ensures IsInternalRun(states, steps) && states[0] == s
    ensures var t := states[|steps|];
      if lost then Lost(t, u')
      else Inv(t) && Remaining(t) < Remaining(s) && |t.workers| == |s.workers| && TwoSleep(t, u, u')
  {
    hide Inv, Remaining, OnlySignals, Enabled, Next;
    var w := SomeFinished(s);
    if w.None? {
      states, steps := Standing(s);
      lost := true;
    } else {
      var t := LastOut(s, w.value, u);
      lost := s.v == 0 && s.queue == [];
      if lost {
        states, steps := Standing(t);
      } else if |s.queue| > 0 {
        states, steps := SleepingRun(t, u);
      } else {
        OnlyBit(s);
        states, steps := StaleRun(t, w.value, u);
      }
      states, steps := Prepend(s, CountDown(w.value, Some(u)), states, steps);
    }
    SameWorkers(states, steps, |steps|);
  }

  lemma StillAsleep(s: Pool, step: Step, u: nat, u': nat)
    requires TwoSleep(s, u, u') && Enabled(s, step) && Internal(step) && !(step.CountDown? && step.wake.Some?)
    ensures TwoSleep(Next(s, step), u, u') && |Next(s, step).workers| == |s.workers|
  {
  }

  /** From every sound state in which two waiters sleep, the pool can go on by itself to one in which one of
      them is lost. */
  lemma {:induction false} TwoSleepersCanStrand(s: Pool, u: nat, u': nat) returns (states: seq<Pool>, steps: seq<Step>)
    requires Inv(s) && |s.workers| > 0 && TwoSleep(s, u, u')
    ensures IsInternalRun(states, steps) && states[0] == s && Lost(states[|steps|], u')
    decreases Remaining(s)
  {
    hide Inv, Remaining, Next, Lost;
    if OnlySignals(s) {
      var lost;
      states, steps, lost := SignalOne(s, u, u');
      if !lost {
        var states', steps' := TwoSleepersCanStrand(states[|steps|], u, u');
        states, steps := Join(states, steps, states', steps');
      }
    } else {
      var step :| Enabled(s, step) && Internal(step) && !(step.CountDown? && step.wake.Some?);
      var t := Onward(s, step);
      StillAsleep(s, step, u, u');
      states, steps := TwoSleepersCanStrand(t, u, u');
      states, steps := Prepend(s, step, states, steps);
    }
  }
}
