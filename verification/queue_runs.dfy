/** Whole runs of the shared queue: no lost wakeups, nothing lost or duplicated, and what flush does to
    sleeping putters. */
module QueueRuns {
  import opened QueueModel
  import opened QueueMonitor
  import opened Sums
  import opened Wrappers

  ghost predicate IsRun<T>(states: seq<Monitor<T>>, steps: seq<Step<T>>, config: Config<T>, threads: nat) {
    && |states| == |steps| + 1 && states[0] == Init(config, threads)
    && forall i | 0 <= i < |steps| :: Enabled(states[i], steps[i]) && Next(states[i], steps[i]) == states[i + 1]
  }

  lemma InitInv<T(!new)>(config: Config<T>, threads: nat)
    ensures var s := Init(config, threads); GetInv(s) && PutInv(s) && CloseInv(s) && DataInv(s)
  {
    var s := Init(config, threads);
    SumZero(s.threads, AsleepGet<T>);
    SumZero(s.threads, AsleepPut<T>);
  }

  lemma StepKeepsConfig<T>(s: Monitor<T>, step: Step<T>)
    requires Enabled(s, step)
    ensures Next(s, step).config == s.config
  {
  }

  /** In every run, with flushes, failing allocations, closing and reopening: a getter sleeps only while
      each queued element has a woken getter coming for it, nobody sleeps on a queue that is closed unless
      a closing thread has still to broadcast, and every element put has left or is queued exactly once, in order. */
  lemma {:induction false} EveryRun<T(!new)>(states: seq<Monitor<T>>, steps: seq<Step<T>>, config: Config<T>, threads: nat, i: nat)
    requires IsRun(states, steps, config, threads) && i <= |steps|
    ensures GetInv(states[i]) && CloseInv(states[i]) && DataInv(states[i]) && states[i].config == config
  {
    hide GetInv, CloseInv, DataInv, Next, Enabled;
    if i == 0 {
      InitInv(config, threads);
    } else {
      StepKeepsConfig(states[i - 1], steps[i - 1]);
      EveryRun(states, steps, config, threads, i - 1);
      GetKeeps(states[i - 1], steps[i - 1]);
      CloseKeeps(states[i - 1], steps[i - 1]);
      DataKeeps(states[i - 1], steps[i - 1]);
    }
  }

  /** The putters' guarantee, that a putter sleeps only while each free place has a woken putter coming for
      it, holds throughout a run exactly if every step of the run is guarded. */
  lemma {:induction false} GuaranteeIffGuarded<T(!new)>(states: seq<Monitor<T>>, steps: seq<Step<T>>, config: Config<T>, threads: nat, n: nat)
    requires IsRun(states, steps, config, threads) && n <= |steps|
    ensures (forall i | 0 <= i <= n :: PutInv(states[i])) <==> (forall k | 0 <= k < n :: Guarded(states[k], steps[k]))
  {
    if n == 0 {
      InitInv(config, threads);
    } else {
      GuaranteeIffGuarded(states, steps, config, threads, n - 1);
      EveryRun(states, steps, config, threads, n - 1);
      if forall i | 0 <= i <= n - 1 :: PutInv(states[i]) {
        assert PutInv(states[n - 1]);
        assert Enabled(states[n - 1], steps[n - 1]) && Next(states[n - 1], steps[n - 1]) == states[n];
        PutKeepsIff(states[n - 1], steps[n - 1]);
      }
    }
  }

  /** No putter sleeps when the queue is flushed or closed, or when a woken putter fails to allocate; so in
      particular if no put_wait is in progress then. */
  predicate Calm<T>(s: Monitor<T>, step: Step<T>) {
    match step
    case Flush => !SomeSleeps(s, PutterSleeps)
    case FlushPut(_, _, _, _) => !SomeSleeps(s, PutterSleeps)
    case SetNewData(_, v) => v || !SomeSleeps(s, PutterSleeps)
    case Put(t, _, wait, alloc, _) =>
      || alloc || !PutOutcome(s, wait, true).Succeeds?
      || (t < |s.threads| && s.threads[t].Idle?) || !SomeSleeps(s, PutterSleeps)
    case _ => true
  }

  lemma CalmKeepsClosed<T>(s: Monitor<T>, step: Step<T>)
    requires Enabled(s, step) && Calm(s, step)
    requires !s.newData ==> Sum(s.threads, AsleepPut<T>) == 0
    ensures Guarded(s, step)
    ensures !Next(s, step).newData ==> Sum(Next(s, step).threads, AsleepPut<T>) == 0
  {
    SumZero(s.threads, AsleepPut<T>);
    StepCounts(s, step);
  }

  /** A run whose steps are calm keeps the guarantee, closed and reopened as often as it likes. */
  lemma {:induction false} CalmRun<T(!new)>(states: seq<Monitor<T>>, steps: seq<Step<T>>, config: Config<T>, threads: nat, n: nat)
    requires IsRun(states, steps, config, threads) && n <= |steps|
    requires forall k | 0 <= k < |steps| :: Calm(states[k], steps[k])
    ensures forall k | 0 <= k < n :: Guarded(states[k], steps[k])
    ensures forall i | 0 <= i <= n :: PutInv(states[i])
    ensures !states[n].newData ==> !SomeSleeps(states[n], PutterSleeps)
  {
    hide Next, Enabled, Guarded, Calm, PutInv, Sum;
    SumZero(states[n].threads, AsleepPut<T>);
    if n == 0 {
      InitInv(config, threads);
    } else {
      CalmRun(states, steps, config, threads, n - 1);
      SumZero(states[n - 1].threads, AsleepPut<T>);
      CalmKeepsClosed(states[n - 1], steps[n - 1]);
      GuaranteeIffGuarded(states, steps, config, threads, n);
    }
  }

  // ----- what sleeping means -----

  /** No thread is on its way: each is outside the queue's functions or asleep in one. */
  predicate AtRest<T>(s: Monitor<T>) {
    forall t | 0 <= t < |s.threads| :: s.threads[t].Idle? || s.threads[t].GetterAsleep? || s.threads[t].PutterAsleep?
  }

  predicate SomeSleeps<T>(s: Monitor<T>, sleeps: Thread<T> -> bool) {
    exists t :: 0 <= t < |s.threads| && sleeps(s.threads[t])
  }

  lemma RestCounts<T>(s: Monitor<T>)
    requires AtRest(s)
    ensures Sum(s.threads, WokenGet<T>) == 0 && Sum(s.threads, WokenPut<T>) == 0
    ensures Sum(s.threads, Telling<T>) == 0 && Sum(s.threads, HalfTold<T>) == 0
    ensures SomeSleeps(s, GetterSleeps) <==> Sum(s.threads, AsleepGet<T>) > 0
    ensures SomeSleeps(s, PutterSleeps) <==> Sum(s.threads, AsleepPut<T>) > 0
  {
    SumZero(s.threads, WokenGet<T>);
    SumZero(s.threads, WokenPut<T>);
    SumZero(s.threads, Telling<T>);
    SumZero(s.threads, HalfTold<T>);
    SumZero(s.threads, AsleepGet<T>);
    SumZero(s.threads, AsleepPut<T>);
  }

  /** When nothing is on its way, a sleeping getter means an open, empty queue, and a sleeping putter an
      open one, which is full if every step so far was guarded. */
  lemma SleepersHaveReason<T(!new)>(states: seq<Monitor<T>>, steps: seq<Step<T>>, config: Config<T>, threads: nat, i: nat)
    requires IsRun(states, steps, config, threads) && i <= |steps| && AtRest(states[i])
    ensures SomeSleeps(states[i], GetterSleeps) ==> states[i].els == [] && states[i].newData
    ensures SomeSleeps(states[i], PutterSleeps) ==> states[i].newData
    ensures SomeSleeps(states[i], PutterSleeps) && (forall k | 0 <= k < i :: Guarded(states[k], steps[k])) ==>
      Full(config.max, |states[i].els|)
  {
    EveryRun(states, steps, config, threads, i);
    RestCounts(states[i]);
    GuaranteeIffGuarded(states, steps, config, threads, i);
    FullIff(config.max, |states[i].els|);
  }

  // ----- how waiting calls return -----

  /** Whatever the other threads do, a thread that waits in a get or a put stays there until it acts itself. */
  lemma StaysIn<T>(s: Monitor<T>, step: Step<T>, t: nat)
    requires Enabled(s, step) && t < |s.threads|
    ensures t < |Next(s, step).threads|
    ensures s.threads[t].GetterAsleep? || s.threads[t].GetterWoken? ==>
      Next(s, step).threads[t].GetterAsleep? || Next(s, step).threads[t].GetterWoken? || (step.Get? && step.t == t && step.wait)
    ensures s.threads[t].PutterAsleep? || s.threads[t].PutterWoken? ==>
      || Next(s, step).threads[t] == PutterAsleep(s.threads[t].el) || Next(s, step).threads[t] == PutterWoken(s.threads[t].el)
      || (step.Put? && step.t == t && step.wait && step.el == s.threads[t].el)
  {
  }

  lemma {:induction false} GetWaits<T(!new)>(states: seq<Monitor<T>>, steps: seq<Step<T>>, config: Config<T>, threads: nat, t: nat, i: nat, j: nat)
    requires IsRun(states, steps, config, threads) && i < j <= |steps|
    requires steps[i].Get? && steps[i].t == t && steps[i].wait
    requires forall k | i < k < j :: t < |states[k].threads| && !states[k].threads[t].Idle?
    ensures j - 1 > i ==> t < |states[j - 1].threads| && (states[j - 1].threads[t].GetterAsleep? || states[j - 1].threads[t].GetterWoken?)
  {
    hide Next, Enabled;
    if j - 1 > i {
      assert Enabled(states[j - 2], steps[j - 2]) && Next(states[j - 2], steps[j - 2]) == states[j - 1];
      if j - 2 > i {
        GetWaits(states, steps, config, threads, t, i, j - 1);
        StaysIn(states[j - 2], steps[j - 2], t);
      }
      if steps[j - 2].Get? && steps[j - 2].t == t {
        GetDoes(states[j - 2], t, steps[j - 2].wait, steps[j - 2].wake);
      }
    }
  }

  /** queue_get_wait returns either with the first element of the queue, or because it met the queue empty and
      closed; in between it sleeps or has been woken. */
  lemma GetWaitReturns<T(!new)>(states: seq<Monitor<T>>, steps: seq<Step<T>>, config: Config<T>, threads: nat, t: nat, i: nat, j: nat)
    requires IsRun(states, steps, config, threads) && i < j <= |steps|
    requires steps[i].Get? && steps[i].t == t && steps[i].wait
    requires forall k | i < k < j :: t < |states[k].threads| && !states[k].threads[t].Idle?
    requires t < |states[j].threads| && states[j].threads[t].Idle?
    ensures var s, s' := states[j - 1], states[j];
      if s.els != [] then s'.els == s.els[1..] && s'.removed == s.removed + [Got(s.els[0])]
      else !s.newData && s'.els == [] && s'.removed == s.removed
  {
    hide Next, Enabled;
    GetWaits(states, steps, config, threads, t, i, j);
    assert Enabled(states[j - 1], steps[j - 1]) && Next(states[j - 1], steps[j - 1]) == states[j];
    if j - 1 > i {
      StaysIn(states[j - 1], steps[j - 1], t);
    }
    GetDoes(states[j - 1], t, steps[j - 1].wait, steps[j - 1].wake);
  }

  lemma {:induction false} PutWaits<T(!new)>(states: seq<Monitor<T>>, steps: seq<Step<T>>, config: Config<T>, threads: nat, t: nat, i: nat, j: nat)
    requires IsRun(states, steps, config, threads) && i < j <= |steps|
    requires steps[i].Put? && steps[i].t == t && steps[i].wait
    requires forall k | i < k < j :: t < |states[k].threads| && !states[k].threads[t].Idle?
    ensures j - 1 > i ==>
      && t < |states[j - 1].threads|
      && (states[j - 1].threads[t] == PutterAsleep(steps[i].el) || states[j - 1].threads[t] == PutterWoken(steps[i].el))
  {
    hide Next, Enabled;
    if j - 1 > i {
      assert Enabled(states[j - 2], steps[j - 2]) && Next(states[j - 2], steps[j - 2]) == states[j - 1];
      if j - 2 > i {
        PutWaits(states, steps, config, threads, t, i, j - 1);
        StaysIn(states[j - 2], steps[j - 2], t);
      }
      if steps[j - 2].Put? && steps[j - 2].t == t {
        EveryRun(states, steps, config, threads, j - 2);
        PutDoes(states[j - 2], t, steps[j - 2].el, steps[j - 2].wait, steps[j - 2].alloc, steps[j - 2].wake);
      }
    }
  }

  /** queue_put_wait returns with its element accepted, unless it met the queue closed or its allocation failed. */
  lemma PutWaitReturns<T(!new)>(states: seq<Monitor<T>>, steps: seq<Step<T>>, config: Config<T>, threads: nat, t: nat, i: nat, j: nat)
    requires IsRun(states, steps, config, threads) && i < j <= |steps|
    requires steps[i].Put? && steps[i].t == t && steps[i].wait
    requires forall k | i < k < j :: t < |states[k].threads| && !states[k].threads[t].Idle?
    requires t < |states[j].threads| && states[j].threads[t].Idle?
    ensures steps[j - 1].Put? && steps[j - 1].t == t && steps[j - 1].el == steps[i].el
    ensures var s, s' := states[j - 1], states[j];
      if s.newData && steps[j - 1].alloc then
        |s.els| < Capacity(config.max) && s'.accepted == s.accepted + [steps[i].el]
      else s'.accepted == s.accepted && multiset(s'.els) == multiset(s.els)
  {
    hide Next, Enabled;
    PutWaits(states, steps, config, threads, t, i, j);
    assert Enabled(states[j - 1], steps[j - 1]) && Next(states[j - 1], steps[j - 1]) == states[j];
    if j - 1 > i {
      StaysIn(states[j - 1], steps[j - 1], t);
    }
    EveryRun(states, steps, config, threads, j - 1);
    PutDoes(states[j - 1], t, steps[j - 1].el, steps[j - 1].wait, steps[j - 1].alloc, steps[j - 1].wake);
  }

  // ----- runs that strand a putter -----

  ghost predicate Reachable<T(!new)>(s: Monitor<T>, config: Config<T>, threads: nat) {
    exists states: seq<Monitor<T>>, steps: seq<Step<T>> :: IsRun(states, steps, config, threads) && states[|steps|] == s
  }

  lemma ReachStep<T(!new)>(s: Monitor<T>, step: Step<T>, config: Config<T>, threads: nat) returns (s': Monitor<T>)
    requires Reachable(s, config, threads) && Enabled(s, step)
    ensures s' == Next(s, step) && Reachable(s', config, threads)
  {
    s' := Next(s, step);
    var states: seq<Monitor<T>>, steps: seq<Step<T>> :| IsRun(states, steps, config, threads) && states[|steps|] == s;
    var states', steps' := states + [s'], steps + [step];
    forall i | 0 <= i < |steps'| ensures Enabled(states'[i], steps'[i]) && Next(states'[i], steps'[i]) == states'[i + 1] {
      assert states'[i] == states[i];
    }
    assert IsRun(states', steps', config, threads) && states'[|steps'|] == s';
  }

  /** A putter sleeps in front of an open queue with a free place, and nothing is on its way. */
  predicate Strands<T>(s: Monitor<T>) {
    AtRest(s) && s.newData && SomeSleeps(s, PutterSleeps) && !Full(s.config.max, |s.els|)
  }

  lemma ReachInit<T(!new)>(config: Config<T>, threads: nat) returns (s: Monitor<T>)
    ensures s == Init(config, threads) && Reachable(s, config, threads)
  {
    s := Init(config, threads);
    var states, steps: seq<Step<T>> := [s], [];
    assert IsRun(states, steps, config, threads) && states[|steps|] == s;
  }

  /** By a flush: room for one, and two putters. */
  lemma FlushStrandsPutter<T(!new)>(config: Config<T>, x: T) returns (s: Monitor<T>)
    requires config.max == 1
    ensures Reachable(s, config, 2) && Strands(s)
  {
    hide Reachable;
    s := ReachInit(config, 2);
    s := ReachStep(s, Put(0, x, true, true, None), config, 2);
    s := ReachStep(s, Put(1, x, true, true, None), config, 2);
    s := ReachStep(s, Flush, config, 2);
    assert PutterSleeps(s.threads[1]);
  }

  lemma TwoPuttersSleep<T(!new)>(config: Config<T>, x: T) returns (s: Monitor<T>)
    requires config.max == 2
    ensures Reachable(s, config, 4) && s.config == config && s.newData && |s.els| == 2
    ensures s.threads == [PutterAsleep(x), PutterAsleep(x), Idle, Idle]
  {
    hide Reachable;
    s := ReachInit(config, 4);
    s := ReachStep(s, Put(0, x, true, true, None), config, 4);
    s := ReachStep(s, Put(0, x, true, true, None), config, 4);
    s := ReachStep(s, Put(0, x, true, true, None), config, 4);
    s := ReachStep(s, Put(1, x, true, true, None), config, 4);
  }

  /** By a failed allocation: of two sleeping putters the woken one gives up. */
  lemma FailedAllocationStrandsPutter<T(!new)>(config: Config<T>, x: T) returns (s: Monitor<T>)
    requires config.max == 2
    ensures Reachable(s, config, 4) && Strands(s)
  {
    hide Reachable;
    s := TwoPuttersSleep(config, x);
    s := ReachStep(s, Get(2, true, Some(0)), config, 4);
    s := ReachStep(s, Put(0, x, true, false, None), config, 4);
    assert PutterSleeps(s.threads[1]);
  }

  /** By closing and reopening: the woken putter meets the closed queue and gives up, and the closing thread
      reads new_data, without the lock, only after it was set again, so that it never broadcasts. */
  lemma ReopenStrandsPutter<T(!new)>(config: Config<T>, x: T) returns (s: Monitor<T>)
    requires config.max == 2
    ensures Reachable(s, config, 4) && Strands(s)
  {
    hide Reachable;
    s := TwoPuttersSleep(config, x);
    s := ReachStep(s, Get(2, true, Some(0)), config, 4);
    s := ReachStep(s, SetNewData(2, false), config, 4);
    s := ReachStep(s, Put(0, x, true, true, None), config, 4);
    s := ReachStep(s, SetNewData(3, true), config, 4);
    s := ReachStep(s, ReadData(2), config, 4);
    s := ReachStep(s, ReadData(3), config, 4);
    assert PutterSleeps(s.threads[1]);
  }
}
