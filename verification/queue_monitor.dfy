/** queue_t shared by threads: every stretch between taking the mutex and giving it up (by unlocking or by
    pthread_cond_wait) is one step. Signals wake one sleeper, wakeups may also be spurious, and any thread
    may take the mutex before a woken one does. */
module QueueMonitor {
  import opened QueueModel
  import opened Sums
  import opened Wrappers

  /** Where a thread stands; the woken ones compete for the mutex again. */
  datatype Thread<T> =
    | Idle
    | GetterAsleep
    | GetterWoken
    | PutterAsleep(el: T)
    | PutterWoken(el: T)
    | SetData                // in queue_set_new_data, after the unlock
    | Closing                // there, having read new_data == 0 without the lock
    | ToldGetters            // there, between its two broadcasts

  datatype Removal<T> = Got(el: T) | Flushed(el: T)

  /** The queue, its threads, and two histories: what was put, and what left in which way. */
  datatype Monitor<!T> = Monitor(
    config: Config<T>, els: seq<T>, newData: bool, threads: seq<Thread<T>>,
    accepted: seq<T>, removed: seq<Removal<T>>)

  datatype Step<T> =
    | Put(t: nat, el: T, wait: bool, alloc: bool, wake: Option<nat>)
    | Get(t: nat, wait: bool, wake: Option<nat>)
    | Flush
    | FlushPut(t: nat, el: T, alloc: bool, wake: Option<nat>)   // both under one lock
    | SetNewData(t: nat, v: bool)
    | ReadData(t: nat)
    | TellGetters(t: nat)
    | TellPutters(t: nat)
    | Spurious(t: nat)

  predicate GetterSleeps<T>(pc: Thread<T>) {
    pc.GetterAsleep?
  }

  predicate PutterSleeps<T>(pc: Thread<T>) {
    pc.PutterAsleep?
  }

  function Wakened<T>(pc: Thread<T>): Thread<T> {
    match pc
    case GetterAsleep => GetterWoken
    case PutterAsleep(el) => PutterWoken(el)
    case _ => pc
  }

  function Wake<T>(threads: seq<Thread<T>>, wake: Option<nat>): seq<Thread<T>> {
    if wake.Some? && wake.value < |threads| then threads[wake.value := Wakened(threads[wake.value])] else threads
  }

  function WakeAll<T>(threads: seq<Thread<T>>, sleeps: Thread<T> -> bool): (r: seq<Thread<T>>)
    ensures |r| == |threads|
    ensures forall i | 0 <= i < |r| :: r[i] == if sleeps(threads[i]) then Wakened(threads[i]) else threads[i]
  {
    seq(|threads|, i requires 0 <= i < |threads| => if sleeps(threads[i]) then Wakened(threads[i]) else threads[i])
  }

  /** What a put or get does when it has the mutex: return an error, go to sleep, or go through. */
  datatype Outcome = Fails | Waits | Succeeds

  function PutOutcome<T>(s: Monitor<T>, wait: bool, alloc: bool): Outcome {
    if !s.newData then Fails
    else if Full(s.config.max, |s.els|) then if wait then Waits else Fails
    else if alloc then Succeeds else Fails
  }

  function GetOutcome<T>(s: Monitor<T>, wait: bool): Outcome {
    if s.els != [] then Succeeds
    else if wait && s.newData then Waits else Fails
  }

  ghost predicate Enabled<T>(s: Monitor<T>, step: Step<T>) {
    match step
    case Put(t, el, wait, alloc, wake) =>
      && t < |s.threads| && (s.threads[t].Idle? || (s.threads[t] == PutterWoken(el) && wait))
      && if PutOutcome(s, wait, alloc).Succeeds? then Signals(s.threads, GetterSleeps, wake) else wake.None?
    case Get(t, wait, wake) =>
      && t < |s.threads| && (s.threads[t].Idle? || (s.threads[t].GetterWoken? && wait))
      && if GetOutcome(s, wait).Succeeds? then Signals(s.threads, PutterSleeps, wake) else wake.None?
    case Flush => true
    case FlushPut(t, el, alloc, wake) =>
      && t < |s.threads| && s.threads[t].Idle?
      && if s.newData && alloc then Signals(s.threads, GetterSleeps, wake) else wake.None?
    case SetNewData(t, _) => t < |s.threads| && s.threads[t].Idle?
    case ReadData(t) => t < |s.threads| && s.threads[t].SetData?
    case TellGetters(t) => t < |s.threads| && s.threads[t].Closing?
    case TellPutters(t) => t < |s.threads| && s.threads[t].ToldGetters?
    case Spurious(t) => t < |s.threads| && (s.threads[t].GetterAsleep? || s.threads[t].PutterAsleep?)
  }

  function Flushing<T>(els: seq<T>): (r: seq<Removal<T>>)
    ensures |r| == |els|
  {
    seq(|els|, i requires 0 <= i < |els| => Flushed(els[i]))
  }

  function Next<T>(s: Monitor<T>, step: Step<T>): Monitor<T>
    requires Enabled(s, step)
  {
    match step
    case Put(t, el, wait, alloc, wake) =>
      (match PutOutcome(s, wait, alloc)
       case Fails => s.(threads := s.threads[t := Idle])
       case Waits => s.(threads := s.threads[t := PutterAsleep(el)])
       case Succeeds =>
         s.(els := Inserted(s.config, s.els, el), accepted := s.accepted + [el],
            threads := Wake(s.threads, wake)[t := Idle]))
    case Get(t, wait, wake) =>
      (match GetOutcome(s, wait)
       case Fails => s.(threads := s.threads[t := Idle])
       case Waits => s.(threads := s.threads[t := GetterAsleep])
       case Succeeds =>
         s.(els := s.els[1..], removed := s.removed + [Got(s.els[0])], threads := Wake(s.threads, wake)[t := Idle]))
    case Flush => s.(els := [], removed := s.removed + Flushing(s.els))
    case FlushPut(t, el, alloc, wake) =>
      var u := s.(els := [], removed := s.removed + Flushing(s.els));
      if s.newData && alloc then
        u.(els := Inserted(s.config, [], el), accepted := s.accepted + [el], threads := Wake(s.threads, wake)[t := Idle])
      else u.(threads := s.threads[t := Idle])
    case SetNewData(t, v) => s.(newData := v, threads := s.threads[t := SetData])
    case ReadData(t) => s.(threads := s.threads[t := if s.newData then Idle else Closing])
    case TellGetters(t) => s.(threads := WakeAll(s.threads, GetterSleeps)[t := ToldGetters])
    case TellPutters(t) => s.(threads := WakeAll(s.threads, PutterSleeps)[t := Idle])
    case Spurious(t) => s.(threads := s.threads[t := Wakened(s.threads[t])])
  }

  function Init<T>(config: Config<T>, threads: nat): Monitor<T> {
    Monitor(config, [], true, seq(threads, _ => Idle), [], [])
  }

  // ----- invariants -----

  function AsleepGet<T>(pc: Thread<T>): nat {
    if pc.GetterAsleep? then 1 else 0
  }

  function WokenGet<T>(pc: Thread<T>): nat {
    if pc.GetterWoken? then 1 else 0
  }

  function AsleepPut<T>(pc: Thread<T>): nat {
    if pc.PutterAsleep? then 1 else 0
  }

  function WokenPut<T>(pc: Thread<T>): nat {
    if pc.PutterWoken? then 1 else 0
  }

  function Telling<T>(pc: Thread<T>): nat {
    if pc.SetData? || pc.Closing? then 1 else 0
  }

  function HalfTold<T>(pc: Thread<T>): nat {
    if pc.ToldGetters? then 1 else 0
  }

  /** If a getter sleeps, every queued element has a woken getter on its way to it. */
  predicate GetInv<T>(s: Monitor<T>) {
    Sum(s.threads, AsleepGet<T>) > 0 ==> Sum(s.threads, WokenGet<T>) >= |s.els|
  }

  /** If a putter sleeps, every free place has a woken putter on its way to it. */
  predicate PutInv<T>(s: Monitor<T>) {
    Sum(s.threads, AsleepPut<T>) > 0 ==> Sum(s.threads, WokenPut<T>) + |s.els| >= Capacity(s.config.max)
  }

  /** Nobody sleeps on a closed queue, except until the closing thread has broadcast. */
  predicate CloseInv<T>(s: Monitor<T>) {
    !s.newData ==>
      && (Sum(s.threads, AsleepGet<T>) > 0 ==> Sum(s.threads, Telling<T>) > 0)
      && (Sum(s.threads, AsleepPut<T>) > 0 ==> Sum(s.threads, Telling<T>) + Sum(s.threads, HalfTold<T>) > 0)
  }

  function Values<T>(removed: seq<Removal<T>>): (r: seq<T>)
    ensures |r| == |removed|
  {
    seq(|removed|, i requires 0 <= i < |removed| => removed[i].el)
  }

  lemma ValuesGrow<T>(removed: seq<Removal<T>>, gone: seq<Removal<T>>)
    ensures Values(removed + gone) == Values(removed) + Values(gone)
  {
  }

  /** Everything put has left or is queued, once; in order if unsorted, and sorted otherwise. */
  ghost predicate DataInv<T(!new)>(s: Monitor<T>) {
    && |s.els| <= Capacity(s.config.max)
    && multiset(s.accepted) == multiset(Values(s.removed)) + multiset(s.els)
    && (!s.config.sort ==> s.accepted == Values(s.removed) + s.els)
    && (s.config.sort && TotalPreorder(s.config.cmp) ==> Sorted(s.config, s.els))
  }

  // ----- what each call does when it has the mutex -----

  /** A get takes the first element if there is one. On an empty queue it goes to sleep exactly if it may
      wait and the queue is open, and comes back empty-handed otherwise. */
  lemma GetDoes<T>(s: Monitor<T>, t: nat, wait: bool, wake: Option<nat>)
    requires Enabled(s, Get(t, wait, wake))
    ensures var s' := Next(s, Get(t, wait, wake));
      && t < |s'.threads| && s'.newData == s.newData && s'.accepted == s.accepted
      && (s.els != [] ==> s'.threads[t].Idle? && s'.els == s.els[1..] && s'.removed == s.removed + [Got(s.els[0])])
      && (s.els == [] ==> s'.els == [] && s'.removed == s.removed)
      && (s.els == [] ==> s'.threads[t] == if wait && s.newData then GetterAsleep else Idle)
  {
  }

  /** A put is accepted exactly if the queue is open and not full and memory is there. It goes to sleep
      exactly if the queue is open and full and it may wait, and fails otherwise. */
  lemma PutDoes<T>(s: Monitor<T>, t: nat, el: T, wait: bool, alloc: bool, wake: Option<nat>)
    requires Enabled(s, Put(t, el, wait, alloc, wake)) && |s.els| <= Capacity(s.config.max)
    ensures var s', full := Next(s, Put(t, el, wait, alloc, wake)), |s.els| == Capacity(s.config.max);
      && t < |s'.threads| && s'.newData == s.newData && s'.removed == s.removed
      && s'.threads[t] == (if s.newData && full && wait then PutterAsleep(el) else Idle)
      && s'.accepted == (if s.newData && !full && alloc then s.accepted + [el] else s.accepted)
      && multiset(s'.els) == multiset(s.els) + (if s.newData && !full && alloc then multiset{el} else multiset{})
  {
    FullIff(s.config.max, |s.els|);
    InsertedBag(s.config, s.els, el);
  }

  /** A flush empties the queue, and a put under the same lock then finds room. */
  lemma FlushDoes<T>(s: Monitor<T>, t: nat, el: T, alloc: bool, wake: Option<nat>)
    requires Enabled(s, FlushPut(t, el, alloc, wake))
    ensures var u, v := Next(s, Flush), Next(s, FlushPut(t, el, alloc, wake));
      && u.els == [] && Values(u.removed) == Values(s.removed) + s.els
      && u.accepted == s.accepted && u.threads == s.threads
      && v.removed == u.removed && t < |v.threads| && v.threads[t].Idle?
      && v.els == (if s.newData && alloc then [el] else [])
      && v.accepted == s.accepted + v.els
  {
    ValuesGrow(s.removed, Flushing(s.els));
  }

  // ----- how a step changes the counts -----

  datatype Tally = Tally(asleepGet: nat, wokenGet: nat, asleepPut: nat, wokenPut: nat, telling: nat, halfTold: nat)

  function Count<T>(threads: seq<Thread<T>>): Tally {
    Tally(Sum(threads, AsleepGet<T>), Sum(threads, WokenGet<T>), Sum(threads, AsleepPut<T>),
          Sum(threads, WokenPut<T>), Sum(threads, Telling<T>), Sum(threads, HalfTold<T>))
  }

  /** Thread i moves from one place to another. */
  predicate Shifted<T>(a: Tally, b: Tally, from: Thread<T>, to: Thread<T>) {
    && b.asleepGet == a.asleepGet - AsleepGet(from) + AsleepGet(to)
    && b.wokenGet == a.wokenGet - WokenGet(from) + WokenGet(to)
    && b.asleepPut == a.asleepPut - AsleepPut(from) + AsleepPut(to)
    && b.wokenPut == a.wokenPut - WokenPut(from) + WokenPut(to)
    && b.telling == a.telling - Telling(from) + Telling(to)
    && b.halfTold == a.halfTold - HalfTold(from) + HalfTold(to)
  }

  lemma Moves<T>(threads: seq<Thread<T>>, i: nat, to: Thread<T>)
    requires i < |threads|
    ensures Shifted(Count(threads), Count(threads[i := to]), threads[i], to)
  {
    SumUpdate(threads, AsleepGet<T>, i, to);
    SumUpdate(threads, WokenGet<T>, i, to);
    SumUpdate(threads, AsleepPut<T>, i, to);
    SumUpdate(threads, WokenPut<T>, i, to);
    SumUpdate(threads, Telling<T>, i, to);
    SumUpdate(threads, HalfTold<T>, i, to);
  }

  /** The counts after a signal to the getters. */
  lemma SignalGetters<T>(threads: seq<Thread<T>>, wake: Option<nat>)
    requires Signals(threads, GetterSleeps, wake)
    ensures var a, b := Count(threads), Count(Wake(threads, wake));
      b == if a.asleepGet > 0 then a.(asleepGet := a.asleepGet - 1, wokenGet := a.wokenGet + 1) else a
  {
    SumZero(threads, AsleepGet<T>);
    if wake.Some? {
      Moves(threads, wake.value, GetterWoken);
    }
  }

  /** The counts after a signal to the putters. */
  lemma SignalPutters<T>(threads: seq<Thread<T>>, wake: Option<nat>)
    requires Signals(threads, PutterSleeps, wake)
    ensures var a, b := Count(threads), Count(Wake(threads, wake));
      b == if a.asleepPut > 0 then a.(asleepPut := a.asleepPut - 1, wokenPut := a.wokenPut + 1) else a
  {
    SumZero(threads, AsleepPut<T>);
    if wake.Some? {
      Moves(threads, wake.value, Wakened(threads[wake.value]));
    }
  }

  lemma {:induction false} BroadcastGetters<T>(threads: seq<Thread<T>>)
    ensures var a, b := Count(threads), Count(WakeAll(threads, GetterSleeps));
      b == a.(asleepGet := 0, wokenGet := a.wokenGet + a.asleepGet)
  {
    if threads != [] {
      BroadcastGetters(threads[1..]);
      assert WakeAll(threads, GetterSleeps)[1..] == WakeAll(threads[1..], GetterSleeps);
    }
  }

  lemma {:induction false} BroadcastPutters<T>(threads: seq<Thread<T>>)
    ensures var a, b := Count(threads), Count(WakeAll(threads, PutterSleeps));
      b == a.(asleepPut := 0, wokenPut := a.wokenPut + a.asleepPut)
  {
    if threads != [] {
      BroadcastPutters(threads[1..]);
      assert WakeAll(threads, PutterSleeps)[1..] == WakeAll(threads[1..], PutterSleeps);
    }
  }

  /** The thread that makes a step. */
  function Actor<T>(step: Step<T>): Option<nat> {
    match step
    case Put(t, _, _, _, _) => Some(t)
    case Get(t, _, _) => Some(t)
    case Flush => None
    case FlushPut(t, _, _, _) => Some(t)
    case SetNewData(t, _) => Some(t)
    case ReadData(t) => Some(t)
    case TellGetters(t) => Some(t)
    case TellPutters(t) => Some(t)
    case Spurious(t) => Some(t)
  }

  /** The counts after everything a step does to other threads. */
  function Aroused<T>(s: Monitor<T>, step: Step<T>): Tally
    requires Enabled(s, step)
  {
    var a := Count(s.threads);
    match step
    case Put(_, _, wait, alloc, _) =>
      if PutOutcome(s, wait, alloc).Succeeds? && a.asleepGet > 0
      then a.(asleepGet := a.asleepGet - 1, wokenGet := a.wokenGet + 1) else a
    case Get(_, wait, _) =>
      if GetOutcome(s, wait).Succeeds? && a.asleepPut > 0
      then a.(asleepPut := a.asleepPut - 1, wokenPut := a.wokenPut + 1) else a
    case FlushPut(_, _, alloc, _) =>
      if s.newData && alloc && a.asleepGet > 0 then a.(asleepGet := a.asleepGet - 1, wokenGet := a.wokenGet + 1) else a
    case TellGetters(_) => a.(asleepGet := 0, wokenGet := a.wokenGet + a.asleepGet)
    case TellPutters(_) => a.(asleepPut := 0, wokenPut := a.wokenPut + a.asleepPut)
    case _ => a
  }

  /** Its counts are those, with the actor moved. */
  lemma StepCounts<T>(s: Monitor<T>, step: Step<T>)
    requires Enabled(s, step)
    ensures var s' := Next(s, step);
      if Actor(step).None? then s'.threads == s.threads
      else
        var t := Actor(step).value;
        t < |s.threads| && t < |s'.threads| && Shifted(Aroused(s, step), Count(s'.threads), s.threads[t], s'.threads[t])
  {
    if Actor(step).Some? {
      var t := Actor(step).value;
      var others := Others(s, step);
      Moves(others, t, Next(s, step).threads[t]);
    }
  }

  lemma Others<T>(s: Monitor<T>, step: Step<T>) returns (others: seq<Thread<T>>)
    requires Enabled(s, step) && Actor(step).Some?
    ensures var t := Actor(step).value;
      && |others| == |s.threads| && t < |others| && others[t] == s.threads[t]
      && |Next(s, step).threads| == |others| && Next(s, step).threads == others[t := Next(s, step).threads[t]]
    ensures Count(others) == Aroused(s, step)
  {
    hide Count, Sum;
    others := s.threads;
    match step
    case Put(t, el, wait, alloc, wake) =>
      if PutOutcome(s, wait, alloc).Succeeds? {
        SignalGetters(s.threads, wake);
        others := Wake(s.threads, wake);
        assert others[t] == s.threads[t];
      }
    case Get(t, wait, wake) =>
      if GetOutcome(s, wait).Succeeds? {
        SignalPutters(s.threads, wake);
        others := Wake(s.threads, wake);
        assert others[t] == s.threads[t];
      }
    case FlushPut(t, el, alloc, wake) =>
      if s.newData && alloc {
        SignalGetters(s.threads, wake);
        others := Wake(s.threads, wake);
        assert others[t] == s.threads[t];
      }
    case TellGetters(t) =>
      BroadcastGetters(s.threads);
      others := WakeAll(s.threads, GetterSleeps);
      assert others[t] == s.threads[t];
    case TellPutters(t) =>
      BroadcastPutters(s.threads);
      others := WakeAll(s.threads, PutterSleeps);
      assert others[t] == s.threads[t];
    case _ =>
  }

  // ----- every step keeps the invariants -----

  lemma GetKeeps<T>(s: Monitor<T>, step: Step<T>)
    requires GetInv(s) && Enabled(s, step)
    ensures GetInv(Next(s, step))
  {
    StepCounts(s, step);
  }

  /** What must hold before a step for the putters not to lose a wakeup by it. A flush signals nobody, and
      a putter that was woken and then fails, for lack of memory or because the queue was closed meanwhile,
      does not pass its signal on. All other steps are safe. */
  predicate Guarded<T>(s: Monitor<T>, step: Step<T>) {
    match step
    case Flush => Sum(s.threads, AsleepPut<T>) == 0 || Sum(s.threads, WokenPut<T>) >= Capacity(s.config.max)
    case FlushPut(_, _, alloc, _) =>
      || Sum(s.threads, AsleepPut<T>) == 0
      || Sum(s.threads, WokenPut<T>) + (if s.newData && alloc then 1 else 0) >= Capacity(s.config.max)
    case Put(t, _, wait, alloc, _) =>
      (t < |s.threads| && s.threads[t].PutterWoken? && PutOutcome(s, wait, alloc).Fails?) ==>
        Sum(s.threads, AsleepPut<T>) == 0 || Sum(s.threads, WokenPut<T>) + |s.els| > Capacity(s.config.max)
    case _ => true
  }

  /** Each step of any kind keeps the putters' guarantee exactly if it is guarded. */
  lemma PutKeepsIff<T>(s: Monitor<T>, step: Step<T>)
    requires PutInv(s) && |s.els| <= Capacity(s.config.max) && Enabled(s, step)
    ensures PutInv(Next(s, step)) <==> Guarded(s, step)
  {
    StepCounts(s, step);
    FullIff(s.config.max, |s.els|);
  }

  lemma CloseKeeps<T>(s: Monitor<T>, step: Step<T>)
    requires CloseInv(s) && Enabled(s, step)
    ensures CloseInv(Next(s, step))
  {
    StepCounts(s, step);
  }

  lemma PutData<T(!new)>(s: Monitor<T>, el: T, s': Monitor<T>)
    requires DataInv(s) && |s.els| < Capacity(s.config.max)
    requires s'.config == s.config && s'.els == Inserted(s.config, s.els, el)
    requires s'.accepted == s.accepted + [el] && s'.removed == s.removed
    ensures DataInv(s')
  {
    InsertedBag(s.config, s.els, el);
    if s.config.sort && TotalPreorder(s.config.cmp) {
      InsertedSorted(s.config, s.els, el);
    }
  }

  lemma TakeData<T(!new)>(s: Monitor<T>, n: nat, gone: seq<Removal<T>>, s': Monitor<T>)
    requires DataInv(s) && n <= |s.els| && Values(gone) == s.els[..n]
    requires s'.config == s.config && s'.els == s.els[n..]
    requires s'.accepted == s.accepted && s'.removed == s.removed + gone
    ensures DataInv(s')
  {
    hide Sorted, TotalPreorder;
    ValuesGrow(s.removed, gone);
    SplitBag(s.els, n);
    SortedTail(s.config, s.els, n);
  }

  lemma SplitBag<T>(els: seq<T>, n: nat)
    requires n <= |els|
    ensures els == els[..n] + els[n..]
    ensures multiset(els) == multiset(els[..n]) + multiset(els[n..])
  {
    assert els == els[..n] + els[n..];
  }

  lemma SortedTail<T>(c: Config<T>, els: seq<T>, n: nat)
    requires n <= |els|
    ensures Sorted(c, els) ==> Sorted(c, els[n..])
  {
  }

  lemma SameData<T(!new)>(s: Monitor<T>, s': Monitor<T>)
    requires DataInv(s) && s'.config == s.config && s'.els == s.els && s'.accepted == s.accepted && s'.removed == s.removed
    ensures DataInv(s')
  {
  }

  lemma WithinCapacity<T(!new)>(s: Monitor<T>)
    requires DataInv(s)
    ensures |s.els| <= Capacity(s.config.max) && 0 < Capacity(s.config.max)
  {
  }

  lemma TakesAll<T>(els: seq<T>)
    ensures Values(Flushing(els)) == els[..|els|] && els[|els|..] == []
  {
  }

  lemma DataKeeps<T(!new)>(s: Monitor<T>, step: Step<T>)
    requires DataInv(s) && Enabled(s, step)
    ensures DataInv(Next(s, step))
  {
    hide DataInv, Inserted, Values, Flushing, Wake, WakeAll;
    var s' := Next(s, step);
    WithinCapacity(s);
    TakesAll(s.els);
    match step
    case Put(_, el, wait, alloc, _) =>
      if PutOutcome(s, wait, alloc).Succeeds? {
        FullIff(s.config.max, |s.els|);
        PutData(s, el, s');
      } else {
        SameData(s, s');
      }
    case Get(_, wait, _) =>
      if GetOutcome(s, wait).Succeeds? {
        TakeOne(s.els);
        TakeData(s, 1, [Got(s.els[0])], s');
      } else {
        SameData(s, s');
      }
    case Flush =>
      TakeData(s, |s.els|, Flushing(s.els), s');
    case FlushPut(t, el, alloc, wake) =>
      var u := s.(els := [], removed := s.removed + Flushing(s.els));
      TakeData(s, |s.els|, Flushing(s.els), u);
      if s.newData && alloc {
        PutData(u, el, s');
      } else {
        SameData(u, s');
      }
    case _ =>
      SameData(s, s');
  }

  lemma TakeOne<T>(els: seq<T>)
    requires els != []
    ensures Values([Got(els[0])]) == els[..1]
  {
  }
}
