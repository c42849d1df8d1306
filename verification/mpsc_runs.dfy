/** Whole runs of the multi-producer ring: its asserts, its FIFO order, and how long the head counter's
    wraparound leaves both intact. */
module MpscRuns {
  import opened Wrappers
  import opened Powers
  import opened MpscRing

  /** An interleaving: any finite sequence of enabled steps of any of the threads. */
  ghost predicate IsRun<T>(states: seq<Ring<T>>, steps: seq<Step<T>>) {
    && |states| == |steps| + 1
    && forall i | 0 <= i < |steps| :: Enabled(states[i], steps[i]) && Next(states[i], steps[i]) == states[i + 1]
  }

  ghost predicate Reachable<T(!new)>(max: nat, procs: set<nat>, s: Ring<T>) {
    exists states: seq<Ring<T>>, steps: seq<Step<T>> ::
      IsRun(states, steps) && states[0] == Init(max, procs) && states[|steps|] == s
  }

  lemma {:induction false} IssuedGrows<T>(states: seq<Ring<T>>, steps: seq<Step<T>>, i: nat)
    requires IsRun(states, steps) && i <= |steps|
    ensures |states[i].issued| <= |states[|steps|].issued|
    ensures |states[i].buffer| == |states[0].buffer| && states[i].producers.Keys == states[0].producers.Keys
    decreases |steps| - i
  {
    if i < |steps| {
      IssuedGrows(states, steps, i + 1);
    }
    RunKeepsShape(states, steps, i);
  }

  lemma {:induction false} RunKeepsShape<T>(states: seq<Ring<T>>, steps: seq<Step<T>>, i: nat)
    requires IsRun(states, steps) && i <= |steps|
    ensures |states[i].buffer| == |states[0].buffer| && states[i].producers.Keys == states[0].producers.Keys
  {
    if i > 0 {
      RunKeepsShape(states, steps, i - 1);
    }
  }

  /** A run from mpscq_create on with few enough threads, in which the wrapped head stays faithful. */
  ghost predicate IsRingRun<T>(states: seq<Ring<T>>, steps: seq<Step<T>>, max: nat, procs: set<nat>) {
    && IsRun(states, steps) && states[0] == Init(max, procs)
    && 0 < max && max + |procs| < WORD && HeadFaithful(max, |states[|steps|].issued|)
  }

  /** In every interleaving of any number of producers and the consumer, as long as the head counter is
      faithful, every state satisfies the invariant and no assert of the code ever fails. */
  lemma {:induction false} AssertsNeverFail<T>(states: seq<Ring<T>>, steps: seq<Step<T>>, max: nat, procs: set<nat>, i: nat)
    requires IsRingRun(states, steps, max, procs) && i <= |steps|
    ensures Inv(states[i]) && ThreadsFit(states[i]) && HeadFaithful(|states[i].buffer|, |states[i].issued|)
    ensures i < |steps| ==> AssertHolds(states[i], steps[i])
  {
    IssuedGrows(states, steps, i);
    assert states[0].producers.Keys == procs;
    assert |states[i].producers| == |states[i].producers.Keys|;
    if i == 0 {
      InitInv<T>(max, procs);
    } else {
      AssertsNeverFail(states, steps, max, procs, i - 1);
      StepKeepsInv(states[i - 1], steps[i - 1]);
    }
    if i < |steps| {
      StepKeepsInv(states[i], steps[i]);
    }
  }

  /** FIFO over every run: what was dequeued is a prefix of the objects in ticket order, and each producer's
      share of the tickets is what it was admitted with, in its own call order, except for a ticket not yet
      taken. */
  lemma FifoByTicket<T>(states: seq<Ring<T>>, steps: seq<Step<T>>, max: nat, procs: set<nat>, i: nat, p: nat)
    requires IsRingRun(states, steps, max, procs) && i <= |steps| && p in procs
    ensures var s := states[i];
      && s.taken <= Objects(s.issued) && p in s.producers && p in s.admitted
      && Of(s.issued, p) <= s.admitted[p]
      && (!s.producers[p].Admitted? ==> Of(s.issued, p) == s.admitted[p])
  {
    AssertsNeverFail(states, steps, max, procs, i);
    RunKeepsShape(states, steps, i);
    assert states[0].producers.Keys == procs;
  }

  /** A dequeue comes back empty exactly when the tail ticket has not been given out or not been stored. */
  lemma EmptyPollIff<T>(states: seq<Ring<T>>, steps: seq<Step<T>>, max: nat, procs: set<nat>, i: nat)
    requires IsRingRun(states, steps, max, procs) && i < |steps| && steps[i].Poll?
    ensures var s, s' := states[i], states[i + 1];
      && |s.taken| <= |s.issued|
      && (s'.taken == s.taken <==> |s.taken| == |s.issued| || Unstored(s, |s.taken|))
      && (s'.taken != s.taken ==> |s.taken| < |s.issued| && s'.taken == s.taken + [s.issued[|s.taken|].1])
  {
    AssertsNeverFail(states, steps, max, procs, i);
    PollSees(states[i]);
  }

  /** enqueue refuses only when objects in flight and producers still backing off add up to the capacity. */
  lemma RefusalMeansFull<T>(states: seq<Ring<T>>, steps: seq<Step<T>>, max: nat, procs: set<nat>, i: nat)
    requires IsRingRun(states, steps, max, procs) && i < |steps| && steps[i].Admit?
    ensures var s, p := states[i], steps[i].p;
      && 0 <= InFlight(s) <= max && p in states[i + 1].producers
      && (states[i + 1].producers[p].Refused? <==> InFlight(s) + |RefusedSet(s)| >= max)
  {
    AssertsNeverFail(states, steps, max, procs, i);
    RunKeepsShape(states, steps, i);
    assert Enabled(states[i], steps[i]) && Next(states[i], steps[i]) == states[i + 1];
  }

  // ----- nothing is lost -----

  predicate Quiet<T>(s: Ring<T>) {
    s.consumer.Ready? && forall p | p in s.producers :: s.producers[p].Idle?
  }

  /** One call of mpscq_dequeue with no producer running. */
  function Served<T>(s: Ring<T>): Ring<T>
    requires s.consumer.Ready? && s.tail < |s.buffer|
  {
    var t := Next(s, Poll);
    if t.consumer.Holding? then Next(t, Release) else t
  }

  /** n such calls. */
  function Drain<T>(s: Ring<T>, n: nat): Ring<T>
    requires s.consumer.Ready? && s.tail < |s.buffer|
    decreases n
  {
    if n == 0 then s
    else
      var u := Served(s);
      if u.tail < |u.buffer| then Drain(u, n - 1) else u
  }

  lemma DequeueOne<T>(s: Ring<T>) returns (u: Ring<T>)
    requires Inv(s) && ThreadsFit(s) && HeadFaithful(|s.buffer|, |s.issued|) && Quiet(s)
    requires |s.taken| < |s.issued|
    ensures s.tail < |s.buffer| && u == Served(s)
    ensures Inv(u) && Quiet(u) && u.tail < |u.buffer| == |s.buffer|
    ensures u.issued == s.issued && |u.taken| == |s.taken| + 1 && u.producers == s.producers
  {
    PollSees(s);
    StepKeepsInv(s, Poll);
    var t := Next(s, Poll);
    StepKeepsInv(t, Release);
    u := Next(t, Release);
  }

  lemma Deliverable<T>(s: Ring<T>)
    requires Inv(s) && Quiet(s)
    ensures s.consumer.Ready? && s.tail < |s.buffer| && |s.taken| <= |s.issued|
    ensures |s.taken| == |s.issued| ==> s.taken == Objects(s.issued)
  {
  }

  lemma ThreadsStillFit<T>(s: Ring<T>, u: Ring<T>)
    requires ThreadsFit(s) && u.producers == s.producers && |u.buffer| == |s.buffer|
    ensures ThreadsFit(u)
  {
  }

  /** Once every enqueue call has returned, dequeuing delivers every remaining object, in ticket order. */
  lemma {:induction false} DrainDelivers<T>(s: Ring<T>) returns (end: Ring<T>)
    requires Inv(s) && ThreadsFit(s) && HeadFaithful(|s.buffer|, |s.issued|) && Quiet(s)
    ensures s.tail < |s.buffer| && end == Drain(s, |s.issued| - |s.taken|)
    ensures end.taken == Objects(s.issued)
    decreases |s.issued| - |s.taken|
  {
    hide Inv, ThreadsFit, HeadFaithful, Quiet, Served, Objects;
    Deliverable(s);
    if |s.taken| < |s.issued| {
      var u := DequeueOne(s);
      ThreadsStillFit(s, u);
      end := DrainDelivers(u);
    } else {
      end := s;
    }
  }

  // ----- head wraparound -----

  lemma ReachStep<T(!new)>(max: nat, procs: set<nat>, s: Ring<T>, step: Step<T>)
    requires Reachable(max, procs, s) && Enabled(s, step)
    ensures Reachable(max, procs, Next(s, step))
  {
    var states: seq<Ring<T>>, steps: seq<Step<T>> :|
      IsRun(states, steps) && states[0] == Init(max, procs) && states[|steps|] == s;
    RunExtends(states, steps, step);
    var states', steps' := states + [Next(s, step)], steps + [step];
    assert states'[0] == Init(max, procs) && states'[|steps'|] == Next(s, step);
  }

  lemma RunExtends<T>(states: seq<Ring<T>>, steps: seq<Step<T>>, step: Step<T>)
    requires IsRun(states, steps) && Enabled(states[|steps|], step)
    ensures IsRun(states + [Next(states[|steps|], step)], steps + [step])
  {
    var states', steps' := states + [Next(states[|steps|], step)], steps + [step];
    forall i | 0 <= i < |steps'| ensures Enabled(states'[i], steps'[i]) && Next(states'[i], steps'[i]) == states'[i + 1] {
      assert states'[i] == states[i];
    }
  }

  function Repeat<A>(x: A, n: nat): (r: seq<A>)
    ensures |r| == n
  {
    seq(n, _ => x)
  }

  /** The state after k enqueues of x by producer 0, each followed by its dequeue. */
  function Cycled<T>(max: nat, x: T, k: nat): Ring<T>
    requires max > 0
  {
    Ring(0, k % WORD, k % max, Repeat(None, max), map[0 := Idle], Ready, Repeat((0, x), k), Repeat(x, k), map[0 := Repeat(x, k)])
  }

  lemma RepeatGrows<A>(x: A, n: nat)
    ensures Repeat(x, n) + [x] == Repeat(x, n + 1)
  {
  }

  /** Producer 0's enqueue of x up to its store, in a ring with nothing in flight. */
  function Enqueued<T>(max: nat, x: T, k: nat, slot: nat): Ring<T>
    requires max > 0 && slot < max
  {
    Cycled(max, x, k).(count := 1, head := (k + 1) % WORD, buffer := Repeat(None, max)[slot := Some(x)],
                       issued := Repeat((0, x), k + 1), admitted := map[0 := Repeat(x, k + 1)])
  }

  lemma EnqueueComputes<T>(max: nat, x: T, k: nat) returns (s1: Ring<T>, s2: Ring<T>, s3: Ring<T>)
    requires max > 0
    ensures var s0 := Cycled(max, x, k);
      && Enabled(s0, Admit(0, x)) && s1 == Next(s0, Admit(0, x))
      && Enabled(s1, TakeTicket(0)) && s2 == Next(s1, TakeTicket(0))
      && Enabled(s2, CheckSlot(0)) && s3 == Next(s2, CheckSlot(0))
      && Enabled(s3, Store(0)) && Next(s3, Store(0)) == Enqueued(max, x, k, (k % WORD) % max)
  {
    var s0 := Cycled(max, x, k);
    RepeatGrows((0, x), k);
    RepeatGrows(x, k);
    NextSlot(WORD, k);
    s1 := s0.(count := 1, producers := map[0 := Admitted(x)], admitted := map[0 := Repeat(x, k + 1)]);
    assert s1 == Next(s0, Admit(0, x));
    s2 := s1.(head := (k + 1) % WORD, producers := map[0 := Ticketed(x, k % WORD, k)], issued := Repeat((0, x), k + 1));
    assert s2 == Next(s1, TakeTicket(0));
    s3 := s2.(producers := map[0 := Checked(x, k % WORD, k)]);
  }

  lemma EnqueueReaches<T(!new)>(max: nat, x: T, k: nat)
    requires max > 0 && Reachable(max, {0}, Cycled(max, x, k))
    ensures Reachable(max, {0}, Enqueued(max, x, k, (k % WORD) % max))
  {
    hide Reachable, Cycled, Enqueued, Next, Enabled;
    var s1, s2, s3 := EnqueueComputes(max, x, k);
    ReachStep(max, {0}, Cycled(max, x, k), Admit(0, x));
    ReachStep(max, {0}, s1, TakeTicket(0));
    ReachStep(max, {0}, s2, CheckSlot(0));
    ReachStep(max, {0}, s3, Store(0));
  }

  lemma DequeueComputes<T>(max: nat, x: T, k: nat) returns (t: Ring<T>)
    requires max > 0 && k < WORD
    ensures var s := Enqueued(max, x, k, k % max);
      && Enabled(s, Poll) && t == Next(s, Poll)
      && Enabled(t, Release) && Next(t, Release) == Cycled(max, x, k + 1)
  {
    var s := Enqueued(max, x, k, k % max);
    RepeatGrows(x, k);
    NextSlot(max, k);
    assert s.buffer[k % max := None] == Repeat(None, max);
    t := s.(buffer := Repeat(None, max), tail := (k + 1) % max, consumer := Holding, taken := Repeat(x, k + 1));
    assert t == Next(s, Poll);
    assert Minus1(1) == 0;
  }

  lemma InitReaches<T(!new)>(max: nat, procs: set<nat>)
    ensures Reachable(max, procs, Init<T>(max, procs))
  {
    var states: seq<Ring<T>>, steps: seq<Step<T>> := [Init(max, procs)], [];
    assert IsRun(states, steps) && states[0] == Init(max, procs) && states[|steps|] == Init(max, procs);
  }

  lemma CycleOnce<T(!new)>(max: nat, x: T, k: nat)
    requires max > 0 && k < WORD && Reachable(max, {0}, Cycled(max, x, k))
    ensures Reachable(max, {0}, Cycled(max, x, k + 1))
  {
    hide Reachable, Cycled, Next, Enabled;
    ModUnique(WORD, 0, k);
    var s := Enqueued(max, x, k, k % max);
    EnqueueReaches(max, x, k);
    var t := DequeueComputes(max, x, k);
    ReachStep(max, {0}, s, Poll);
    ReachStep(max, {0}, t, Release);
  }

  lemma {:induction false} CycleReaches<T(!new)>(max: nat, x: T, k: nat)
    requires max > 0 && k <= WORD
    ensures Reachable(max, {0}, Cycled(max, x, k))
  {
    if k == 0 {
      InitReaches<T>(max, {0});
      assert Init<T>(max, {0}) == Cycled(max, x, 0);
    } else {
      CycleReaches(max, x, k - 1);
      CycleOnce(max, x, k - 1);
    }
  }

  /** What the consumer's next dequeue finds is the oldest outstanding ticket's object. */
  predicate PollFaithful<T(==)>(s: Ring<T>) {
    && s.tail < |s.buffer|
    && s.buffer[s.tail] ==
      if |s.taken| >= |s.issued| || Unstored(s, |s.taken|) then None else Some(s.issued[|s.taken|].1)
  }

  lemma ReachableIsFaithful<T(!new)>(max: nat, procs: set<nat>, s: Ring<T>)
    requires 0 < max && max + |procs| < WORD && WORD % max == 0 && Reachable(max, procs, s)
    ensures PollFaithful(s)
  {
    var states: seq<Ring<T>>, steps: seq<Step<T>> :|
      IsRun(states, steps) && states[0] == Init(max, procs) && states[|steps|] == s;
    AssertsNeverFail(states, steps, max, procs, |steps|);
    PollSees(s);
  }

  /** After 2^64 objects the stored slot and the polled slot differ. */
  lemma WrappedHeadMisses<T(!new)>(max: nat, x: T)
    requires 0 < max && WORD % max != 0
    ensures var s := Enqueued(max, x, WORD, 0);
      Reachable(max, {0}, s) && !PollFaithful(s)
  {
    var s := Enqueued(max, x, WORD, 0);
    assert (WORD % WORD) % max == 0;
    assert Reachable(max, {0}, s) by {
      CycleReaches(max, x, WORD);
      EnqueueReaches(max, x, WORD);
    }
    assert s.buffer[s.tail].None? && !Unstored(s, WORD);
  }

  /** For ever faithful, whatever the interleaving, exactly when the capacity divides 2^64. The header
      asks for a power of two; can_operator.c creates its queue with capacity 1000. */
  lemma FaithfulIffDivides<T(!new)>(max: nat, x: T)
    requires 0 < max && max + 1 < WORD
    ensures (forall procs: set<nat>, s: Ring<T> | max + |procs| < WORD && Reachable(max, procs, s) :: PollFaithful(s))
      <==> WORD % max == 0
  {
    if WORD % max == 0 {
      forall procs: set<nat>, s: Ring<T> | max + |procs| < WORD && Reachable(max, procs, s) ensures PollFaithful(s) {
        ReachableIsFaithful(max, procs, s);
      }
    } else {
      WrappedHeadMisses(max, x);
      assert max + |{0}| < WORD;
    }
  }

  lemma CapacityOf1000IsNotFaithful()
    ensures exists s: Ring<bool> :: Reachable(1000, {0}, s) && !PollFaithful(s)
  {
    WrappedHeadMisses(1000, true);
  }
}
