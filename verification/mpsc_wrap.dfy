/** What the wrapped head does to the asserts of mpscq_enqueue: without a capacity that divides 2^64, filling
    the ring after 2^64 objects leads to a producer in front of a slot that is still occupied. */
module MpscWrap {
  import opened MpscRing
  import opened MpscRuns
  import opened Powers
  import opened Wrappers

  /** Producer 0 has enqueued j objects without a dequeue, after the first k went through and head wrapped. */
  function Filling<T>(max: nat, x: T, k: nat, j: nat): Ring<T>
    requires 0 < max && j <= max
  {
    Ring(j, j, k % max, seq(max, i => if i < j then Some(x) else None), map[0 := Idle], Ready,
         Repeat((0, x), k + j), Repeat(x, k), map[0 := Repeat(x, k + j)])
  }

  lemma FillComputes<T>(max: nat, x: T, k: nat, j: nat) returns (s1: Ring<T>, s2: Ring<T>, s3: Ring<T>)
    requires 0 < max < WORD && j < max
    ensures var s0 := Filling(max, x, k, j);
      && Enabled(s0, Admit(0, x)) && s1 == Next(s0, Admit(0, x))
      && Enabled(s1, TakeTicket(0)) && s2 == Next(s1, TakeTicket(0))
      && Enabled(s2, CheckSlot(0)) && s3 == Next(s2, CheckSlot(0))
      && Enabled(s3, Store(0)) && Next(s3, Store(0)) == Filling(max, x, k, j + 1)
  {
    var s0 := Filling(max, x, k, j);
    RepeatGrows((0, x), k + j);
    RepeatGrows(x, k + j);
    ModUnique(max, 0, j);
    s1 := s0.(count := j + 1, producers := map[0 := Admitted(x)], admitted := map[0 := Repeat(x, k + j + 1)]);
    assert s1 == Next(s0, Admit(0, x));
    s2 := s1.(head := j + 1, producers := map[0 := Ticketed(x, j, k + j)], issued := Repeat((0, x), k + j + 1));
    assert s2 == Next(s1, TakeTicket(0));
    s3 := s2.(producers := map[0 := Checked(x, j, k + j)]);
    assert s0.buffer[j := Some(x)] == Filling(max, x, k, j + 1).buffer;
  }

  lemma {:induction false} FillReaches<T(!new)>(max: nat, x: T, k: nat, j: nat)
    requires 0 < max < WORD && j <= max && Reachable(max, {0}, Filling(max, x, k, 0))
    ensures Reachable(max, {0}, Filling(max, x, k, j))
  {
    hide Reachable, Filling, Next, Enabled;
    if j > 0 {
      FillReaches(max, x, k, j - 1);
      var s1, s2, s3 := FillComputes(max, x, k, j - 1);
      ReachStep(max, {0}, Filling(max, x, k, j - 1), Admit(0, x));
      ReachStep(max, {0}, s1, TakeTicket(0));
      ReachStep(max, {0}, s2, CheckSlot(0));
      ReachStep(max, {0}, s3, Store(0));
    }
  }

  /** One object leaves the full ring, from the slot that is not the oldest ticket's. */
  lemma OneLeaves<T(!new)>(max: nat, x: T, k: nat) returns (s: Ring<T>)
    requires 0 < max < WORD && k % max != 0 && Reachable(max, {0}, Filling(max, x, k, max))
    ensures Reachable(max, {0}, s) && s.count == max - 1 && s.head == max && |s.buffer| == max
    ensures s.buffer[0] == Some(x) && s.producers == map[0 := Idle] && s.admitted.Keys == {0}
  {
    var full := Filling(max, x, k, max);
    ReachStep(max, {0}, full, Poll);
    var t := Next(full, Poll);
    ReachStep(max, {0}, t, Release);
    s := Next(t, Release);
  }

  /** The next producer is admitted and faces slot 0, which is still full. */
  lemma NextFails<T(!new)>(max: nat, x: T, s: Ring<T>) returns (u: Ring<T>)
    requires 0 < max < WORD && Reachable(max, {0}, s) && s.count == max - 1 && s.head == max && |s.buffer| == max
    requires s.buffer[0] == Some(x) && s.producers == map[0 := Idle] && s.admitted.Keys == {0}
    ensures Reachable(max, {0}, u) && Enabled(u, CheckSlot(0)) && !AssertHolds(u, CheckSlot(0))
  {
    ReachStep(max, {0}, s, Admit(0, x));
    var t := Next(s, Admit(0, x));
    assert t.producers[0] == Admitted(x);
    ReachStep(max, {0}, t, TakeTicket(0));
    u := Next(t, TakeTicket(0));
    ModUnique(max, 1, 0);
    assert u.producers[0].head == max && u.buffer == s.buffer;
  }

  lemma WrappedHeadFails<T(!new)>(max: nat, x: T) returns (u: Ring<T>)
    requires 0 < max < WORD && WORD % max != 0
    ensures Reachable(max, {0}, u) && Enabled(u, CheckSlot(0)) && !AssertHolds(u, CheckSlot(0))
  {
    CycleReaches(max, x, WORD);
    assert Cycled(max, x, WORD) == Filling(max, x, WORD, 0);
    FillReaches(max, x, WORD, max);
    var s := OneLeaves(max, x, WORD);
    u := NextFails(max, x, s);
  }

  lemma ReachableAssertHolds<T(!new)>(max: nat, procs: set<nat>, s: Ring<T>, step: Step<T>)
    requires 0 < max && max + |procs| < WORD && WORD % max == 0 && Reachable(max, procs, s) && Enabled(s, step)
    ensures AssertHolds(s, step)
  {
    var states: seq<Ring<T>>, steps: seq<Step<T>> :|
      IsRun(states, steps) && states[0] == Init(max, procs) && states[|steps|] == s;
    AssertsNeverFail(states, steps, max, procs, |steps|);
    StepKeepsInv(s, step);
  }

  /** No assert of the code can ever fail, whatever the interleaving, exactly when the capacity divides 2^64. */
  lemma AssertsHoldIffDivides<T(!new)>(max: nat, x: T)
    requires 0 < max && max + 1 < WORD
    ensures (forall procs: set<nat>, s: Ring<T>, step: Step<T> |
               max + |procs| < WORD && Reachable(max, procs, s) && Enabled(s, step) :: AssertHolds(s, step))
      <==> WORD % max == 0
  {
    if WORD % max == 0 {
      forall procs: set<nat>, s: Ring<T>, step: Step<T> |
        max + |procs| < WORD && Reachable(max, procs, s) && Enabled(s, step) ensures AssertHolds(s, step)
      {
        ReachableAssertHolds(max, procs, s, step);
      }
    } else {
      var u := WrappedHeadFails(max, x);
      assert max + |{0}| < WORD;
    }
  }

  /** With the capacity the receiver uses, one can. */
  lemma CapacityOf1000CanFail()
    ensures exists s: Ring<bool> :: Reachable(1000, {0}, s) && Enabled(s, CheckSlot(0)) && !AssertHolds(s, CheckSlot(0))
  {
    var u := WrappedHeadFails(1000, true);
  }
}
