/** struct mpscq: mpscq_enqueue and mpscq_dequeue as written, with the other threads interfering before
    every atomic access. Each access is tied to the step of MpscRing it performs. */
module Mpscq {
  import opened Wrappers
  import opened MpscRing
  import opened MpscRuns

  /** The thread that makes a step: a producer, or None for the consumer. */
  function By<T>(step: Step<T>): Option<nat> {
    match step
    case Admit(p, _) => Some(p)
    case BackOff(p) => Some(p)
    case TakeTicket(p) => Some(p)
    case CheckSlot(p) => Some(p)
    case Store(p) => Some(p)
    case Poll => None
    case Release => None
  }

  /** Between two states of the ticket history, producer p got no ticket. */
  ghost predicate NoTicket<T>(p: nat, before: seq<(nat, T)>, after: seq<(nat, T)>) {
    forall k | |before| <= k < |after| :: after[k].0 != p
  }

  /** A ticket whose slot was written counts as stored from then on. */
  ghost predicate StoredStays<T>(s: Ring<T>, s': Ring<T>)
    requires |s.issued| <= |s'.issued|
  {
    forall k {:trigger Unstored(s', k)} | 0 <= k < |s.issued| && Unstored(s', k) :: Unstored(s, k)
  }

  /** The oldest undelivered ticket has not been given out, or not been stored. */
  ghost predicate NothingToTake<T>(s: Ring<T>) {
    |s.taken| >= |s.issued| || Unstored(s, |s.taken|)
  }

  lemma StillNothing<T>(s: Ring<T>, s': Ring<T>)
    requires Rely(s, s', None) && NothingToTake(s')
    ensures NothingToTake(s)
  {
  }

  /** What thread p sees of the others' steps: they leave its own program counter and history alone, only the
      consumer takes objects, histories only grow, no ticket is given to p, and a stored ticket stays stored. */
  ghost predicate Rely<T>(s: Ring<T>, s': Ring<T>, p: Option<nat>) {
    && s'.producers.Keys == s.producers.Keys && |s'.buffer| == |s.buffer|
    && s.issued <= s'.issued && s.taken <= s'.taken
    && (p.Some? && p.value in s.producers ==> s'.producers[p.value] == s.producers[p.value])
    && (p.Some? && p.value in s.admitted ==> p.value in s'.admitted && s'.admitted[p.value] == s.admitted[p.value])
    && (p.Some? ==> NoTicket(p.value, s.issued, s'.issued))
    && StoredStays(s, s')
    && (p.None? ==> s'.consumer == s.consumer && s'.taken == s.taken && s'.tail == s.tail)
  }

  /** Every step of another thread is covered by what p relies on. */
  lemma OthersKeepRely<T>(s: Ring<T>, step: Step<T>, p: Option<nat>)
    requires Enabled(s, step) && By(step) != p
    ensures Rely(s, Next(s, step), p)
  {
    StepKeepsThreads(s, step);
  }

  lemma NoTicketChains<T>(p: nat, a: seq<(nat, T)>, b: seq<(nat, T)>, c: seq<(nat, T)>)
    requires a <= b <= c && NoTicket(p, a, b) && NoTicket(p, b, c)
    ensures NoTicket(p, a, c)
  {
    forall k | |a| <= k < |c| ensures c[k].0 != p {
      assert k < |b| ==> c[k] == b[k];
    }
  }

  lemma RelyChains<T>(s: Ring<T>, t: Ring<T>, u: Ring<T>, p: Option<nat>)
    requires Rely(s, t, p) && Rely(t, u, p)
    ensures Rely(s, u, p)
  {
    hide NoTicket, Unstored;
    if p.Some? {
      NoTicketChains(p.value, s.issued, t.issued, u.issued);
    }
  }

  /** So is any number of steps of other threads in a row. */
  lemma {:induction false} OthersRunKeepsRely<T>(states: seq<Ring<T>>, steps: seq<Step<T>>, p: Option<nat>, i: nat)
    requires IsRun(states, steps) && i <= |steps| && forall k | 0 <= k < |steps| :: By(steps[k]) != p
    ensures Rely(states[0], states[i], p)
  {
    if i > 0 {
      OthersRunKeepsRely(states, steps, p, i - 1);
      OthersKeepRely(states[i - 1], steps[i - 1], p);
      RelyChains(states[0], states[i - 1], states[i], p);
    }
  }

  /** Every step of a ring whose capacity divides 2^64 is safe. */
  lemma SafeStep<T>(s: Ring<T>, step: Step<T>) returns (s': Ring<T>)
    requires Inv(s) && ThreadsFit(s) && 0 < |s.buffer| && WORD % |s.buffer| == 0 && Enabled(s, step)
    ensures s' == Next(s, step) && Inv(s') && ThreadsFit(s') && AssertHolds(s, step)
  {
    StepKeepsInv(s, step);
    s' := Next(s, step);
  }

  lemma HasAdmissions<T>(s: Ring<T>, p: nat)
    requires Inv(s) && p in s.producers
    ensures p in s.admitted
  {
  }

  lemma CountIs<T>(s: Ring<T>)
    requires Inv(s)
    ensures s.count == InFlight(s) + |RefusedSet(s)|
  {
  }

  lemma AdmitEnabled<T>(s: Ring<T>, p: nat, obj: T)
    requires Inv(s) && p in s.producers && s.producers[p].Idle?
    ensures Enabled(s, Admit(p, obj))
  {
  }

  /** Taking a ticket, as its effect on the fields. */
  lemma TicketStep<T>(s: Ring<T>, p: nat, obj: T) returns (s': Ring<T>)
    requires Inv(s) && ThreadsFit(s) && 0 < |s.buffer| && WORD % |s.buffer| == 0
    requires p in s.producers && s.producers[p] == Admitted(obj)
    ensures Inv(s') && ThreadsFit(s')
    ensures s'.count == s.count && s'.head == Plus1(s.head) && s'.tail == s.tail && s'.buffer == s.buffer
    ensures p in s'.producers && s'.producers[p] == Ticketed(obj, s.head, |s.issued|)
    ensures s'.issued == s.issued + [(p, obj)] && s'.admitted == s.admitted
  {
    hide Inv, ThreadsFit;
    s' := SafeStep(s, TakeTicket(p));
  }

  class Mpscq<T> {
    var count: nat
    var head: nat
    var tail: nat
    const buffer: array<Option<T>>
    ghost var ring: Ring<T>

    ghost predicate Valid()
      reads this, buffer
    {
      && ring.count == count && ring.head == head && ring.tail == tail && ring.buffer == buffer[..]
      && 0 < buffer.Length && WORD % buffer.Length == 0 && Inv(ring) && ThreadsFit(ring)
    }

    /** mpscq_create with a capacity that, as its header asks, is a power of two. */
    constructor (max: nat, ghost procs: set<nat>)
      requires max > 0 && WORD % max == 0 && max + |procs| < WORD
      ensures Valid() && ring == Init(max, procs) && fresh(buffer)
    {
      count, head, tail := 0, 0, 0;
      buffer := new Option<T>[max](_ => None);
      ring := Init(max, procs);
      new;
      InitInv<T>(max, procs);
      assert ring.producers.Keys == procs;
      assert buffer[..] == ring.buffer;
    }

    /** What a thread may rely on while others run. */
    twostate predicate Others(p: Option<nat>)
      reads this, buffer
    {
      Valid() && Rely(old(ring), ring, p)
    }

    /** Any number of steps of the other threads: the caller may assume no more than Others(p). */
    method Interfere(ghost p: Option<nat>)
      requires Valid()
      modifies this, buffer
      ensures Others(p)
    {
    }

    /** Producer p stands at pc. */
    ghost predicate At(p: nat, pc: Producer<T>)
      reads this
    {
      p in ring.producers && ring.producers[p] == pc
    }

    /** Producer p holds ticket k for obj, taken since the ticket history was `before`. */
    ghost predicate Announced(p: nat, obj: T, k: nat, before: seq<(nat, T)>)
      reads this
    {
      before <= ring.issued && |before| <= k < |ring.issued| && ring.issued[k] == (p, obj)
    }

    /** What producer p was admitted with so far. */
    ghost predicate Admissions(p: nat, objs: seq<T>)
      reads this
    {
      p in ring.admitted && ring.admitted[p] == objs
    }

    /** atomic_fetch_add on count by producer p; seen is the ring it found. */
    method FetchAddCount(ghost p: nat, ghost obj: T, ghost objs: seq<T>) returns (c: nat, ghost seen: Ring<T>)
      requires Valid() && At(p, Idle) && Admissions(p, objs)
      modifies this, buffer
      ensures Valid() && At(p, if c < buffer.Length then Admitted(obj) else Refused)
      ensures Admissions(p, if c < buffer.Length then objs + [obj] else objs)
      ensures Rely(old(ring), seen, Some(p)) && c == InFlight(seen) + |RefusedSet(seen)|
      ensures old(ring.issued) <= ring.issued && NoTicket(p, old(ring.issued), ring.issued)
    {
      hide Inv, ThreadsFit, InFlight, RefusedSet, Unstored;
      Interfere(Some(p));
      AdmitEnabled(ring, p, obj);
      ghost var next := SafeStep(ring, Admit(p, obj));
      CountIs(ring);
      c, seen := count, ring;
      count, ring := Plus1(count), next;
    }

    /** atomic_fetch_sub on count by producer p, which is backing off. */
    method UndoCount(ghost p: nat, ghost objs: seq<T>)
      requires Valid() && At(p, Refused) && Admissions(p, objs)
      modifies this, buffer
      ensures Valid() && At(p, Idle) && Admissions(p, objs)
      ensures old(ring.issued) <= ring.issued && NoTicket(p, old(ring.issued), ring.issued)
    {
      hide Inv, ThreadsFit, InFlight, RefusedSet, Unstored;
      Interfere(Some(p));
      ghost var next := SafeStep(ring, BackOff(p));
      count, ring := Minus1(count), next;
    }

    /** atomic_fetch_add on head by producer p. */
    method FetchAddHead(ghost p: nat, ghost obj: T, ghost objs: seq<T>) returns (h: nat, ghost k: nat)
      requires Valid() && At(p, Admitted(obj)) && Admissions(p, objs)
      modifies this, buffer
      ensures Valid() && At(p, Ticketed(obj, h, k)) && Admissions(p, objs) && Announced(p, obj, k, old(ring.issued))
    {
      hide Inv, ThreadsFit, InFlight, RefusedSet, Unstored;
      Interfere(Some(p));
      h, k := head, |ring.issued|;
      ghost var next := TicketStep(ring, p, obj);
      head, ring := Plus1(head), next;
      assert old(ring.issued) <= ring.issued;
    }

    /** The load in the first assert of mpscq_enqueue, and that assert. */
    method AssertSlotEmpty(ghost p: nat, ghost obj: T, h: nat, ghost k: nat, ghost objs: seq<T>)
      requires Valid() && At(p, Ticketed(obj, h, k)) && Admissions(p, objs)
      modifies this, buffer
      ensures Valid() && At(p, Checked(obj, h, k)) && Admissions(p, objs) && old(ring.issued) <= ring.issued
    {
      hide Inv, ThreadsFit, InFlight, RefusedSet, Unstored;
      Interfere(Some(p));
      ghost var next := SafeStep(ring, CheckSlot(p));
      assert buffer[h % buffer.Length].None?;
      ring := next;
    }

    /** atomic_exchange of the slot by producer p, and the second assert. */
    method ExchangeSlot(ghost p: nat, h: nat, obj: T, ghost k: nat, ghost objs: seq<T>)
      requires Valid() && At(p, Checked(obj, h, k)) && Admissions(p, objs)
      modifies this, buffer
      ensures Valid() && At(p, Idle) && Admissions(p, objs) && old(ring.issued) <= ring.issued
    {
      hide Inv, ThreadsFit, InFlight, RefusedSet, Unstored;
      Interfere(Some(p));
      ghost var next := SafeStep(ring, Store(p));
      var rv := buffer[h % buffer.Length];
      buffer[h % buffer.Length] := Some(obj);
      ring := next;
      assert buffer[..] == ring.buffer;
      assert rv.None?;
    }

    /** mpscq_enqueue, called by producer p: on success its object was given a ticket during the call, and its
        slot has been written. It fails only if at a state it met during the call the objects in flight and
        the producers backing off filled the capacity, and then its object got no ticket. */
    method Enqueue(ghost p: nat, obj: T) returns (ok: bool, ghost k: nat, ghost seen: Ring<T>)
      requires Valid() && At(p, Idle)
      modifies this, buffer
      ensures Valid() && At(p, Idle) && old(ring.issued) <= ring.issued
      ensures p in old(ring.admitted) && Admissions(p, old(ring.admitted[p]) + if ok then [obj] else [])
      ensures ok ==> Announced(p, obj, k, old(ring.issued)) && !Unstored(ring, k)
      ensures !ok ==> NoTicket(p, old(ring.issued), ring.issued)
      ensures !ok ==> Rely(old(ring), seen, Some(p)) && InFlight(seen) + |RefusedSet(seen)| >= buffer.Length
    {
      hide Inv, ThreadsFit, InFlight, RefusedSet, NoTicket;
      HasAdmissions(ring, p);
      ghost var objs := ring.admitted[p];
      ghost var start := ring.issued;
      var c;
      c, seen := FetchAddCount(p, obj, objs);
      ghost var middle := ring.issued;
      k := 0;
      if c >= buffer.Length {
        UndoCount(p, objs);
        NoTicketChains(p, start, middle, ring.issued);
        return false, 0, seen;
      }
      var h;
      h, k := FetchAddHead(p, obj, objs + [obj]);
      AssertSlotEmpty(p, obj, h, k, objs + [obj]);
      ExchangeSlot(p, h, obj, k, objs + [obj]);
      return true, k, seen;
    }

    /** atomic_exchange of the tail slot by the consumer, and its private tail update. */
    method ExchangeTail() returns (ret: Option<T>)
      requires Valid() && ring.consumer.Ready?
      modifies this, buffer
      ensures Valid() && ring.consumer == if ret.None? then Ready else Holding
      ensures ring.taken == if ret.None? then old(ring.taken) else old(ring.taken) + [ret.value]
      ensures ret.None? ==> NothingToTake(ring) && NothingToTake(old(ring))
    {
      hide Inv, ThreadsFit;
      Interfere(None);
      PollSees(ring);
      if NothingToTake(ring) {
        StillNothing(old(ring), ring);
      }
      ghost var next := SafeStep(ring, Poll);
      ret := buffer[tail];
      buffer[tail] := None;
      ring := next;
      assert buffer[..] == ring.buffer;
      if ret.Some? {
        tail := tail + 1;
        if tail >= buffer.Length {
          tail := 0;
        }
      }
    }

    /** atomic_fetch_sub on count by the consumer, and the third assert. */
    method ReleaseCount()
      requires Valid() && ring.consumer.Holding?
      modifies this, buffer
      ensures Valid() && ring.consumer.Ready? && ring.taken == old(ring.taken)
    {
      hide Inv, ThreadsFit;
      Interfere(None);
      ghost var next := SafeStep(ring, Release);
      var r := count;
      count, ring := Minus1(count), next;
      assert r > 0;
    }

    /** mpscq_dequeue, called by the one consumer: it delivers the oldest undelivered ticket or nothing. */
    method Dequeue() returns (ret: Option<T>)
      requires Valid() && ring.consumer.Ready?
      modifies this, buffer
      ensures Valid() && ring.consumer.Ready?
      ensures ret.None? ==> ring.taken == old(ring.taken) && NothingToTake(ring) && NothingToTake(old(ring))
      ensures ret.Some? ==> ring.taken == old(ring.taken) + [ret.value]
      ensures ring.taken <= Objects(ring.issued)
    {
      ret := ExchangeTail();
      if ret.Some? {
        ReleaseCount();
      }
    }
  }
}
