/** The bounded multi-producer single-consumer ring of mpsc.c as a state machine: every atomic access
    is one step, steps of any number of producers and of the consumer interleave freely, and the code's
    asserts are properties to prove. Memory is sequentially consistent. */
module MpscRing {
  import opened Wrappers
  import opened Powers

  /** size_t counters wrap at 2^64. */
  const WORD: nat := 0x1_0000_0000_0000_0000

  /** Where a producer stands inside mpscq_enqueue. */
  datatype Producer<T> =
    | Idle
    | Admitted(obj: T)                             // count was below max; head not incremented yet
    | Refused                                      // count was at max; the increment is still to be undone
    | Ticketed(obj: T, head: nat, ticket: nat)     // head incremented; first assert still to run
    | Checked(obj: T, head: nat, ticket: nat)      // first assert has run; slot not written yet

  /** Where the consumer stands: between calls, or holding an object whose count it has not released. */
  datatype Consumer = Ready | Holding

  /** The queue, the program counters, and three histories: who was given which ticket with which
      object, what was dequeued, and what each producer was admitted with, in its own call order. */
  datatype Ring<T> = Ring(
    count: nat, head: nat, tail: nat, buffer: seq<Option<T>>,
    producers: map<nat, Producer<T>>, consumer: Consumer,
    issued: seq<(nat, T)>, taken: seq<T>, admitted: map<nat, seq<T>>)

  datatype Step<T> =
    | Admit(p: nat, obj: T)      // atomic_fetch_add on count, and the branch on its result
    | BackOff(p: nat)            // atomic_fetch_sub of a refused producer
    | TakeTicket(p: nat)         // atomic_fetch_add on head
    | CheckSlot(p: nat)          // the load in the first assert
    | Store(p: nat)              // atomic_exchange into the slot, second assert
    | Poll                       // the consumer's atomic_exchange, and its private tail update
    | Release                    // the consumer's atomic_fetch_sub, third assert

  function Init<T>(max: nat, procs: set<nat>): Ring<T> {
    Ring(0, 0, 0, seq(max, _ => None), map p | p in procs :: Idle, Ready, [], [], map p | p in procs :: [])
  }

  predicate Enabled<T>(s: Ring<T>, step: Step<T>) {
    match step
    case Admit(p, _) => p in s.producers && p in s.admitted && s.producers[p].Idle?
    case BackOff(p) => p in s.producers && s.producers[p].Refused?
    case TakeTicket(p) => p in s.producers && s.producers[p].Admitted?
    case CheckSlot(p) => p in s.producers && s.producers[p].Ticketed? && |s.buffer| > 0
    case Store(p) => p in s.producers && s.producers[p].Checked? && |s.buffer| > 0
    case Poll => s.consumer.Ready? && s.tail < |s.buffer|
    case Release => s.consumer.Holding?
  }

  /** x + 1 and x - 1 on size_t values. */
  function Plus1(x: nat): nat {
    if x + 1 >= WORD then x + 1 - WORD else x + 1
  }

  function Minus1(x: nat): nat {
    if x == 0 then WORD - 1 else x - 1
  }

  function Next<T>(s: Ring<T>, step: Step<T>): (s': Ring<T>)
    requires Enabled(s, step)
    ensures |s'.buffer| == |s.buffer|
  {
    match step
    case Admit(p, obj) =>
      var s1 := s.(count := Plus1(s.count));
      if s.count >= |s.buffer| then s1.(producers := s.producers[p := Refused])
      else s1.(producers := s.producers[p := Admitted(obj)], admitted := s.admitted[p := s.admitted[p] + [obj]])
    case BackOff(p) =>
      s.(count := Minus1(s.count), producers := s.producers[p := Idle])
    case TakeTicket(p) =>
      var obj := s.producers[p].obj;
      s.(head := Plus1(s.head),
         producers := s.producers[p := Ticketed(obj, s.head, |s.issued|)],
         issued := s.issued + [(p, obj)])
    case CheckSlot(p) =>
      var pc := s.producers[p];
      s.(producers := s.producers[p := Checked(pc.obj, pc.head, pc.ticket)])
    case Store(p) =>
      var pc := s.producers[p];
      s.(buffer := s.buffer[pc.head % |s.buffer| := Some(pc.obj)], producers := s.producers[p := Idle])
    case Poll =>
      if s.buffer[s.tail].None? then s
      else s.(buffer := s.buffer[s.tail := None],
              tail := if s.tail + 1 >= |s.buffer| then 0 else s.tail + 1,
              consumer := Holding, taken := s.taken + [s.buffer[s.tail].value])
    case Release =>
      s.(count := Minus1(s.count), consumer := Ready)
  }

  /** The assert executed by a step, if it executes one. */
  predicate AssertHolds<T>(s: Ring<T>, step: Step<T>)
    requires Enabled(s, step)
  {
    match step
    case CheckSlot(p) => s.buffer[s.producers[p].head % |s.buffer|] == None
    case Store(p) => s.buffer[s.producers[p].head % |s.buffer|] == None
    case Release => s.count > 0
    case _ => true
  }

  // ----- the invariant -----

  predicate Storing<T>(pc: Producer<T>) {
    pc.Ticketed? || pc.Checked?
  }

  /** Ticket k has been given out but its producer has not written its slot yet. */
  predicate Unstored<T>(s: Ring<T>, k: nat)
    requires k < |s.issued|
  {
    var p := s.issued[k].0;
    p in s.producers && Storing(s.producers[p]) && s.producers[p].ticket == k
  }

  ghost function AdmittedSet<T>(s: Ring<T>): set<nat> {
    set p | p in s.producers && s.producers[p].Admitted?
  }

  ghost function RefusedSet<T>(s: Ring<T>): set<nat> {
    set p | p in s.producers && s.producers[p].Refused?
  }

  /** Objects admitted and not yet released: waiting for a ticket, ticketed, or held by the consumer. */
  ghost function InFlight<T>(s: Ring<T>): int {
    |AdmittedSet(s)| + |s.issued| - |s.taken| + (if s.consumer.Holding? then 1 else 0)
  }

  ghost predicate CountInv<T>(s: Ring<T>) {
    && |s.taken| <= |s.issued|
    && InFlight(s) <= |s.buffer|
    && s.count == InFlight(s) + |RefusedSet(s)|
  }

  predicate CounterInv<T>(s: Ring<T>) {
    && |s.buffer| > 0
    && s.head == |s.issued| % WORD
    && s.tail == |s.taken| % |s.buffer|
  }

  /** The first ticket from the consumer's position on that uses slot i. */
  function TicketAt<T>(s: Ring<T>, i: nat): nat
    requires i < |s.buffer| && s.tail < |s.buffer|
  {
    |s.taken| + if i >= s.tail then i - s.tail else i + |s.buffer| - s.tail
  }

  /** An outstanding ticket's slot holds its object once stored; every other slot is empty. */
  function Expected<T>(s: Ring<T>, i: nat): Option<T>
    requires i < |s.buffer| && s.tail < |s.buffer|
  {
    var k := TicketAt(s, i);
    if k < |s.issued| && !Unstored(s, k) then Some(s.issued[k].1) else None
  }

  ghost predicate SlotInv<T>(s: Ring<T>) {
    && s.tail < |s.buffer|
    && forall i | 0 <= i < |s.buffer| :: s.buffer[i] == Expected(s, i)
  }

  ghost predicate TicketInv<T>(s: Ring<T>) {
    forall p {:trigger s.producers[p]} | p in s.producers && Storing(s.producers[p]) ::
      var pc := s.producers[p];
      && |s.taken| <= pc.ticket < |s.issued|
      && s.issued[pc.ticket] == (p, pc.obj)
      && pc.head == pc.ticket % WORD
  }

  function Objects<T>(issued: seq<(nat, T)>): (r: seq<T>)
    ensures |r| == |issued|
  {
    seq(|issued|, i requires 0 <= i < |issued| => issued[i].1)
  }

  /** The objects issued to producer p, in ticket order. */
  function Of<T>(issued: seq<(nat, T)>, p: nat): seq<T> {
    if issued == [] then []
    else
      var last := issued[|issued| - 1];
      Of(issued[..|issued| - 1], p) + if last.0 == p then [last.1] else []
  }

  ghost predicate OrderInv<T>(s: Ring<T>) {
    && s.admitted.Keys == s.producers.Keys
    && (forall i | 0 <= i < |s.issued| :: s.issued[i].0 in s.producers)
    && (forall p {:trigger s.admitted[p]} | p in s.producers ::
          s.admitted[p] == Of(s.issued, p) + if s.producers[p].Admitted? then [s.producers[p].obj] else [])
  }

  ghost predicate FifoInv<T>(s: Ring<T>) {
    s.taken <= Objects(s.issued)
  }

  ghost predicate Inv<T>(s: Ring<T>) {
    CounterInv(s) && CountInv(s) && TicketInv(s) && SlotInv(s) && OrderInv(s) && FifoInv(s)
  }

  /** Threads are few enough that count itself cannot wrap. */
  predicate ThreadsFit<T>(s: Ring<T>) {
    |s.buffer| + |s.producers| < WORD
  }

  /** head % max still names the slot of the ticket it stands for. */
  predicate HeadFaithful(max: nat, tickets: nat)
    requires max > 0
  {
    WORD % max == 0 || tickets <= WORD
  }

  /** At most max tickets are outstanding. */
  predicate Window<T>(s: Ring<T>) {
    |s.taken| <= |s.issued| <= |s.taken| + |s.buffer|
  }

  lemma InWindow<T>(s: Ring<T>)
    requires CountInv(s)
    ensures Window(s)
  {
  }

  // ----- slot arithmetic -----

  lemma AddSlots(n: nat, a: nat, d: nat)
    requires n > 0 && d < n
    ensures (a + d) % n == if a % n + d < n then a % n + d else a % n + d - n
  {
    assert a == n * (a / n) + a % n;
    if a % n + d < n {
      ModUnique(n, a / n, a % n + d);
    } else {
      ModUnique(n, a / n + 1, a % n + d - n);
    }
  }

  lemma NextSlot(n: nat, a: nat)
    requires n > 0
    ensures (a + 1) % n == if a % n + 1 >= n then 0 else a % n + 1
  {
    if n == 1 {
    } else {
      AddSlots(n, a, 1);
    }
  }

  lemma WrapKeepsSlot(n: nat, t: nat)
    requires n > 0 && WORD % n == 0
    ensures (t % WORD) % n == t % n
  {
    var m := WORD / n;
    var q := t / WORD;
    assert WORD == n * m;
    assert t == n * (m * q) + t % WORD by { assert WORD * q == n * (m * q); }
    var r := t % WORD;
    assert t == n * (m * q + r / n) + r % n;
    ModUnique(n, m * q + r / n, r % n);
  }

  lemma HeadSlot(n: nat, t: nat, tickets: nat)
    requires n > 0 && t < tickets && HeadFaithful(n, tickets)
    ensures (t % WORD) % n == t % n
  {
    if WORD % n == 0 {
      WrapKeepsSlot(n, t);
    }
  }

  /** The wrapped head names the slot of its ticket for ever exactly when the capacity divides 2^64. */
  lemma HeadSlotIffDivides(n: nat)
    requires n > 0
    ensures (forall t: nat :: (t % WORD) % n == t % n) <==> WORD % n == 0
  {
    if WORD % n == 0 {
      forall t: nat ensures (t % WORD) % n == t % n {
        WrapKeepsSlot(n, t);
      }
    } else {
      assert (WORD % WORD) % n != WORD % n;
    }
  }

  // ----- every step keeps the invariant -----

  lemma InitInv<T>(max: nat, procs: set<nat>)
    requires max > 0
    ensures Inv(Init<T>(max, procs))
  {
    var s := Init<T>(max, procs);
    assert AdmittedSet(s) == {} && RefusedSet(s) == {};
  }

  /** Only p's program counter changes: the producer sets change by p alone. */
  lemma SetsUpdate<T>(s: Ring<T>, s': Ring<T>, p: nat, pc: Producer<T>)
    requires p in s.producers && s'.producers == s.producers[p := pc]
    ensures AdmittedSet(s') == if pc.Admitted? then AdmittedSet(s) + {p} else AdmittedSet(s) - {p}
    ensures RefusedSet(s') == if pc.Refused? then RefusedSet(s) + {p} else RefusedSet(s) - {p}
  {
  }

  lemma RefusedBound<T>(s: Ring<T>)
    ensures |RefusedSet(s)| <= |s.producers|
  {
    var rest := s.producers.Keys - RefusedSet(s);
    assert s.producers.Keys == RefusedSet(s) + rest;
  }

  lemma RefusedRoom<T>(s: Ring<T>, p: nat)
    requires p in s.producers && !s.producers[p].Refused?
    ensures |RefusedSet(s)| < |s.producers|
  {
    RefusedBound(s.(producers := s.producers - {p}));
    assert RefusedSet(s.(producers := s.producers - {p})) == RefusedSet(s);
    assert |(s.producers - {p}).Keys| == |s.producers.Keys - {p}|;
  }

  /** A step that leaves slots, tickets and stores in progress alone keeps the slot invariant. */
  lemma SlotsUntouched<T>(s: Ring<T>, s': Ring<T>)
    requires SlotInv(s) && s'.tail == s.tail
    requires s'.buffer == s.buffer && s'.issued == s.issued && s'.taken == s.taken
    requires forall k | 0 <= k < |s.issued| :: Unstored(s', k) == Unstored(s, k)
    ensures SlotInv(s')
  {
  }

  lemma AdmitCounts<T>(s: Ring<T>, p: nat, obj: T)
    requires CountInv(s) && ThreadsFit(s) && Enabled(s, Admit(p, obj))
    ensures CountInv(Next(s, Admit(p, obj)))
  {
    var s' := Next(s, Admit(p, obj));
    SetsUpdate(s, s', p, s'.producers[p]);
    RefusedRoom(s, p);
    assert s'.count == s.count + 1;
    if s.count >= |s.buffer| {
      assert |RefusedSet(s')| == |RefusedSet(s)| + 1 && AdmittedSet(s') == AdmittedSet(s);
    } else {
      assert |AdmittedSet(s')| == |AdmittedSet(s)| + 1 && RefusedSet(s') == RefusedSet(s);
    }
  }

  lemma AdmitTickets<T>(s: Ring<T>, p: nat, obj: T)
    requires TicketInv(s) && OrderInv(s) && Enabled(s, Admit(p, obj))
    ensures TicketInv(Next(s, Admit(p, obj))) && OrderInv(Next(s, Admit(p, obj)))
  {
    hide Of;
  }

  lemma AdmitKeeps<T>(s: Ring<T>, p: nat, obj: T)
    requires Inv(s) && ThreadsFit(s) && Enabled(s, Admit(p, obj))
    ensures Inv(Next(s, Admit(p, obj)))
  {
    hide CountInv, TicketInv, SlotInv, OrderInv, Of, Objects;
    AdmitCounts(s, p, obj);
    AdmitTickets(s, p, obj);
    SlotsUntouched(s, Next(s, Admit(p, obj)));
  }

  lemma BackOffCounts<T>(s: Ring<T>, p: nat)
    requires CountInv(s) && ThreadsFit(s) && Enabled(s, BackOff(p))
    ensures CountInv(Next(s, BackOff(p)))
  {
    SetsUpdate(s, Next(s, BackOff(p)), p, Idle);
    RefusedBound(s);
    assert p in RefusedSet(s);
  }

  lemma BackOffKeeps<T>(s: Ring<T>, p: nat)
    requires Inv(s) && ThreadsFit(s) && Enabled(s, BackOff(p))
    ensures Inv(Next(s, BackOff(p)))
  {
    hide CountInv, SlotInv, Of, Objects;
    BackOffCounts(s, p);
    SlotsUntouched(s, Next(s, BackOff(p)));
  }

  lemma TakeTicketSlots<T>(s: Ring<T>, p: nat)
    requires Inv(s) && Enabled(s, TakeTicket(p))
    ensures SlotInv(Next(s, TakeTicket(p)))
  {
    hide CountInv, TicketInv, OrderInv, FifoInv;
    var s' := Next(s, TakeTicket(p));
    forall i | 0 <= i < |s.buffer| ensures s'.buffer[i] == Expected(s', i) {
      var k := TicketAt(s, i);
      if k < |s.issued| {
        assert s'.issued[k] == s.issued[k] && Unstored(s', k) == Unstored(s, k);
      }
    }
  }

  lemma OfGrows<T>(issued: seq<(nat, T)>, p: nat, x: (nat, T))
    ensures Of(issued + [x], p) == Of(issued, p) + if x.0 == p then [x.1] else []
  {
    assert (issued + [x])[..|issued|] == issued;
  }

  lemma TakeTicketCounts<T>(s: Ring<T>, p: nat)
    requires CountInv(s) && Enabled(s, TakeTicket(p))
    ensures CountInv(Next(s, TakeTicket(p)))
  {
    var s' := Next(s, TakeTicket(p));
    SetsUpdate(s, s', p, s'.producers[p]);
    assert p in AdmittedSet(s);
  }

  lemma TakeTicketOrder<T>(s: Ring<T>, p: nat)
    requires OrderInv(s) && FifoInv(s) && Enabled(s, TakeTicket(p))
    ensures OrderInv(Next(s, TakeTicket(p))) && FifoInv(Next(s, TakeTicket(p)))
  {
    hide Of;
    var s' := Next(s, TakeTicket(p));
    forall q | q in s.producers
      ensures s'.admitted[q] == Of(s'.issued, q) + if s'.producers[q].Admitted? then [s'.producers[q].obj] else []
    {
      OfGrows(s.issued, q, (p, s.producers[p].obj));
    }
    assert Objects(s'.issued)[..|s.issued|] == Objects(s.issued);
  }

  lemma TakeTicketTickets<T>(s: Ring<T>, p: nat)
    requires CounterInv(s) && TicketInv(s) && Window(s) && Enabled(s, TakeTicket(p))
    ensures TicketInv(Next(s, TakeTicket(p))) && CounterInv(Next(s, TakeTicket(p)))
  {
    NextSlot(WORD, |s.issued|);
  }

  lemma TakeTicketKeeps<T>(s: Ring<T>, p: nat)
    requires Inv(s) && Enabled(s, TakeTicket(p))
    ensures Inv(Next(s, TakeTicket(p)))
  {
    hide CountInv, TicketInv, SlotInv, OrderInv, FifoInv, CounterInv, Window;
    InWindow(s);
    TakeTicketCounts(s, p);
    TakeTicketSlots(s, p);
    TakeTicketOrder(s, p);
    TakeTicketTickets(s, p);
  }

  lemma CheckSlotCounts<T>(s: Ring<T>, p: nat)
    requires CountInv(s) && Enabled(s, CheckSlot(p))
    ensures CountInv(Next(s, CheckSlot(p)))
  {
    var s' := Next(s, CheckSlot(p));
    SetsUpdate(s, s', p, s'.producers[p]);
    assert p !in AdmittedSet(s) && p !in RefusedSet(s);
  }

  lemma CheckSlotTickets<T>(s: Ring<T>, p: nat)
    requires TicketInv(s) && Enabled(s, CheckSlot(p))
    ensures TicketInv(Next(s, CheckSlot(p)))
  {
  }

  lemma CheckSlotKeeps<T>(s: Ring<T>, p: nat)
    requires Inv(s) && Enabled(s, CheckSlot(p))
    ensures Inv(Next(s, CheckSlot(p)))
  {
    hide CountInv, TicketInv, SlotInv, Of, Objects;
    CheckSlotCounts(s, p);
    CheckSlotTickets(s, p);
    CheckSlotSlots(s, p);
  }

  lemma CheckSlotSlots<T>(s: Ring<T>, p: nat)
    requires SlotInv(s) && Enabled(s, CheckSlot(p))
    ensures SlotInv(Next(s, CheckSlot(p)))
  {
    SlotsUntouched(s, Next(s, CheckSlot(p)));
  }

  lemma TicketSlot<T>(s: Ring<T>, k: nat)
    requires CounterInv(s) && Window(s) && |s.taken| <= k < |s.issued| && HeadFaithful(|s.buffer|, |s.issued|)
    ensures var i := (k % WORD) % |s.buffer|;
      s.tail < |s.buffer| && TicketAt(s, i) == k
  {
    var n, d := |s.buffer|, k - |s.taken|;
    HeadSlot(n, k, |s.issued|);
    AddSlots(n, |s.taken|, d);
    assert |s.taken| + d == k;
  }

  /** A producer between its ticket and its store faces an empty slot, the one its ticket stands for. */
  lemma SlotIsFree<T>(s: Ring<T>, p: nat)
    requires CounterInv(s) && Window(s) && TicketInv(s) && SlotInv(s)
    requires p in s.producers && Storing(s.producers[p]) && HeadFaithful(|s.buffer|, |s.issued|)
    ensures var pc, i := s.producers[p], s.producers[p].head % |s.buffer|;
      TicketAt(s, i) == pc.ticket && s.buffer[i] == None
  {
    var pc := s.producers[p];
    TicketSlot(s, pc.ticket);
    assert Unstored(s, pc.ticket);
    assert s.buffer[pc.head % |s.buffer|] == Expected(s, pc.head % |s.buffer|);
  }

  lemma StoredNow<T>(s: Ring<T>, p: nat, k: nat)
    requires Enabled(s, Store(p)) && k < |s.issued|
    requires var pc := s.producers[p]; pc.ticket < |s.issued| && s.issued[pc.ticket].0 == p
    ensures Unstored(Next(s, Store(p)), k) == (k != s.producers[p].ticket && Unstored(s, k))
  {
  }

  lemma StoreSlots<T>(s: Ring<T>, p: nat)
    requires CounterInv(s) && Window(s) && TicketInv(s) && SlotInv(s)
    requires Enabled(s, Store(p)) && HeadFaithful(|s.buffer|, |s.issued|)
    ensures SlotInv(Next(s, Store(p)))
  {
    var s' := Next(s, Store(p));
    var pc := s.producers[p];
    SlotIsFree(s, p);
    forall i | 0 <= i < |s.buffer| ensures s'.buffer[i] == Expected(s', i) {
      var k := TicketAt(s, i);
      assert TicketAt(s', i) == k && (k == pc.ticket <==> i == pc.head % |s.buffer|);
      assert s.buffer[i] == Expected(s, i);
      if k < |s.issued| {
        StoredNow(s, p, k);
      }
    }
  }

  lemma StoreCounts<T>(s: Ring<T>, p: nat)
    requires CountInv(s) && Enabled(s, Store(p))
    ensures CountInv(Next(s, Store(p)))
  {
    SetsUpdate(s, Next(s, Store(p)), p, Idle);
    assert p !in AdmittedSet(s) && p !in RefusedSet(s);
  }

  lemma StoreTickets<T>(s: Ring<T>, p: nat)
    requires TicketInv(s) && Enabled(s, Store(p))
    ensures TicketInv(Next(s, Store(p)))
  {
  }

  lemma StoreKeeps<T>(s: Ring<T>, p: nat)
    requires Inv(s) && Enabled(s, Store(p)) && HeadFaithful(|s.buffer|, |s.issued|)
    ensures Inv(Next(s, Store(p)))
  {
    hide CountInv, TicketInv, SlotInv, Window, HeadFaithful, Of, Objects;
    InWindow(s);
    StoreCounts(s, p);
    StoreTickets(s, p);
    StoreSlots(s, p);
  }

  /** The consumer sees exactly the oldest outstanding ticket: its object if stored, nothing otherwise. */
  lemma PollSees<T>(s: Ring<T>)
    requires Inv(s)
    ensures s.tail < |s.buffer|
    ensures s.buffer[s.tail] ==
      if |s.taken| == |s.issued| || Unstored(s, |s.taken|) then None else Some(s.issued[|s.taken|].1)
  {
    assert TicketAt(s, s.tail) == |s.taken|;
  }

  lemma PollSlots<T>(s: Ring<T>)
    requires Inv(s) && Enabled(s, Poll)
    ensures SlotInv(Next(s, Poll))
  {
    hide OrderInv, FifoInv, Of, Objects;
    var s' := Next(s, Poll);
    PollSees(s);
    if s.buffer[s.tail].Some? {
      forall i | 0 <= i < |s.buffer| ensures s'.buffer[i] == Expected(s', i) {
        var k := TicketAt(s, i);
        if i != s.tail {
          assert TicketAt(s', i) == k;
          assert k < |s.issued| ==> Unstored(s', k) == Unstored(s, k);
        }
      }
    }
  }

  lemma PollCounts<T>(s: Ring<T>)
    requires Inv(s) && Enabled(s, Poll)
    ensures CountInv(Next(s, Poll))
  {
    hide TicketInv, SlotInv, OrderInv, FifoInv, Unstored;
    var s' := Next(s, Poll);
    PollSees(s);
    assert AdmittedSet(s') == AdmittedSet(s) && RefusedSet(s') == RefusedSet(s);
  }

  lemma PollTickets<T>(s: Ring<T>)
    requires Inv(s) && Enabled(s, Poll)
    ensures TicketInv(Next(s, Poll))
  {
    hide SlotInv, OrderInv, FifoInv, CountInv;
    PollSees(s);
    forall p | p in s.producers && Storing(s.producers[p]) && s.buffer[s.tail].Some?
      ensures |s.taken| < s.producers[p].ticket
    {
      assert !Unstored(s, |s.taken|);
    }
  }

  lemma PollFifo<T>(s: Ring<T>)
    requires Inv(s) && Enabled(s, Poll)
    ensures FifoInv(Next(s, Poll)) && CounterInv(Next(s, Poll))
  {
    hide CountInv, TicketInv, SlotInv, OrderInv, Unstored;
    PollSees(s);
    NextSlot(|s.buffer|, |s.taken|);
  }

  lemma PollKeeps<T>(s: Ring<T>)
    requires Inv(s) && Enabled(s, Poll)
    ensures Inv(Next(s, Poll))
  {
    hide CountInv, TicketInv, SlotInv, CounterInv, FifoInv, Of, Objects, Unstored;
    PollCounts(s);
    PollTickets(s);
    PollSlots(s);
    PollFifo(s);
  }

  lemma ReleaseCounts<T>(s: Ring<T>)
    requires CountInv(s) && ThreadsFit(s) && Enabled(s, Release)
    ensures s.count > 0 && CountInv(Next(s, Release))
  {
    var s' := Next(s, Release);
    assert AdmittedSet(s') == AdmittedSet(s) && RefusedSet(s') == RefusedSet(s);
    RefusedBound(s);
  }

  lemma ReleaseKeeps<T>(s: Ring<T>)
    requires Inv(s) && ThreadsFit(s) && Enabled(s, Release)
    ensures s.count > 0 && Inv(Next(s, Release))
  {
    hide CountInv, SlotInv, Of, Objects;
    ReleaseCounts(s);
    SlotsUntouched(s, Next(s, Release));
  }

  lemma StepKeepsThreads<T>(s: Ring<T>, step: Step<T>)
    requires Enabled(s, step)
    ensures Next(s, step).producers.Keys == s.producers.Keys && |Next(s, step).buffer| == |s.buffer|
    ensures ThreadsFit(Next(s, step)) == ThreadsFit(s)
  {
    assert |s.producers| == |s.producers.Keys|;
    assert |Next(s, step).producers| == |Next(s, step).producers.Keys|;
  }

  /** Every step keeps the invariant, and its assert holds. */
  lemma StepKeepsInv<T>(s: Ring<T>, step: Step<T>)
    requires Inv(s) && ThreadsFit(s) && Enabled(s, step) && HeadFaithful(|s.buffer|, |s.issued|)
    ensures AssertHolds(s, step) && Inv(Next(s, step)) && ThreadsFit(Next(s, step))
  {
    StepKeepsThreads(s, step);
    match step
    case Admit(p, obj) => AdmitKeeps(s, p, obj);
    case BackOff(p) => BackOffKeeps(s, p);
    case TakeTicket(p) => TakeTicketKeeps(s, p);
    case CheckSlot(p) => CheckSlotKeeps(s, p); SlotIsFree(s, p);
    case Store(p) => StoreKeeps(s, p); SlotIsFree(s, p);
    case Poll => PollKeeps(s);
    case Release => ReleaseKeeps(s);
  }
}
