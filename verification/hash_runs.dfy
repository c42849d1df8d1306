/** Whole runs of the hash map: refinement of a finite map, tables that a reservation keeps from
    growing, and iteration that removes as it goes. */
module HashRuns {
  import opened Wrappers
  import opened Powers
  import opened ProbeTable
  import opened HashModel

  datatype Op<K, D> =
    | OpPut(key: Option<K>, data: Option<D>, stored: Option<K>, alloc: bool)
    | OpGet(key: Option<K>)
    | OpRemove(key: Option<K>)
    | OpReserve(capacity: nat, alloc: bool)
    | OpClear
    | OpReset(alloc: bool)

  datatype Answer<D> = Code(status: Status) | Data(data: Option<D>) | Done

  /** A call the caller may make: sizes stay below the int shift, and a kept key copy matches its key. */
  predicate Allowed<K, D>(ops: KeyOps<K>, s: State<K, D>, op: Op<K, D>) {
    match op
    case OpPut(key, _, stored, _) =>
      && s.sizeInit >= 2 && SizeFits(s.size)
      && (key.Some? && stored.Some? ==> ops.Same(key.value, stored.value))
    case OpReserve(capacity, _) => SizeFits(capacity)
    case _ => true
  }

  function Step<K, D>(ops: KeyOps<K>, s: State<K, D>, op: Op<K, D>): (State<K, D>, Answer<D>)
    requires Allowed(ops, s, op)
  {
    match op
    case OpPut(key, data, stored, alloc) => var (s', r) := Put(ops, s, key, data, stored, alloc); (s', Code(r))
    case OpGet(key) => (s, Data(Get(ops, s, key)))
    case OpRemove(key) => var (s', r) := Remove(ops, s, key); (s', Data(r))
    case OpReserve(capacity, alloc) => var (s', r) := Reserve(ops, s, capacity, alloc); (s', Code(r))
    case OpClear => (Clear(s), Done)
    case OpReset(alloc) => (Reset(s, alloc), Done)
  }

  /** A run: states before and after each call, with the answers. */
  ghost predicate IsRun<K, D>(ops: KeyOps<K>, states: seq<State<K, D>>, calls: seq<Op<K, D>>, answers: seq<Answer<D>>) {
    && |states| == |calls| + 1 && |answers| == |calls|
    && forall i | 0 <= i < |calls| ::
      Allowed(ops, states[i], calls[i]) && Step(ops, states[i], calls[i]) == (states[i + 1], answers[i])
  }

  /** What the same call does to a finite map, given its answer. */
  ghost predicate Explains<K(!new), D>(ops: KeyOps<K>, m: map<K, D>, op: Op<K, D>, a: Answer<D>, m': map<K, D>) {
    match op
    case OpPut(key, data, stored, alloc) =>
      if key.None? || data.None? then a == Code(EInval) && m' == m
      else if Holds(ops, m, key.value) then a == Code(EExist) && m' == m
      else
        || (a == Code(Ok) && stored.Some? && m' == m[stored.value := data.value])
        || (a == Code(ENoMem) && (stored.None? || !alloc) && m' == m)
    case OpGet(key) =>
      && m' == m
      && if key.None? || !Holds(ops, m, key.value) then a == Data(None)
         else exists k :: k in m && ops.Same(key.value, k) && a == Data(Some(m[k]))
    case OpRemove(key) =>
      if key.None? || !Holds(ops, m, key.value) then a == Data(None) && m' == m
      else exists k :: k in m && ops.Same(key.value, k) && a == Data(Some(m[k])) && m' == m - {k}
    case OpReserve(_, alloc) => (a == Code(Ok) || (a == Code(ENoMem) && !alloc)) && m' == m
    case OpClear => m' == map[]
    case OpReset(_) => m' == map[]
  }

  lemma StepRefines<K(!new), D>(ops: KeyOps<K>, s: State<K, D>, op: Op<K, D>)
    requires Lawful(ops) && Valid(ops, s) && Allowed(ops, s, op)
    ensures var (s', a) := Step(ops, s, op);
      Valid(ops, s') && Explains(ops, Contents(s), op, a, Contents(s'))
  {
    hide Valid, Contents, Lawful;
    match op
    case OpPut(key, data, stored, alloc) =>
      if key.Some? && data.Some? {
        PutAgrees(ops, s, key.value, data.value, stored, alloc);
      }
    case OpGet(key) =>
      if key.Some? {
        GetAgrees(ops, s, key.value);
      }
    case OpRemove(key) =>
      if key.Some? {
        RemoveAgrees(ops, s, key.value);
        GetAgrees(ops, s, key.value);
      }
    case OpReserve(capacity, alloc) => ReserveAgrees(ops, s, capacity, alloc);
    case OpClear => BlankAgrees(ops, s, true);
    case OpReset(alloc) => BlankAgrees(ops, s, alloc);
  }

  lemma InitValid<K, D>(ops: KeyOps<K>)
    ensures Valid(ops, Init<K, D>()) && Contents(Init<K, D>()) == map[]
  {
    assert Bag<K, D>([]) == multiset{};
    assert IsPow2(128);
  }

  /** Over every run from an empty map, whatever allocations fail, each state is sound and each answer
      is the finite map's. */
  lemma {:induction false} RunRefines<K(!new), D>(ops: KeyOps<K>, states: seq<State<K, D>>, calls: seq<Op<K, D>>, answers: seq<Answer<D>>, i: nat)
    requires Lawful(ops) && IsRun(ops, states, calls, answers) && states[0] == Init()
    requires i <= |calls|
    ensures Valid(ops, states[i])
    ensures i < |calls| ==> Explains(ops, Contents(states[i]), calls[i], answers[i], Contents(states[i + 1]))
  {
    if i == 0 {
      InitValid<K, D>(ops);
    } else {
      RunRefines(ops, states, calls, answers, i - 1);
      StepRefines(ops, states[i - 1], calls[i - 1]);
    }
    if i < |calls| {
      StepRefines(ops, states[i], calls[i]);
    }
  }

  // ----- reservations -----

  /** A successful reservation for capacity entries is still in force. */
  predicate Reserved<K, D>(s: State<K, D>, capacity: nat)
    requires SizeFits(capacity)
  {
    s.sizeInit == CalcTableSize(SIZE_MIN, capacity) <= |s.table|
  }

  lemma ReservedGrowIsIdle<K(!new), D>(ops: KeyOps<K>, s: State<K, D>, capacity: nat, alloc: bool)
    requires SizeFits(capacity) && Reserved(s, capacity) && s.size <= capacity && s.sizeInit >= SIZE_MIN
    ensures Grow(ops, s, alloc) == (s, Ok)
  {
    assert IsPow2(32);
    TableSizeIsLeast(SIZE_MIN, capacity);
    TableSizeIsLeast(s.sizeInit, s.size);
  }

  lemma ReservedStep<K(!new), D>(ops: KeyOps<K>, s: State<K, D>, op: Op<K, D>, capacity: nat)
    requires Lawful(ops) && Valid(ops, s) && Allowed(ops, s, op)
    requires SizeFits(capacity) && Reserved(s, capacity) && s.size <= capacity
    requires op.OpPut? || op.OpGet? || op.OpRemove? || op.OpClear?
    ensures var s' := Step(ops, s, op).0;
      |s'.table| == |s.table| && s'.sizeInit == s.sizeInit
  {
    match op
    case OpPut(key, data, stored, alloc) => ReservedGrowIsIdle(ops, s, capacity, alloc);
    case _ =>
  }

  /** After reserve(capacity) has succeeded, no run of put, get, remove and clear in which no call finds more
      than that many entries ever rehashes. */
  lemma {:induction false} ReservedRunNeverRehashes<K(!new), D>(
      ops: KeyOps<K>, states: seq<State<K, D>>, calls: seq<Op<K, D>>, answers: seq<Answer<D>>, capacity: nat, i: nat)
    requires Lawful(ops) && IsRun(ops, states, calls, answers) && Valid(ops, states[0])
    requires SizeFits(capacity) && Reserved(states[0], capacity) && i <= |calls|
    requires forall k | 0 <= k < |calls| :: calls[k].OpPut? || calls[k].OpGet? || calls[k].OpRemove? || calls[k].OpClear?
    requires forall k | 0 <= k < i :: states[k].size <= capacity
    ensures |states[i].table| == |states[0].table|
    ensures Valid(ops, states[i]) && Reserved(states[i], capacity)
  {
    hide Valid, Lawful, Allowed, Step;
    if i > 0 {
      ReservedRunNeverRehashes(ops, states, calls, answers, capacity, i - 1);
      ReservedStep(ops, states[i - 1], calls[i - 1], capacity);
      StepRefines(ops, states[i - 1], calls[i - 1]);
    }
  }

  // ----- iteration -----

  /** The loop of hashmap_entry_get_populated. */
  function NextFull<K, D>(t: seq<Slot<K, D>>, from: nat): (r: Option<nat>)
    requires from <= |t|
    ensures r.Some? ==> from <= r.value < |t| && t[r.value].Full?
    ensures forall j | from <= j < (if r.Some? then r.value else |t|) :: t[j].Empty?
    decreases |t| - from
  {
    if from == |t| then None
    else if t[from].Full? then Some(from)
    else NextFull(t, from + 1)
  }

  /** hashmap_entry_get_populated. */
  function Populated<K, D>(s: State<K, D>, from: nat): Option<nat>
    requires from <= |s.table|
  {
    if s.size > 0 then NextFull(s.table, from) else None
  }

  /** hashmap_base_iter_remove. */
  function IterRemove<K, D>(ops: KeyOps<K>, s: State<K, D>, i: nat): (State<K, D>, Option<nat>)
    requires i < |s.table| && (s.table[i].Full? ==> s.size > 0)
  {
    var s' := if s.table[i].Full? then RemoveEntry(ops, s, i) else s;
    (s', Populated(s', i))
  }

  predicate OnEntry<K, D>(s: State<K, D>, cursor: Option<nat>) {
    cursor.Some? ==> cursor.value < |s.table| && s.table[cursor.value].Full? && s.size > 0
  }

  /** A loop that visits the entry under its iterator and then either removes it with iter_remove or
      moves on with iter_next; drop decides for each visit. */
  function Sweep<K, D>(ops: KeyOps<K>, s: State<K, D>, cursor: Option<nat>, drop: nat -> bool, visit: nat): (seq<Slot<K, D>>, State<K, D>)
    requires OnEntry(s, cursor)
    decreases s.size, if cursor.Some? then |s.table| - cursor.value else 0
  {
    if cursor.None? then ([], s)
    else
      var i := cursor.value;
      if drop(visit) then
        var (s', next) := IterRemove(ops, s, i);
        var (rest, end) := Sweep(ops, s', next, drop, visit + 1);
        ([s.table[i]] + rest, end)
      else
        var (rest, end) := Sweep(ops, s, Populated(s, i + 1), drop, visit + 1);
        ([s.table[i]] + rest, end)
  }

  /** Deletion never moves an entry from at or after the removed slot to before it. */
  lemma {:induction false} ShiftNeverSkips<K, D>(ops: KeyOps<K>, t: seq<Slot<K, D>>, at: nat, hole: nat, index: nat, steps: nat, j: nat)
    returns (q: nat)
    requires at < |t| && hole < |t| && index < |t|
    requires steps > 0 ==> Dist(|t|, at, hole) < Dist(|t|, at, index)
    requires steps <= Dist(|t|, index, at)
    requires at <= j < |t| && j != hole
    ensures at <= q < |t| && Shift(ops, t, hole, index, steps)[q] == t[j]
    decreases steps
  {
    if steps == 0 || t[index].Empty? {
      q := j;
    } else {
      var home := Home(ops, |t|, t[index].key);
      var next := Next(|t|, index);
      if Dist(|t|, home, index) > Dist(|t|, home, hole) {
        q := ShiftNeverSkips(ops, t[hole := t[index]], at, index, next, steps - 1, if j == index then hole else j);
      } else {
        q := ShiftNeverSkips(ops, t, at, hole, next, steps - 1, j);
      }
    }
  }

  lemma RemoveNeverSkips<K, D>(ops: KeyOps<K>, t: seq<Slot<K, D>>, at: nat, size: nat, j: nat) returns (q: nat)
    requires at < j < |t| && 0 < size <= |t|
    ensures at <= q < |t| && RemoveAt(ops, t, at, size)[q] == t[j]
  {
    q := ShiftNeverSkips(ops, t, at, at, Next(|t|, at), size - 1, j);
  }

  lemma NothingLeft<K(!new), D>(ops: KeyOps<K>, s: State<K, D>, from: nat)
    requires Valid(ops, s) && from <= |s.table| && Populated(s, from) == None
    ensures forall j | from <= j < |s.table| :: s.table[j].Empty?
  {
    FullAtCount(s.table);
    forall j | from <= j < |s.table| ensures s.table[j].Empty? {
      assert s.table[j].Full? <==> j in FullAt(s.table);
    }
  }

  /** The iterator stands on the first entry at or after a position, and on none exactly if there is none. */
  lemma PopulatedIsNext<K(!new), D>(ops: KeyOps<K>, s: State<K, D>, from: nat)
    requires Valid(ops, s) && from <= |s.table|
    ensures var r := Populated(s, from);
      && (r.Some? ==> from <= r.value < |s.table| && s.table[r.value].Full?)
      && (forall j | from <= j < (if r.Some? then r.value else |s.table|) :: s.table[j].Empty?)
  {
    if Populated(s, from) == None {
      NothingLeft(ops, s, from);
    }
  }

  lemma RemovedStillAhead<K(!new), D>(ops: KeyOps<K>, s: State<K, D>, i: nat, ahead: seq<Slot<K, D>>)
    requires Lawful(ops) && Valid(ops, s) && i < |s.table| && s.table[i].Full?
    requires s.size > 0 && var t := RemoveEntry(ops, s, i).table;
      forall q | i <= q < |t| && t[q].Full? :: t[q] in ahead
    ensures forall j | i < j < |s.table| && s.table[j].Full? :: s.table[j] in ahead
  {
    FullAtCount(s.table);
    forall j | i < j < |s.table| && s.table[j].Full? ensures s.table[j] in ahead {
      var q := RemoveNeverSkips(ops, s.table, i, s.size, j);
    }
  }

  lemma AheadGrows<K, D>(t: seq<Slot<K, D>>, from: nat, i: nat, ahead: seq<Slot<K, D>>)
    requires from <= i < |t| && NextFull(t, from) == Some(i)
    requires forall j | i < j < |t| && t[j].Full? :: t[j] in ahead
    ensures forall j | from <= j < |t| && t[j].Full? :: t[j] in [t[i]] + ahead
  {
  }

  /** One visit of the loop: its entry, and the state and cursor it continues from. */
  lemma SweepStep<K, D>(ops: KeyOps<K>, s: State<K, D>, i: nat, drop: nat -> bool, visit: nat)
    returns (s': State<K, D>, next: Option<nat>)
    requires OnEntry(s, Some(i))
    ensures (s', next) == if drop(visit) then IterRemove(ops, s, i) else (s, Populated(s, i + 1))
    ensures OnEntry(s', next)
    ensures var (rest, end) := Sweep(ops, s', next, drop, visit + 1);
      Sweep(ops, s, Some(i), drop, visit) == ([s.table[i]] + rest, end)
  {
    s', next := s, Populated(s, i + 1);
    if drop(visit) {
      var (t, n) := IterRemove(ops, s, i);
      s', next := t, n;
    }
  }

  lemma SweepDone<K, D>(ops: KeyOps<K>, s: State<K, D>, drop: nat -> bool, visit: nat)
    ensures Sweep(ops, s, None, drop, visit) == ([], s)
  {
  }

  lemma AddLast<T>(a: multiset<T>, b: multiset<T>, x: T)
    ensures a + (multiset{x} + b) == (a + b) + multiset{x}
  {
  }

  lemma HeadBag<T>(x: T, rest: seq<T>)
    ensures multiset([x] + rest) == multiset{x} + multiset(rest)
  {
  }

  /** Whatever it drops, the loop visits every entry that was at or after its cursor. */
  lemma {:induction false} SweepVisitsAll<K(!new), D>(ops: KeyOps<K>, s: State<K, D>, cursor: Option<nat>, drop: nat -> bool, visit: nat, from: nat)
    returns (visited: seq<Slot<K, D>>)
    requires Lawful(ops) && Valid(ops, s) && from <= |s.table| && cursor == Populated(s, from)
    ensures OnEntry(s, cursor) && visited == Sweep(ops, s, cursor, drop, visit).0
    ensures forall j | from <= j < |s.table| && s.table[j].Full? :: s.table[j] in visited
    decreases s.size, |s.table| - from
  {
    hide Sweep, Valid, Lawful, Bag;
    if cursor.None? {
      SweepDone(ops, s, drop, visit);
      NothingLeft(ops, s, from);
      visited := [];
    } else {
      var i := cursor.value;
      var s', next := SweepStep(ops, s, i, drop, visit);
      var rest;
      if drop(visit) {
        RemoveEntryAgrees(ops, s, i);
        rest := SweepVisitsAll(ops, s', next, drop, visit + 1, i);
        RemovedStillAhead(ops, s, i, rest);
      } else {
        rest := SweepVisitsAll(ops, s, next, drop, visit + 1, i + 1);
      }
      visited := [s.table[i]] + rest;
      AheadGrows(s.table, from, i, rest);
    }
  }

  /** What is left after the loop is what it was given less exactly the entries it dropped. */
  lemma {:induction false} SweepRemovesDropped<K(!new), D>(ops: KeyOps<K>, s: State<K, D>, cursor: Option<nat>, drop: nat -> bool, visit: nat, from: nat)
    returns (visited: seq<Slot<K, D>>, end: State<K, D>, dropped: multiset<Slot<K, D>>)
    requires Lawful(ops) && Valid(ops, s) && from <= |s.table| && cursor == Populated(s, from)
    ensures OnEntry(s, cursor) && (visited, end) == Sweep(ops, s, cursor, drop, visit)
    ensures dropped == multiset(Dropped(visited, drop, visit))
    ensures Bag(end.table) + dropped == Bag(s.table)
    decreases s.size, |s.table| - from
  {
    hide Sweep, Valid, Lawful, Bag;
    if cursor.None? {
      SweepDone(ops, s, drop, visit);
      visited, end, dropped := [], s, multiset{};
    } else {
      var i := cursor.value;
      var s', next := SweepStep(ops, s, i, drop, visit);
      var rest, d;
      if drop(visit) {
        RemoveEntryAgrees(ops, s, i);
        rest, end, d := SweepRemovesDropped(ops, s', next, drop, visit + 1, i);
        dropped := multiset{s.table[i]} + d;
        AddLast(Bag(end.table), d, s.table[i]);
      } else {
        rest, end, d := SweepRemovesDropped(ops, s, next, drop, visit + 1, i + 1);
        dropped := d;
      }
      visited := [s.table[i]] + rest;
      DroppedHead(s.table[i], rest, drop, visit);
    }
  }

  lemma {:induction false} SweepEndsValid<K(!new), D>(ops: KeyOps<K>, s: State<K, D>, cursor: Option<nat>, drop: nat -> bool, visit: nat, from: nat)
    returns (end: State<K, D>)
    requires Lawful(ops) && Valid(ops, s) && from <= |s.table| && cursor == Populated(s, from)
    ensures OnEntry(s, cursor) && end == Sweep(ops, s, cursor, drop, visit).1 && Valid(ops, end)
    decreases s.size, |s.table| - from
  {
    hide Sweep, Valid, Lawful, Bag;
    if cursor.None? {
      SweepDone(ops, s, drop, visit);
      end := s;
    } else {
      var s', next := SweepStep(ops, s, cursor.value, drop, visit);
      if drop(visit) {
        RemoveEntryAgrees(ops, s, cursor.value);
      }
      end := SweepEndsValid(ops, s', next, drop, visit + 1, if drop(visit) then cursor.value else cursor.value + 1);
    }
  }

  /** The visited entries the loop decided to drop. */
  function Dropped<T>(visited: seq<T>, drop: nat -> bool, visit: nat): seq<T> {
    if visited == [] then []
    else (if drop(visit) then [visited[0]] else []) + Dropped(visited[1..], drop, visit + 1)
  }

  lemma DroppedHead<T>(x: T, rest: seq<T>, drop: nat -> bool, visit: nat)
    ensures multiset(Dropped([x] + rest, drop, visit)) ==
      (if drop(visit) then multiset{x} else multiset{}) + multiset(Dropped(rest, drop, visit + 1))
  {
    assert ([x] + rest)[1..] == rest;
  }

  lemma EmptyTail<K, D>(t: seq<Slot<K, D>>)
    requires forall j | 0 <= j < |t| :: t[j].Empty?
    ensures Bag(t) == multiset{}
  {
    forall x ensures Bag(t)[x] == 0 {
      assert x in multiset(t) <==> x in t;
    }
  }

  predicate Never(visit: nat) {
    false
  }

  lemma {:induction false} ForeachFrom<K(!new), D>(ops: KeyOps<K>, s: State<K, D>, cursor: Option<nat>, visit: nat, from: nat)
    returns (visited: seq<Slot<K, D>>)
    requires Lawful(ops) && Valid(ops, s) && from <= |s.table| && cursor == Populated(s, from)
    ensures OnEntry(s, cursor) && Sweep(ops, s, cursor, Never, visit) == (visited, s)
    ensures multiset(visited) == Bag(s.table[from..])
    decreases |s.table| - from
  {
    hide Sweep, Valid, Lawful, Bag;
    if cursor.None? {
      SweepDone(ops, s, Never, visit);
      NothingLeft(ops, s, from);
      EmptyTail(s.table[from..]);
      visited := [];
    } else {
      var i := cursor.value;
      var _, next := SweepStep(ops, s, i, Never, visit);
      var rest := ForeachFrom(ops, s, next, visit + 1, i + 1);
      TailBag(s.table, from, i);
      HeadBag(s.table[i], rest);
      visited := [s.table[i]] + rest;
    }
  }

  /** hashmap_foreach: a loop that removes nothing visits each entry exactly once, so it runs exactly
      size times. */
  lemma ForeachVisitsOnce<K(!new), D>(ops: KeyOps<K>, s: State<K, D>)
    requires Lawful(ops) && Valid(ops, s)
    ensures OnEntry(s, Populated(s, 0))
    ensures var (visited, end) := Sweep(ops, s, Populated(s, 0), Never, 0);
      end == s && multiset(visited) == Bag(s.table) && |visited| == s.size
  {
    var visited := ForeachFrom(ops, s, Populated(s, 0), 0, 0);
    assert s.table[0..] == s.table;
    assert |multiset(visited)| == |visited|;
    CountIsBag(s.table);
  }

  lemma {:induction false} TailBag<K, D>(t: seq<Slot<K, D>>, from: nat, i: nat)
    requires from <= i < |t| && t[i].Full?
    requires forall j | from <= j < i :: t[j].Empty?
    ensures Bag(t[from..]) == multiset{t[i]} + Bag(t[i + 1..])
    decreases i - from
  {
    assert t[from..] == [t[from]] + t[from + 1..];
    assert multiset(t[from..]) == multiset{t[from]} + multiset(t[from + 1..]);
    if from < i {
      TailBag(t, from + 1, i);
    }
  }

  // ----- why unbroken chains are not enough -----

  const TIGHT_OPS := KeyOps((k: nat) => k, (a: nat, b: nat) => a - b)
  const TIGHT: seq<Slot<nat, nat>> := [Full(0, 0), Full(2, 0), Full(1, 0), Full(3, 0)]
  const TIGHT_LESS: seq<Slot<nat, nat>> := [Full(2, 0), Full(1, 0), Empty, Full(3, 0)]

  lemma TightRemoval()
    ensures RemoveAt(TIGHT_OPS, TIGHT, 0, 4) == TIGHT_LESS
  {
    var t1 := [Full(2, 0), Full(2, 0), Full(1, 0), Full(3, 0)];
    var t2 := [Full(2, 0), Full(1, 0), Full(1, 0), Full(3, 0)];
    assert TIGHT[0 := TIGHT[1]] == t1;
    assert t1[1 := t1[2]] == t2;
    assert Shift(TIGHT_OPS, TIGHT, 0, 1, 3) == Shift(TIGHT_OPS, t1, 1, 2, 2);
    assert Shift(TIGHT_OPS, t1, 1, 2, 2) == Shift(TIGHT_OPS, t2, 2, 3, 1);
    assert Shift(TIGHT_OPS, t2, 2, 3, 1) == Shift(TIGHT_OPS, t2, 2, 0, 0);
  }

  lemma TightHasNoCut(z: nat)
    requires z < 4
    ensures !Cut(TIGHT_OPS, TIGHT, z)
  {
    var j := if z == 1 then 2 else 1;
    assert TIGHT[j].Full? && OnPath(4, Home(TIGHT_OPS, 4, TIGHT[j].key), z, j);
  }

  lemma TightLookups()
    ensures Find(TIGHT_OPS, TIGHT, 2, false) == Some(1)
    ensures Find(TIGHT_OPS, TIGHT_LESS, 2, false) == None
  {
    assert Probe(TIGHT_OPS, TIGHT, 2, false, 2, 4) == Probe(TIGHT_OPS, TIGHT, 2, false, 3, 3);
    assert Probe(TIGHT_OPS, TIGHT, 2, false, 3, 3) == Probe(TIGHT_OPS, TIGHT, 2, false, 0, 2);
    assert Probe(TIGHT_OPS, TIGHT, 2, false, 0, 2) == Probe(TIGHT_OPS, TIGHT, 2, false, 1, 1);
  }

  /** In a completely full table the chain condition says nothing. This one satisfies it, and deleting its
      first entry strands key 2. No run can build it: every reachable table has a slot that no chain
      crosses. */
  lemma FullTableNeedsCut()
    ensures Chained(TIGHT_OPS, TIGHT) && !Linked(TIGHT_OPS, TIGHT)
    ensures Find(TIGHT_OPS, TIGHT, 2, false) == Some(1)
    ensures Full(2, 0) in RemoveAt(TIGHT_OPS, TIGHT, 0, 4)
    ensures Find(TIGHT_OPS, RemoveAt(TIGHT_OPS, TIGHT, 0, 4), 2, false) == None
  {
    TightRemoval();
    TightLookups();
    forall z: nat | z < 4 ensures !Cut(TIGHT_OPS, TIGHT, z) {
      TightHasNoCut(z);
    }
    assert TIGHT_LESS[0] == Full(2, 0);
  }
}
