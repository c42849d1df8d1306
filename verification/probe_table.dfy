/** The open-addressing table of hashmap.c as a value: slots, cyclic probing, insertion into a free
    slot and backward-shift deletion, with the invariant that makes lookups find what was stored.
    A slot whose key pointer is NULL is Empty. */
module ProbeTable {
  import opened Wrappers

  /** The hash and compare callbacks of struct hashmap_base; hash stands for the caller's hash
      followed by the secondary hash of hashmap_calc_index. */
  datatype KeyOps<!K> = KeyOps(hash: K -> nat, compare: (K, K) -> int) {
    predicate Same(a: K, b: K) {
      compare(a, b) == 0
    }
  }

  /** What hashmap_base_init asks of its callbacks: matching is an equivalence that hash respects. */
  ghost predicate Lawful<K(!new)>(ops: KeyOps<K>) {
    && (forall a :: ops.Same(a, a))
    && (forall a, b :: ops.Same(a, b) ==> ops.Same(b, a) && ops.hash(a) == ops.hash(b))
    && (forall a, b, c :: ops.Same(a, b) && ops.Same(b, c) ==> ops.Same(a, c))
  }

  datatype Slot<K, D> = Empty | Full(key: K, data: D)

  // ----- cyclic positions -----

  /** HASHMAP_PROBE_NEXT. */
  function Next(n: nat, i: nat): nat
    requires i < n
  {
    if i + 1 == n then 0 else i + 1
  }

  /** HASHMAP_SIZE_MOD(map, to - from): steps from one slot forward to another. */
  function Dist(n: nat, from: nat, to: nat): nat
    requires from < n && to < n
  {
    if from <= to then to - from else to + n - from
  }

  function Home<K>(ops: KeyOps<K>, n: nat, key: K): (h: nat)
    requires n > 0
    ensures h < n
  {
    ops.hash(key) % n
  }

  // ----- the table invariant -----

  /** p lies on the probe path that leads from h up to, but not including, j. */
  predicate OnPath(n: nat, h: nat, p: nat, j: nat)
    requires h < n && p < n && j < n
  {
    Dist(n, h, p) < Dist(n, h, j)
  }

  ghost predicate Chained<K, D>(ops: KeyOps<K>, t: seq<Slot<K, D>>) {
    forall j, p {:trigger OnPath(|t|, Home(ops, |t|, t[j].key), p, j)} | 0 <= j < |t| && 0 <= p < |t| && t[j].Full? ::
      OnPath(|t|, Home(ops, |t|, t[j].key), p, j) ==> t[p].Full?
  }

  /** No entry's probe path runs through slot z. */
  ghost predicate Cut<K, D>(ops: KeyOps<K>, t: seq<Slot<K, D>>, z: nat)
    requires z < |t|
  {
    forall j | 0 <= j < |t| && t[j].Full? :: !OnPath(|t|, Home(ops, |t|, t[j].key), z, j)
  }

  /** Chains are unbroken, and some slot is crossed by none of them. The second part is free while a
      slot is empty and is what deletion needs once the table is completely full. */
  ghost predicate Linked<K, D>(ops: KeyOps<K>, t: seq<Slot<K, D>>) {
    && Chained(ops, t)
    && (|t| > 0 ==> exists z: nat | z < |t| :: Cut(ops, t, z))
  }

  /** Keys are told apart by compare, each stored once. */
  ghost predicate UniqueKeys<K, D>(ops: KeyOps<K>, b: multiset<Slot<K, D>>) {
    forall x, y {:trigger ops.Same(x.key, y.key)} | x in b && y in b && x.Full? && y.Full? && ops.Same(x.key, y.key) ::
      x == y && b[x] == 1
  }

  ghost function Keys<K, D>(b: multiset<Slot<K, D>>): set<K> {
    set x | x in b && x.Full? :: x.key
  }

  /** The finite map a table stands for: from stored key pointers to data pointers. */
  ghost function Model<K, D>(b: multiset<Slot<K, D>>): map<K, D> {
    map k | k in Keys(b) :: (var x :| x in b && x.Full? && x.key == k; x.data)
  }

  /** The entries of a table, without their positions. */
  ghost function Bag<K, D>(t: seq<Slot<K, D>>): multiset<Slot<K, D>> {
    multiset(t)[Empty := 0]
  }

  ghost function FullAt<K, D>(t: seq<Slot<K, D>>): set<nat> {
    set i: nat | i < |t| && t[i].Full?
  }

  /** Number of entries. */
  ghost function Count<K, D>(t: seq<Slot<K, D>>): (c: nat)
    ensures c <= |t|
  {
    if t == [] then 0 else Count(t[..|t| - 1]) + if t[|t| - 1].Full? then 1 else 0
  }

  lemma ModelHas<K, D>(ops: KeyOps<K>, b: multiset<Slot<K, D>>, x: Slot<K, D>)
    requires UniqueKeys(ops, b) && x in b && x.Full? && ops.Same(x.key, x.key)
    ensures x.key in Model(b) && Model(b)[x.key] == x.data
  {
    assert x.key in Keys(b);
  }

  lemma ModelSlot<K, D>(b: multiset<Slot<K, D>>, k: K)
    requires k in Model(b)
    ensures Full(k, Model(b)[k]) in b
  {
  }

  lemma BagUpdate<K, D>(t: seq<Slot<K, D>>, i: nat, x: Slot<K, D>)
    requires i < |t|
    ensures Bag(t[i := x]) == (Bag(t) - multiset{t[i]} + multiset{x})[Empty := 0]
  {
    assert multiset(t[i := x]) == multiset(t) - multiset{t[i]} + multiset{x};
  }

  lemma BagHas<K, D>(t: seq<Slot<K, D>>, i: nat)
    requires i < |t| && t[i].Full?
    ensures t[i] in Bag(t)
  {
    assert t[i] in multiset(t);
  }

  lemma BagIndex<K, D>(t: seq<Slot<K, D>>, x: Slot<K, D>) returns (i: nat)
    requires x in Bag(t)
    ensures i < |t| && t[i] == x && x.Full?
  {
    assert x in t;
    i :| i < |t| && t[i] == x;
  }

  lemma TwoSlots<K, D>(t: seq<Slot<K, D>>, i: nat, j: nat)
    requires i < |t| && j < |t| && i != j && t[i] == t[j] && t[i].Full?
    ensures Bag(t)[t[i]] >= 2
  {
    var u := t[i := Empty];
    assert u[j] in multiset(u);
    assert multiset(u) == multiset(t) - multiset{t[i]} + multiset{Empty};
  }

  /** At most one slot matches a key. */
  lemma MatchIsUnique<K(!new), D>(ops: KeyOps<K>, t: seq<Slot<K, D>>, key: K, i: nat, j: nat)
    requires Lawful(ops) && UniqueKeys(ops, Bag(t))
    requires i < |t| && j < |t| && t[i].Full? && t[j].Full?
    requires ops.Same(key, t[i].key) && ops.Same(key, t[j].key)
    ensures i == j
  {
    BagHas(t, i);
    BagHas(t, j);
    assert ops.Same(t[i].key, key);
    assert ops.Same(t[i].key, t[j].key);
    if i != j {
      TwoSlots(t, i, j);
    }
  }

  lemma {:induction false} CountIsBag<K, D>(t: seq<Slot<K, D>>)
    ensures Count(t) == |Bag(t)|
  {
    if t != [] {
      var m := |t| - 1;
      var u := t[..m];
      CountIsBag(u);
      assert t == u + [t[m]];
      assert multiset(t) == multiset(u) + multiset{t[m]};
      assert Bag(t) == Bag(u) + (if t[m].Full? then multiset{t[m]} else multiset{});
    }
  }

  lemma {:induction false} FullAtCount<K, D>(t: seq<Slot<K, D>>)
    ensures |FullAt(t)| == Count(t)
  {
    if |t| == 0 {
      assert FullAt(t) == {};
    } else {
      var m := |t| - 1;
      var u := t[..m];
      FullAtCount(u);
      assert FullAt(t) == FullAt(u) + if t[m].Full? then {m} else {};
    }
  }

  lemma {:induction false} NoRoom<K, D>(t: seq<Slot<K, D>>)
    ensures (forall i | 0 <= i < |t| :: t[i].Full?) <==> Count(t) == |t|
  {
    if t != [] {
      var m := |t| - 1;
      var u := t[..m];
      NoRoom(u);
      assert forall i | 0 <= i < m :: t[i] == u[i];
    }
  }

  // ----- lookup -----

  /** The probe loop of hashmap_entry_find. */
  function Probe<K, D>(ops: KeyOps<K>, t: seq<Slot<K, D>>, key: K, findEmpty: bool, index: nat, steps: nat): (r: Option<nat>)
    requires index < |t|
    ensures r.Some? ==> r.value < |t|
    decreases steps
  {
    if steps == 0 then None
    else if t[index].Empty? then (if findEmpty then Some(index) else None)
    else if ops.Same(key, t[index].key) then Some(index)
    else Probe(ops, t, key, findEmpty, Next(|t|, index), steps - 1)
  }

  /** hashmap_entry_find. */
  function Find<K, D>(ops: KeyOps<K>, t: seq<Slot<K, D>>, key: K, findEmpty: bool): (r: Option<nat>)
    ensures r.Some? ==> r.value < |t|
  {
    if |t| == 0 then None else Probe(ops, t, key, findEmpty, Home(ops, |t|, key), |t|)
  }

  /** The first d slots from the key's home are taken by other keys. */
  ghost predicate Scanned<K, D>(ops: KeyOps<K>, t: seq<Slot<K, D>>, key: K, d: nat)
    requires |t| > 0
  {
    forall p | 0 <= p < |t| && Dist(|t|, Home(ops, |t|, key), p) < d ::
      t[p].Full? && !ops.Same(key, t[p].key)
  }

  ghost predicate Found<K, D>(ops: KeyOps<K>, t: seq<Slot<K, D>>, key: K, findEmpty: bool, r: Option<nat>)
    requires |t| > 0
  {
    match r
    case Some(i) =>
      && i < |t|
      && Scanned(ops, t, key, Dist(|t|, Home(ops, |t|, key), i))
      && (if t[i].Empty? then findEmpty else ops.Same(key, t[i].key))
    case None =>
      || Scanned(ops, t, key, |t|)
      || (!findEmpty && exists i: nat | i < |t| :: t[i].Empty? && Scanned(ops, t, key, Dist(|t|, Home(ops, |t|, key), i)))
  }

  lemma {:induction false} ProbeFinds<K, D>(ops: KeyOps<K>, t: seq<Slot<K, D>>, key: K, findEmpty: bool, index: nat, steps: nat)
    requires index < |t| && steps <= |t|
    requires Scanned(ops, t, key, |t| - steps)
    requires steps > 0 ==> Dist(|t|, Home(ops, |t|, key), index) == |t| - steps
    ensures Found(ops, t, key, findEmpty, Probe(ops, t, key, findEmpty, index, steps))
    decreases steps
  {
    if steps > 0 && t[index].Full? && !ops.Same(key, t[index].key) {
      ProbeFinds(ops, t, key, findEmpty, Next(|t|, index), steps - 1);
    }
  }

  /** An unbroken chain cannot hide a key behind the free slot its probe stops at. */
  lemma NothingBehindFreeSlot<K(!new), D>(ops: KeyOps<K>, t: seq<Slot<K, D>>, key: K, i: nat, j: nat)
    requires Lawful(ops) && Chained(ops, t)
    requires i < |t| && t[i].Empty? && Scanned(ops, t, key, Dist(|t|, Home(ops, |t|, key), i))
    requires j < |t| && t[j].Full?
    ensures !ops.Same(key, t[j].key)
  {
    var k, n := t[j].key, |t|;
    var h, h' := Home(ops, n, key), Home(ops, n, k);
    var crossed := OnPath(n, h', i, j);
    assert ops.Same(key, k) ==> h == h';
    assert !crossed;
  }

  /** Lookup is complete: Find reports a slot for a stored key exactly when some slot matches it, and
      with findEmpty it otherwise yields a free slot that the key's chain reaches, if any is free. */
  lemma FindIsComplete<K(!new), D>(ops: KeyOps<K>, t: seq<Slot<K, D>>, key: K, findEmpty: bool)
    requires Lawful(ops) && Linked(ops, t)
    ensures var r := Find(ops, t, key, findEmpty);
      if exists j :: 0 <= j < |t| && t[j].Full? && ops.Same(key, t[j].key) then
        r.Some? && t[r.value].Full? && ops.Same(key, t[r.value].key)
      else if findEmpty && Count(t) < |t| then
        r.Some? && t[r.value].Empty? && Scanned(ops, t, key, Dist(|t|, Home(ops, |t|, key), r.value))
      else r.None?
  {
    NoRoom(t);
    if |t| > 0 {
      var r := Find(ops, t, key, findEmpty);
      ProbeFinds(ops, t, key, findEmpty, Home(ops, |t|, key), |t|);
      if r.Some? && t[r.value].Empty? {
        forall j | 0 <= j < |t| && t[j].Full? ensures !ops.Same(key, t[j].key) {
          NothingBehindFreeSlot(ops, t, key, r.value, j);
        }
      }
      if r.None? && !Scanned(ops, t, key, |t|) {
        var i: nat :| i < |t| && t[i].Empty? && Scanned(ops, t, key, Dist(|t|, Home(ops, |t|, key), i));
        forall j | 0 <= j < |t| && t[j].Full? ensures !ops.Same(key, t[j].key) {
          NothingBehindFreeSlot(ops, t, key, i, j);
        }
      }
    }
  }

  // ----- insertion -----

  lemma InsertLinks<K(!new), D>(ops: KeyOps<K>, t: seq<Slot<K, D>>, key: K, i: nat, x: Slot<K, D>)
    requires Lawful(ops) && Linked(ops, t)
    requires i < |t| && t[i].Empty? && x.Full? && ops.Same(key, x.key)
    requires Scanned(ops, t, key, Dist(|t|, Home(ops, |t|, key), i))
    ensures Linked(ops, t[i := x])
  {
    assert Home(ops, |t|, key) == Home(ops, |t|, x.key);
    assert Cut(ops, t[i := x], i);
  }

  lemma InsertIntoKeys<K(!new), D>(ops: KeyOps<K>, b: multiset<Slot<K, D>>, x: Slot<K, D>)
    requires Lawful(ops) && UniqueKeys(ops, b) && x.Full?
    requires forall y | y in b && y.Full? :: !ops.Same(x.key, y.key)
    ensures UniqueKeys(ops, b + multiset{x}) && Keys(b + multiset{x}) == Keys(b) + {x.key}
  {
    var c := b + multiset{x};
    assert x !in b;
    forall y, z | y in c && z in c && y.Full? && z.Full? && ops.Same(y.key, z.key)
      ensures y == z && c[y] == 1
    {
      assert ops.Same(z.key, y.key);
    }
    forall k ensures k in Keys(c) <==> k == x.key || k in Keys(b) {
      if k in Keys(b) {
        var y :| y in b && y.Full? && y.key == k;
        assert y in c;
      }
      assert x in c;
    }
  }

  lemma InsertIntoModel<K(!new), D>(ops: KeyOps<K>, b: multiset<Slot<K, D>>, x: Slot<K, D>)
    requires Lawful(ops) && UniqueKeys(ops, b) && x.Full?
    requires forall y | y in b && y.Full? :: !ops.Same(x.key, y.key)
    ensures UniqueKeys(ops, b + multiset{x}) && Model(b + multiset{x}) == Model(b)[x.key := x.data]
  {
    var c := b + multiset{x};
    InsertIntoKeys(ops, b, x);
    forall k | k in Keys(c) ensures Model(c)[k] == Model(b)[x.key := x.data][k] {
      ModelSlot(c, k);
      var y := Full(k, Model(c)[k]);
      if y != x {
        assert y in b;
        ModelHas(ops, b, y);
      }
    }
  }

  // ----- backward-shift deletion -----

  /** The loop of hashmap_entry_remove. The slot at hole still holds stale contents; it is cleared
      when the loop ends. */
  function Shift<K, D>(ops: KeyOps<K>, t: seq<Slot<K, D>>, hole: nat, index: nat, steps: nat): (r: seq<Slot<K, D>>)
    requires hole < |t| && index < |t|
    ensures |r| == |t|
    decreases steps
  {
    if steps == 0 || t[index].Empty? then t[hole := Empty]
    else
      var home := Home(ops, |t|, t[index].key);
      if Dist(|t|, home, index) > Dist(|t|, home, hole) then
        Shift(ops, t[hole := t[index]], index, Next(|t|, index), steps - 1)
      else
        Shift(ops, t, hole, Next(|t|, index), steps - 1)
  }

  /** hashmap_entry_remove on a table with size entries, size counting the removed one. */
  function RemoveAt<K, D>(ops: KeyOps<K>, t: seq<Slot<K, D>>, at: nat, size: nat): (r: seq<Slot<K, D>>)
    requires at < |t| && size > 0
    ensures |r| == |t|
  {
    Shift(ops, t, at, Next(|t|, at), size - 1)
  }

  lemma MoveKeepsBag<T>(s: seq<T>, i: nat, j: nat, e: T)
    requires i < |s| && j < |s| && i != j
    ensures multiset(s[i := s[j]][j := e]) == multiset(s[i := e])
  {
    var rest := multiset(s) - multiset{s[i]};
    var moved := s[i := s[j]];
    assert multiset(s[i := e]) == rest + multiset{e};
    assert multiset(moved) == rest + multiset{s[j]};
    assert multiset(moved[j := e]) == multiset(moved) - multiset{s[j]} + multiset{e};
  }

  /** What one iteration of the scan does to the table and the hole. */
  ghost predicate Scans<K, D>(ops: KeyOps<K>, t: seq<Slot<K, D>>, hole: nat, index: nat, u: seq<Slot<K, D>>, hole': nat)
    requires hole < |t| && index < |t|
  {
    && t[index].Full?
    && var home := Home(ops, |t|, t[index].key);
      if Dist(|t|, home, index) > Dist(|t|, home, hole) then u == t[hole := t[index]] && hole' == index
      else u == t && hole' == hole
  }

  lemma ScanOnce<K, D>(ops: KeyOps<K>, t: seq<Slot<K, D>>, hole: nat, index: nat, steps: nat)
    returns (u: seq<Slot<K, D>>, hole': nat)
    requires hole < |t| && index < |t| && steps > 0 && t[index].Full?
    ensures |u| == |t| && hole' < |t|
    ensures Scans(ops, t, hole, index, u, hole')
    ensures Shift(ops, t, hole, index, steps) == Shift(ops, u, hole', Next(|t|, index), steps - 1)
  {
    var home := Home(ops, |t|, t[index].key);
    if Dist(|t|, home, index) > Dist(|t|, home, hole) {
      u, hole' := t[hole := t[index]], index;
    } else {
      u, hole' := t, hole;
    }
  }

  lemma ScanKeepsBag<K, D>(ops: KeyOps<K>, t: seq<Slot<K, D>>, hole: nat, index: nat, u: seq<Slot<K, D>>, hole': nat)
    requires hole < |t| && index < |t| && hole != index && Scans(ops, t, hole, index, u, hole')
    ensures hole' < |u| == |t| && multiset(u[hole' := Empty]) == multiset(t[hole := Empty])
  {
    MoveKeepsBag(t, hole, index, Empty);
  }

  /** Scanning on brings the next slot closer to the origin, and never reaches it. */
  lemma ScanGoesOn(n: nat, origin: nat, hole: nat, index: nat, steps: nat)
    requires origin < n && hole < n && index < n && 0 < steps <= Dist(n, index, origin)
    requires Dist(n, origin, hole) < Dist(n, origin, index)
    ensures hole != index && steps - 1 <= Dist(n, Next(n, index), origin)
    ensures steps > 1 ==> Dist(n, origin, index) < Dist(n, origin, Next(n, index))
  {
  }

  lemma ShiftStops<K, D>(ops: KeyOps<K>, t: seq<Slot<K, D>>, hole: nat, index: nat, steps: nat)
    requires hole < |t| && index < |t| && (steps == 0 || t[index].Empty?)
    ensures Shift(ops, t, hole, index, steps) == t[hole := Empty]
  {
  }

  /** Deletion only rearranges the other entries. */
  lemma {:induction false} ShiftPermutes<K, D>(ops: KeyOps<K>, t: seq<Slot<K, D>>, origin: nat, hole: nat, index: nat, steps: nat)
    requires origin < |t| && hole < |t| && index < |t|
    requires steps > 0 ==> Dist(|t|, origin, hole) < Dist(|t|, origin, index)
    requires steps <= Dist(|t|, index, origin)
    ensures multiset(Shift(ops, t, hole, index, steps)) == multiset(t[hole := Empty])
    decreases steps
  {
    hide Shift, Dist, Home;
    if steps == 0 || t[index].Empty? {
      ShiftStops(ops, t, hole, index, steps);
    } else {
      ScanGoesOn(|t|, origin, hole, index, steps);
      var u, hole' := ScanOnce(ops, t, hole, index, steps);
      ScanKeepsBag(ops, t, hole, index, u, hole');
      ShiftPermutes(ops, u, origin, hole', Next(|t|, index), steps - 1);
    }
  }

  /** Position of p in the order that starts right after the cut z. */
  function Off(n: nat, z: nat, p: nat): nat
    requires z < n && p < n
  {
    Dist(n, Next(n, z), p)
  }

  /** Across a cut the cyclic order is a plain one: paths are intervals. */
  lemma CutOrder(n: nat, z: nat, h: nat, p: nat, j: nat)
    requires z < n && h < n && p < n && j < n
    ensures !OnPath(n, h, z, j) <==> Off(n, z, h) <= Off(n, z, j)
    ensures Off(n, z, h) <= Off(n, z, j) ==> (OnPath(n, h, p, j) <==> Off(n, z, h) <= Off(n, z, p) < Off(n, z, j))
  {
  }

  /** Every entry sits at or after its home, and its chain is unbroken except that entries not yet
      scanned may have the hole on their path. */
  ghost predicate Pending<K, D>(ops: KeyOps<K>, t: seq<Slot<K, D>>, z: nat, hole: nat, from: nat)
    requires z < |t| && hole < |t|
  {
    && (forall j | 0 <= j < |t| && j != hole && t[j].Full? ::
          Off(|t|, z, Home(ops, |t|, t[j].key)) <= Off(|t|, z, j))
    && (forall j, p | 0 <= j < |t| && 0 <= p < |t| && j != hole && t[j].Full?
          && Off(|t|, z, Home(ops, |t|, t[j].key)) <= Off(|t|, z, p) < Off(|t|, z, j) ::
          if p == hole then from <= Off(|t|, z, j) else t[p].Full?)
  }

  ghost function Unscanned<K, D>(t: seq<Slot<K, D>>, z: nat, from: nat): set<nat>
    requires z < |t|
  {
    set j: nat | j < |t| && t[j].Full? && from <= Off(|t|, z, j)
  }

  lemma PendingDone<K, D>(ops: KeyOps<K>, t: seq<Slot<K, D>>, z: nat, hole: nat, from: nat)
    requires z < |t| && hole < |t|
    requires Pending(ops, t, z, hole, from)
    requires forall j | 0 <= j < |t| && j != hole && t[j].Full? && from <= Off(|t|, z, j) ::
      !(Off(|t|, z, Home(ops, |t|, t[j].key)) <= Off(|t|, z, hole) < Off(|t|, z, j))
    ensures Chained(ops, t[hole := Empty])
  {
    hide Dist, Off, OnPath, Home;
    var u := t[hole := Empty];
    forall j, p | 0 <= j < |u| && 0 <= p < |u| && u[j].Full? && OnPath(|u|, Home(ops, |u|, u[j].key), p, j)
      ensures u[p].Full?
    {
      CutOrder(|t|, z, Home(ops, |t|, t[j].key), p, j);
      assert u[p] == if p == hole then Empty else t[p];
    }
  }

  /** Once the scan has wrapped past the cut nothing moves any more. */
  lemma {:induction false} ShiftPastCut<K, D>(ops: KeyOps<K>, t: seq<Slot<K, D>>, z: nat, hole: nat, index: nat, steps: nat)
    requires z < |t| && hole < |t| && index < |t|
    requires Off(|t|, z, index) + steps <= Off(|t|, z, hole)
    requires forall j | 0 <= j < |t| && j != hole && t[j].Full? ::
      Off(|t|, z, Home(ops, |t|, t[j].key)) <= Off(|t|, z, j)
    ensures Shift(ops, t, hole, index, steps) == t[hole := Empty]
    decreases steps
  {
    if steps > 0 && t[index].Full? {
      var home := Home(ops, |t|, t[index].key);
      CutOrder(|t|, z, home, hole, index);
      ShiftPastCut(ops, t, z, hole, Next(|t|, index), steps - 1);
    }
  }

  lemma ScanKeepsPending<K, D>(ops: KeyOps<K>, t: seq<Slot<K, D>>, z: nat, hole: nat, index: nat, u: seq<Slot<K, D>>, hole': nat)
    requires z < |t| && hole < |t| && index < |t|
    requires Off(|t|, z, hole) < Off(|t|, z, index)
    requires Pending(ops, t, z, hole, Off(|t|, z, index))
    requires Scans(ops, t, hole, index, u, hole')
    ensures Pending(ops, u, z, hole', Off(|t|, z, index) + 1)
  {
    CutOrder(|t|, z, Home(ops, |t|, t[index].key), hole, index);
  }

  lemma UnscannedStep<K, D>(t: seq<Slot<K, D>>, z: nat, hole: nat, index: nat, u: seq<Slot<K, D>>)
    requires z < |t| && hole < |t| && index < |t| && t[index].Full?
    requires Off(|t|, z, hole) < Off(|t|, z, index)
    requires u == t || u == t[hole := t[index]]
    ensures |Unscanned(u, z, Off(|t|, z, index) + 1)| == |Unscanned(t, z, Off(|t|, z, index))| - 1
  {
    assert Unscanned(u, z, Off(|t|, z, index) + 1) == Unscanned(t, z, Off(|t|, z, index)) - {index};
  }

  lemma NoneUnscanned<K, D>(t: seq<Slot<K, D>>, z: nat, from: nat)
    requires z < |t| && |Unscanned(t, z, from)| == 0
    ensures forall j | 0 <= j < |t| && t[j].Full? :: Off(|t|, z, j) < from
  {
    forall j | 0 <= j < |t| && t[j].Full? ensures Off(|t|, z, j) < from {
      assert j in Unscanned(t, z, from) <==> from <= Off(|t|, z, j);
    }
  }

  lemma ShiftEnds<K, D>(ops: KeyOps<K>, t: seq<Slot<K, D>>, z: nat, hole: nat, index: nat)
    requires z < |t| && hole < |t| && index < |t|
    requires Off(|t|, z, hole) < Off(|t|, z, index)
    requires Pending(ops, t, z, hole, Off(|t|, z, index))
    requires t[index].Empty? || forall j | 0 <= j < |t| && t[j].Full? :: Off(|t|, z, j) < Off(|t|, z, index)
    ensures Chained(ops, t[hole := Empty])
  {
    PendingDone(ops, t, z, hole, Off(|t|, z, index));
  }

  lemma AllScanned<K, D>(ops: KeyOps<K>, t: seq<Slot<K, D>>, z: nat, hole: nat, index: nat, steps: nat)
    requires z < |t| && hole < |t| && index < |t|
    requires Pending(ops, t, z, hole, |t|)
    requires Off(|t|, z, index) + steps <= Off(|t|, z, hole)
    ensures Chained(ops, Shift(ops, t, hole, index, steps))
  {
    PendingDone(ops, t, z, hole, |t|);
    ShiftPastCut(ops, t, z, hole, index, steps);
  }

  lemma ScanAdvances(n: nat, z: nat, origin: nat, index: nat)
    requires z < n && origin < n && index < n && Off(n, z, origin) < Off(n, z, index)
    ensures Dist(n, Next(n, index), origin) == Dist(n, index, origin) - 1
    ensures if index == z then Off(n, z, Next(n, index)) == 0 && Dist(n, index, origin) == Off(n, z, origin) + 1
      else Off(n, z, Next(n, index)) == Off(n, z, index) + 1
  {
  }

  /** What the scan maintains until it runs out of entries or reaches the cut. */
  ghost predicate Scanning<K, D>(ops: KeyOps<K>, t: seq<Slot<K, D>>, z: nat, origin: nat, hole: nat, index: nat, steps: nat) {
    && z < |t| && origin < |t| && hole < |t| && index < |t|
    && Off(|t|, z, origin) <= Off(|t|, z, hole) < Off(|t|, z, index)
    && steps <= Dist(|t|, index, origin)
    && Pending(ops, t, z, hole, Off(|t|, z, index))
    && |Unscanned(t, z, Off(|t|, z, index))| <= steps
  }

  lemma ScanningEnds<K, D>(ops: KeyOps<K>, t: seq<Slot<K, D>>, z: nat, origin: nat, hole: nat, index: nat, steps: nat)
    requires Scanning(ops, t, z, origin, hole, index, steps)
    requires steps == 0 || t[index].Empty?
    ensures Chained(ops, t[hole := Empty])
  {
    if steps == 0 {
      NoneUnscanned(t, z, Off(|t|, z, index));
    }
    ShiftEnds(ops, t, z, hole, index);
  }

  lemma OffBound(n: nat, z: nat, p: nat)
    requires z < n && p < n
    ensures Off(n, z, p) < n && Off(n, z, z) == n - 1
  {
  }

  lemma ScanningWraps<K, D>(ops: KeyOps<K>, t: seq<Slot<K, D>>, z: nat, origin: nat, hole: nat, index: nat, steps: nat,
                            u: seq<Slot<K, D>>, hole': nat)
    requires Scanning(ops, t, z, origin, hole, index, steps) && steps > 0 && index == z
    requires Scans(ops, t, hole, index, u, hole')
    ensures Chained(ops, Shift(ops, u, hole', Next(|t|, index), steps - 1))
  {
    hide Pending, Unscanned, Chained, Shift, Home;
    ScanKeepsPending(ops, t, z, hole, index, u, hole');
    ScanAdvances(|t|, z, origin, index);
    OffBound(|t|, z, index);
    AllScanned(ops, u, z, hole', Next(|t|, index), steps - 1);
  }

  lemma ScanningGoesOn<K, D>(ops: KeyOps<K>, t: seq<Slot<K, D>>, z: nat, origin: nat, hole: nat, index: nat, steps: nat,
                             u: seq<Slot<K, D>>, hole': nat)
    requires Scanning(ops, t, z, origin, hole, index, steps) && steps > 0 && index != z
    requires Scans(ops, t, hole, index, u, hole')
    ensures Scanning(ops, u, z, origin, hole', Next(|t|, index), steps - 1)
  {
    hide Pending, Unscanned;
    ScanKeepsPending(ops, t, z, hole, index, u, hole');
    ScanAdvances(|t|, z, origin, index);
    UnscannedStep(t, z, hole, index, u);
  }

  lemma {:induction false} ShiftKeepsChains<K, D>(ops: KeyOps<K>, t: seq<Slot<K, D>>, z: nat, origin: nat, hole: nat, index: nat, steps: nat)
    returns (r: seq<Slot<K, D>>)
    requires Scanning(ops, t, z, origin, hole, index, steps)
    ensures r == Shift(ops, t, hole, index, steps) && Chained(ops, r)
    decreases steps
  {
    hide Pending, Unscanned, Chained, Off, Dist, Home;
    if steps == 0 || t[index].Empty? {
      ScanningEnds(ops, t, z, origin, hole, index, steps);
      r := t[hole := Empty];
    } else {
      var u, hole' := ScanOnce(ops, t, hole, index, steps);
      if index == z {
        ScanningWraps(ops, t, z, origin, hole, index, steps, u, hole');
        r := Shift(ops, u, hole', Next(|t|, index), steps - 1);
      } else {
        ScanningGoesOn(ops, t, z, origin, hole, index, steps, u, hole');
        r := ShiftKeepsChains(ops, u, z, origin, hole', Next(|t|, index), steps - 1);
      }
    }
  }

  lemma AllPending<K, D>(ops: KeyOps<K>, t: seq<Slot<K, D>>, z: nat, at: nat)
    requires z < |t| && at < |t| && Chained(ops, t) && Cut(ops, t, z)
    ensures Pending(ops, t, z, at, Off(|t|, z, at) + 1)
  {
    var n := |t|;
    forall j | 0 <= j < n && t[j].Full? ensures Off(n, z, Home(ops, n, t[j].key)) <= Off(n, z, j) {
      CutOrder(n, z, Home(ops, n, t[j].key), z, j);
    }
    forall j, p | 0 <= j < n && 0 <= p < n && t[j].Full?
      && Off(n, z, Home(ops, n, t[j].key)) <= Off(n, z, p) < Off(n, z, j)
      ensures t[p].Full?
    {
      CutOrder(n, z, Home(ops, n, t[j].key), p, j);
    }
  }

  lemma AfterRemoved(n: nat, z: nat, at: nat)
    requires z < n && at < n
    ensures var index := Next(n, at);
      && index < n && Dist(n, index, at) == n - 1
      && if at == z then Off(n, z, at) == n - 1 && Off(n, z, index) == 0 else Off(n, z, index) == Off(n, z, at) + 1
  {
  }

  lemma UnscannedAfter<K, D>(t: seq<Slot<K, D>>, z: nat, at: nat)
    requires z < |t| && at < |t| && t[at].Full?
    ensures |Unscanned(t, z, Off(|t|, z, at) + 1)| <= |FullAt(t)| - 1
  {
    var n := Off(|t|, z, at) + 1;
    assert at in FullAt(t);
    assert Unscanned(t, z, n) <= FullAt(t) - {at};
    SubsetSize(Unscanned(t, z, n), FullAt(t) - {at});
  }

  lemma RemoveKeepsChains<K, D>(ops: KeyOps<K>, t: seq<Slot<K, D>>, z: nat, at: nat, steps: nat)
    requires Chained(ops, t) && z < |t| && Cut(ops, t, z)
    requires at < |t| && t[at].Full? && steps == |FullAt(t)| - 1 < |t|
    ensures Chained(ops, Shift(ops, t, at, Next(|t|, at), steps))
  {
    hide Pending, Unscanned, FullAt, Chained, Cut, Shift, Home, Dist, Off;
    var n, index := |t|, Next(|t|, at);
    AllPending(ops, t, z, at);
    AfterRemoved(n, z, at);
    if at == z {
      AllScanned(ops, t, z, at, index, steps);
    } else {
      UnscannedAfter(t, z, at);
      var _ := ShiftKeepsChains(ops, t, z, at, at, index, steps);
    }
  }

  lemma LessOne<K, D>(t: seq<Slot<K, D>>, at: nat, r: seq<Slot<K, D>>)
    requires at < |t| && t[at].Full? && multiset(r) == multiset(t[at := Empty])
    ensures Bag(t) == Bag(r) + multiset{t[at]} && Count(t) == Count(r) + 1
  {
    assert multiset(t[at := Empty]) == multiset(t) - multiset{t[at]} + multiset{Empty};
    CountIsBag(t);
    CountIsBag(r);
  }

  lemma RemoveLinks<K, D>(ops: KeyOps<K>, t: seq<Slot<K, D>>, at: nat, size: nat) returns (r: seq<Slot<K, D>>)
    requires Linked(ops, t) && at < |t| && t[at].Full? && size == Count(t) > 0
    ensures r == RemoveAt(ops, t, at, size) && Linked(ops, r) && multiset(r) == multiset(t[at := Empty])
  {
    FullAtCount(t);
    r := RemoveAt(ops, t, at, size);
    ShiftPermutes(ops, t, at, at, Next(|t|, at), size - 1);
    var z: nat :| z < |t| && Cut(ops, t, z);
    RemoveKeepsChains(ops, t, z, at, size - 1);
    FreeSlotCuts(ops, t[at := Empty], at, r);
  }

  /** Backward-shift deletion keeps the table invariant and removes exactly the entry it is given,
      on every table the map can be in, a completely full one included. */
  lemma RemoveKeepsLinks<K, D>(ops: KeyOps<K>, t: seq<Slot<K, D>>, at: nat)
    requires Linked(ops, t) && at < |t| && t[at].Full?
    ensures Count(t) > 0
    ensures var r := RemoveAt(ops, t, at, Count(t));
      Linked(ops, r) && Bag(t) == Bag(r) + multiset{t[at]} && Count(r) == Count(t) - 1
  {
    FullAtCount(t);
    assert at in FullAt(t);
    var r := RemoveLinks(ops, t, at, Count(t));
    LessOne(t, at, r);
  }

  lemma SubsetSize<T>(a: set<T>, b: set<T>)
    requires a <= b
    ensures |a| <= |b|
  {
    assert b == a + (b - a);
  }

  lemma FreeSlotCuts<K, D>(ops: KeyOps<K>, t: seq<Slot<K, D>>, at: nat, r: seq<Slot<K, D>>)
    requires at < |t| && t[at].Empty? && Chained(ops, r) && multiset(r) == multiset(t)
    ensures Linked(ops, r)
  {
    assert Empty in multiset(t);
    assert Empty in r;
    var e: nat :| e < |r| && r[e] == Empty;
    assert Cut(ops, r, e);
  }

  lemma RemoveFromKeys<K(!new), D>(ops: KeyOps<K>, b: multiset<Slot<K, D>>, x: Slot<K, D>, c: multiset<Slot<K, D>>)
    requires Lawful(ops) && UniqueKeys(ops, b) && b == c + multiset{x} && x.Full?
    ensures UniqueKeys(ops, c) && Keys(c) == Keys(b) - {x.key}
  {
    assert b[x] == 1 by { assert ops.Same(x.key, x.key); }
    forall k ensures k in Keys(c) <==> k in Keys(b) && k != x.key {
      if k in Keys(c) {
        var y :| y in c && y.Full? && y.key == k;
        assert y in b && ops.Same(k, k);
      }
      if k in Keys(b) && k != x.key {
        var y :| y in b && y.Full? && y.key == k;
        assert y in c;
      }
    }
  }

  lemma RemoveFromModel<K(!new), D>(ops: KeyOps<K>, b: multiset<Slot<K, D>>, x: Slot<K, D>, c: multiset<Slot<K, D>>)
    requires Lawful(ops) && UniqueKeys(ops, b) && b == c + multiset{x} && x.Full?
    ensures UniqueKeys(ops, c) && Model(c) == Model(b) - {x.key}
  {
    RemoveFromKeys(ops, b, x, c);
    forall k | k in Keys(c) ensures Model(c)[k] == Model(b)[k] {
      ModelSlot(c, k);
      ModelHas(ops, b, Full(k, Model(c)[k]));
    }
  }
}
