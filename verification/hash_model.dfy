/** The hash map of hashmap.c as a state machine on values: every public operation as a step, and the
    finite map it refines over whole runs. */
module HashModel {
  import opened Wrappers
  import opened Powers
  import opened ProbeTable

  const SIZE_MIN: nat := 32
  const SIZE_DEFAULT: nat := 128

  /** 1 << k is an int shift: rounding up a larger value overflows it. */
  const SHIFT_LIMIT: nat := 0x4000_0000

  datatype State<K, D> = State(sizeInit: nat, table: seq<Slot<K, D>>, size: nat)

  datatype Status = Ok | EInval | ENoMem | EExist | EAddrNotAvail | Aborted

  // ----- table sizes -----

  predicate SizeFits(size: nat) {
    size + size / 3 <= SHIFT_LIMIT
  }

  /** hashmap_calc_table_size. */
  function CalcTableSize(sizeInit: nat, size: nat): nat
    requires sizeInit >= 2 && SizeFits(size)
  {
    var wanted := size + size / 3;
    if wanted < sizeInit then sizeInit else Pow2(BitLength(wanted - 1))
  }

  /** The computed size is the least power of two that holds both the initial size and 4/3 of the entries. */
  lemma TableSizeIsLeast(sizeInit: nat, size: nat)
    requires IsPow2(sizeInit) && sizeInit >= 2 && SizeFits(size)
    ensures var r := CalcTableSize(sizeInit, size);
      && IsPow2(r) && sizeInit <= r && size + size / 3 <= r
      && (forall p | IsPow2(p) && sizeInit <= p && size + size / 3 <= p :: r <= p)
  {
    var wanted := size + size / 3;
    if wanted >= sizeInit {
      var r := CalcTableSize(sizeInit, size);
      Pow2IsPow2(BitLength(wanted - 1));
      BitLengthBounds(wanted - 1);
      forall p | IsPow2(p) && wanted <= p ensures r <= p {
        LeastPow2(wanted - 1, p);
      }
    }
  }

  // ----- rehashing -----

  function Blank<K, D>(n: nat): seq<Slot<K, D>> {
    seq(n, _ => Empty)
  }

  /** The loop of hashmap_rehash from source slot i on; None when its assert would fire. */
  function Reinsert<K, D>(ops: KeyOps<K>, src: seq<Slot<K, D>>, i: nat, t: seq<Slot<K, D>>): (r: Option<seq<Slot<K, D>>>)
    requires i <= |src|
    ensures r.Some? ==> |r.value| == |t|
    decreases |src| - i
  {
    if i == |src| then Some(t)
    else if src[i].Empty? then Reinsert(ops, src, i + 1, t)
    else
      match Find(ops, t, src[i].key, true)
      case None => None
      case Some(j) => Reinsert(ops, src, i + 1, t[j := src[i]])
  }

  /** hashmap_rehash; alloc says whether calloc succeeds. */
  function Rehash<K, D>(ops: KeyOps<K>, s: State<K, D>, tableSize: nat, alloc: bool): (r: (State<K, D>, Status)) {
    if !alloc then (s, ENoMem)
    else
      match Reinsert(ops, s.table, 0, Blank(tableSize))
      case None => (s, Aborted)
      case Some(t) => (s.(table := t), Ok)
  }

  /** Storing into the slot Find proposes for an absent key adds that entry and nothing else. */
  lemma StoreAtFree<K(!new), D>(ops: KeyOps<K>, t: seq<Slot<K, D>>, key: K, x: Slot<K, D>)
    requires Lawful(ops) && Linked(ops, t) && x.Full? && ops.Same(key, x.key) && Count(t) < |t|
    requires forall j | 0 <= j < |t| && t[j].Full? :: !ops.Same(key, t[j].key)
    ensures var f := Find(ops, t, key, true);
      && f.Some? && t[f.value].Empty?
      && Linked(ops, t[f.value := x]) && Bag(t[f.value := x]) == Bag(t) + multiset{x}
      && Count(t[f.value := x]) == Count(t) + 1
  {
    FindIsComplete(ops, t, key, true);
    var i := Find(ops, t, key, true).value;
    InsertLinks(ops, t, key, i, x);
    BagUpdate(t, i, x);
    CountIsBag(t);
    CountIsBag(t[i := x]);
  }

  lemma PrefixGrows<K, D>(src: seq<Slot<K, D>>, i: nat)
    requires i < |src|
    ensures Bag(src[..i + 1]) == Bag(src[..i]) + (if src[i].Full? then multiset{src[i]} else multiset{})
  {
    assert src[..i + 1] == src[..i] + [src[i]];
    assert multiset(src[..i + 1]) == multiset(src[..i]) + multiset{src[i]};
  }

  lemma {:induction false} ReinsertKeeps<K(!new), D>(ops: KeyOps<K>, src: seq<Slot<K, D>>, i: nat, t: seq<Slot<K, D>>)
    returns (r: Option<seq<Slot<K, D>>>)
    requires Lawful(ops) && i <= |src| && UniqueKeys(ops, Bag(src)) && Count(src) <= |t|
    requires Linked(ops, t) && Bag(t) == Bag(src[..i])
    ensures r == Reinsert(ops, src, i, t)
    ensures r.Some? && Linked(ops, r.value) && Bag(r.value) == Bag(src) && Count(r.value) == Count(src)
    decreases |src| - i
  {
    if i == |src| {
      assert src[..i] == src;
      CountIsBag(src);
      CountIsBag(t);
      r := Some(t);
    } else {
      PrefixGrows(src, i);
      var u := t;
      if src[i].Full? {
        ReinsertOne(ops, src, i, t);
        assert ops.Same(src[i].key, src[i].key);
        StoreAtFree(ops, t, src[i].key, src[i]);
        u := t[Find(ops, t, src[i].key, true).value := src[i]];
      }
      r := ReinsertKeeps(ops, src, i + 1, u);
    }
  }

  lemma BagPrefix<K, D>(src: seq<Slot<K, D>>, i: nat)
    requires i <= |src|
    ensures Bag(src) == Bag(src[..i]) + Bag(src[i..])
  {
    assert src == src[..i] + src[i..];
    assert multiset(src) == multiset(src[..i]) + multiset(src[i..]);
  }

  /** The next entry is not in the new table yet, and the new table has room for it. */
  lemma ReinsertOne<K(!new), D>(ops: KeyOps<K>, src: seq<Slot<K, D>>, i: nat, t: seq<Slot<K, D>>)
    requires Lawful(ops) && i < |src| && src[i].Full? && UniqueKeys(ops, Bag(src)) && Count(src) <= |t|
    requires Bag(t) == Bag(src[..i])
    ensures Count(t) < |t|
    ensures forall j | 0 <= j < |t| && t[j].Full? :: !ops.Same(src[i].key, t[j].key)
  {
    BagPrefix(src, i);
    BagHas(src[i..], 0);
    CountIsBag(t);
    CountIsBag(src);
    forall j | 0 <= j < |t| && t[j].Full? ensures !ops.Same(src[i].key, t[j].key) {
      BagHas(t, j);
      var q := BagIndex(src[..i], t[j]);
      if ops.Same(src[i].key, src[q].key) {
        assert ops.Same(src[i].key, src[i].key);
        MatchIsUnique(ops, src, src[i].key, i, q);
      }
    }
  }

  lemma BlankLinks<K, D>(ops: KeyOps<K>, n: nat)
    ensures Linked(ops, Blank<K, D>(n)) && Bag(Blank<K, D>(n)) == multiset{} && Count(Blank<K, D>(n)) == 0
  {
    var t := Blank<K, D>(n);
    forall x ensures Bag(t)[x] == 0 {
      assert x in multiset(t) <==> x in t;
    }
    if n > 0 {
      assert Cut(ops, t, 0);
    }
    CountIsBag(t);
  }

  // ----- the invariant -----

  ghost predicate Valid<K, D>(ops: KeyOps<K>, s: State<K, D>) {
    && s.sizeInit >= SIZE_MIN && IsPow2(s.sizeInit)
    && (|s.table| == 0 || IsPow2(|s.table|))
    && s.size == Count(s.table)
    && Linked(ops, s.table)
    && UniqueKeys(ops, Bag(s.table))
  }

  /** The finite map a state stands for. */
  ghost function Contents<K, D>(s: State<K, D>): map<K, D> {
    Model(Bag(s.table))
  }

  /** Rehashing to any size that holds the entries leaves the map unchanged, and its assert never fires. */
  lemma RehashKeepsContents<K(!new), D>(ops: KeyOps<K>, s: State<K, D>, tableSize: nat, alloc: bool)
    requires Lawful(ops) && Valid(ops, s) && IsPow2(tableSize) && s.size <= tableSize
    ensures var (s', r) := Rehash(ops, s, tableSize, alloc);
      && Valid(ops, s') && Bag(s'.table) == Bag(s.table)
      && s'.sizeInit == s.sizeInit && s'.size == s.size
      && (if alloc then r == Ok && |s'.table| == tableSize else r == ENoMem && s' == s)
  {
    BlankLinks<K, D>(ops, tableSize);
    assert s.table[..0] == [];
    var _ := ReinsertKeeps(ops, s.table, 0, Blank(tableSize));
  }

  // ----- the public operations -----

  function Init<K, D>(): State<K, D> {
    State(SIZE_DEFAULT, [], 0)
  }

  /** hashmap_base_reserve. */
  function Reserve<K, D>(ops: KeyOps<K>, s: State<K, D>, capacity: nat, alloc: bool): (State<K, D>, Status)
    requires SizeFits(capacity)
  {
    var sizeInit := CalcTableSize(SIZE_MIN, capacity);
    if sizeInit > |s.table| then
      var (s', r) := Rehash(ops, s.(sizeInit := sizeInit), sizeInit, alloc);
      if r != Ok then (s'.(sizeInit := s.sizeInit), r) else (s', r)
    else (s.(sizeInit := sizeInit), Ok)
  }

  /** The preemptive rehash at the start of hashmap_base_put. */
  function Grow<K, D>(ops: KeyOps<K>, s: State<K, D>, alloc: bool): (State<K, D>, Status)
    requires s.sizeInit >= 2 && SizeFits(s.size)
  {
    var tableSize := CalcTableSize(s.sizeInit, s.size);
    if tableSize > |s.table| then Rehash(ops, s, tableSize, alloc) else (s, Ok)
  }

  /** The part of hashmap_base_put after the preemptive rehash, which returned grown. */
  function PutEntry<K, D>(ops: KeyOps<K>, s: State<K, D>, key: K, data: D, stored: Option<K>, grown: Status): (State<K, D>, Status) {
    match Find(ops, s.table, key, true)
    case None => (s, if grown != Ok then grown else EAddrNotAvail)
    case Some(i) =>
      if s.table[i].Full? then (s, EExist)
      else if stored.None? then (s, ENoMem)
      else (s.(table := s.table[i := Full(stored.value, data)], size := s.size + 1), Ok)
  }

  /** hashmap_base_put; stored is the key pointer to keep: the caller's, or what key_dup returns. */
  function Put<K, D>(ops: KeyOps<K>, s: State<K, D>, key: Option<K>, data: Option<D>, stored: Option<K>, alloc: bool): (State<K, D>, Status)
    requires s.sizeInit >= 2 && SizeFits(s.size)
  {
    if key.None? || data.None? then (s, EInval)
    else
      var (g, r) := Grow(ops, s, alloc);
      PutEntry(ops, g, key.value, data.value, stored, r)
  }

  /** hashmap_base_get. */
  function Get<K, D>(ops: KeyOps<K>, s: State<K, D>, key: Option<K>): Option<D> {
    if key.None? then None
    else
      match Find(ops, s.table, key.value, false)
      case None => None
      case Some(i) => if s.table[i].Full? then Some(s.table[i].data) else None
  }

  /** hashmap_entry_remove. */
  function RemoveEntry<K, D>(ops: KeyOps<K>, s: State<K, D>, i: nat): State<K, D>
    requires i < |s.table| && s.size > 0
  {
    s.(table := RemoveAt(ops, s.table, i, s.size), size := s.size - 1)
  }

  /** hashmap_base_remove. */
  function Remove<K, D>(ops: KeyOps<K>, s: State<K, D>, key: Option<K>): (State<K, D>, Option<D>) {
    if key.None? then (s, None)
    else
      match Find(ops, s.table, key.value, false)
      case None => (s, None)
      case Some(i) =>
        if s.table[i].Full? && s.size > 0 then (RemoveEntry(ops, s, i), Some(s.table[i].data)) else (s, None)
  }

  /** hashmap_base_clear. */
  function Clear<K, D>(s: State<K, D>): State<K, D> {
    s.(table := Blank(|s.table|), size := 0)
  }

  /** hashmap_base_reset; alloc says whether realloc succeeds. */
  function Reset<K, D>(s: State<K, D>, alloc: bool): State<K, D> {
    s.(table := Blank(if |s.table| != s.sizeInit && alloc then s.sizeInit else |s.table|), size := 0)
  }

  // ----- what each operation does to the map -----

  ghost predicate Holds<K(!new), D>(ops: KeyOps<K>, m: map<K, D>, key: K) {
    exists k :: k in m && ops.Same(key, k)
  }

  lemma MatchInTable<K(!new), D>(ops: KeyOps<K>, s: State<K, D>, key: K)
    requires Lawful(ops) && Valid(ops, s)
    ensures Holds(ops, Contents(s), key) <==> exists j :: 0 <= j < |s.table| && s.table[j].Full? && ops.Same(key, s.table[j].key)
  {
    if Holds(ops, Contents(s), key) {
      var k :| k in Contents(s) && ops.Same(key, k);
      ModelSlot(Bag(s.table), k);
      var j := BagIndex(s.table, Full(k, Contents(s)[k]));
    }
    if j :| 0 <= j < |s.table| && s.table[j].Full? && ops.Same(key, s.table[j].key) {
      BagHas(s.table, j);
      ModelHas(ops, Bag(s.table), s.table[j]);
    }
  }

  lemma EntryInContents<K(!new), D>(ops: KeyOps<K>, s: State<K, D>, i: nat)
    requires Lawful(ops) && Valid(ops, s) && i < |s.table| && s.table[i].Full?
    ensures s.table[i] in Bag(s.table)
    ensures s.table[i].key in Contents(s) && Contents(s)[s.table[i].key] == s.table[i].data
  {
    BagHas(s.table, i);
    ModelHas(ops, Bag(s.table), s.table[i]);
  }

  lemma OnlyMatch<K(!new), D>(ops: KeyOps<K>, s: State<K, D>, key: K, i: nat, k: K)
    requires Lawful(ops) && Valid(ops, s) && i < |s.table| && s.table[i].Full?
    requires ops.Same(key, s.table[i].key) && k in Contents(s) && ops.Same(key, k)
    ensures k == s.table[i].key
  {
    ModelSlot(Bag(s.table), k);
    var j := BagIndex(s.table, Full(k, Contents(s)[k]));
    MatchIsUnique(ops, s.table, key, i, j);
  }

  /** get returns the data stored under the matching key, and NULL exactly when no key matches. */
  lemma GetAgrees<K(!new), D>(ops: KeyOps<K>, s: State<K, D>, key: K)
    requires Lawful(ops) && Valid(ops, s)
    ensures var r := Get(ops, s, Some(key));
      && (r.Some? <==> Holds(ops, Contents(s), key))
      && (forall k | k in Contents(s) && ops.Same(key, k) :: r == Some(Contents(s)[k]))
  {
    FindIsComplete(ops, s.table, key, false);
    MatchInTable(ops, s, key);
    forall k | k in Contents(s) && ops.Same(key, k) ensures Get(ops, s, Some(key)) == Some(Contents(s)[k]) {
      var i := Find(ops, s.table, key, false).value;
      OnlyMatch(ops, s, key, i, k);
      EntryInContents(ops, s, i);
    }
  }

  lemma GrowKeeps<K(!new), D>(ops: KeyOps<K>, s: State<K, D>, alloc: bool)
    requires Lawful(ops) && Valid(ops, s) && SizeFits(s.size)
    ensures var (g, r) := Grow(ops, s, alloc);
      && Valid(ops, g) && Bag(g.table) == Bag(s.table) && g.sizeInit == s.sizeInit && g.size == s.size
      && |s.table| <= |g.table|
      && (r == Ok || (r == ENoMem && !alloc && g == s))
      && (r == Ok ==> CalcTableSize(s.sizeInit, s.size) <= |g.table| && s.size + 1 < |g.table|)
  {
    TableSizeIsLeast(s.sizeInit, s.size);
    var tableSize := CalcTableSize(s.sizeInit, s.size);
    if tableSize > |s.table| {
      RehashKeepsContents(ops, s, tableSize, alloc);
    }
  }

  lemma PutCases<K(!new), D>(ops: KeyOps<K>, s: State<K, D>, key: K, data: D, stored: Option<K>, alloc: bool)
    requires Lawful(ops) && Valid(ops, s) && SizeFits(s.size)
    ensures var g := Grow(ops, s, alloc).0;
      Put(ops, s, Some(key), Some(data), stored, alloc) ==
      if Holds(ops, Contents(s), key) then (g, EExist)
      else if g.size == |g.table| || stored.None? then (g, ENoMem)
      else
        var f := Find(ops, g.table, key, true);
        (g.(table := if f.Some? then g.table[f.value := Full(stored.value, data)] else g.table, size := g.size + 1), Ok)
  {
    var g := Grow(ops, s, alloc).0;
    GrowKeeps(ops, s, alloc);
    FindIsComplete(ops, g.table, key, true);
    MatchInTable(ops, g, key);
  }

  /** put adds its entry exactly when it returns 0, and it can only fail for a reason it reports: a
      matching key is present, the key copy failed, or the table is full because growing it failed. */
  lemma PutAgrees<K(!new), D>(ops: KeyOps<K>, s: State<K, D>, key: K, data: D, stored: Option<K>, alloc: bool)
    requires Lawful(ops) && Valid(ops, s) && SizeFits(s.size)
    requires stored.Some? ==> ops.Same(key, stored.value)
    ensures var (s', r) := Put(ops, s, Some(key), Some(data), stored, alloc);
      && Valid(ops, s') && s'.sizeInit == s.sizeInit
      && s'.size == s.size + (if r == Ok then 1 else 0)
      && (r == EExist <==> Holds(ops, Contents(s), key))
      && (r == Ok ==> stored.Some? && Contents(s') == Contents(s)[stored.value := data])
      && (r != Ok ==> Contents(s') == Contents(s))
      && (r == ENoMem ==> stored.None? || (!alloc && s.size == |s.table|))
      && r in {Ok, EExist, ENoMem}
      && (alloc ==> s'.size < |s'.table|)
  {
    var g := Grow(ops, s, alloc).0;
    PutCases(ops, s, key, data, stored, alloc);
    GrowKeeps(ops, s, alloc);
    if !Holds(ops, Contents(s), key) && g.size < |g.table| && stored.Some? {
      PutStores(ops, g, key, Full(stored.value, data));
    }
  }

  lemma PutStores<K(!new), D>(ops: KeyOps<K>, g: State<K, D>, key: K, x: Slot<K, D>)
    requires Lawful(ops) && Valid(ops, g) && g.size < |g.table|
    requires x.Full? && ops.Same(key, x.key) && !Holds(ops, Contents(g), key)
    ensures var f := Find(ops, g.table, key, true);
      && f.Some? && g.table[f.value].Empty?
      && var s' := g.(table := g.table[f.value := x], size := g.size + 1);
        Valid(ops, s') && Contents(s') == Contents(g)[x.key := x.data]
  {
    MatchInTable(ops, g, key);
    StoreAtFree(ops, g.table, key, x);
    forall y | y in Bag(g.table) && y.Full? ensures !ops.Same(x.key, y.key) {
      var j := BagIndex(g.table, y);
      assert !ops.Same(key, g.table[j].key);
    }
    InsertIntoModel(ops, Bag(g.table), x);
  }

  lemma RemoveEntryAgrees<K(!new), D>(ops: KeyOps<K>, s: State<K, D>, i: nat)
    requires Lawful(ops) && Valid(ops, s) && i < |s.table| && s.table[i].Full?
    ensures s.size > 0
    ensures var s' := RemoveEntry(ops, s, i);
      && Valid(ops, s') && s'.size == s.size - 1 && Contents(s') == Contents(s) - {s.table[i].key}
      && Bag(s.table) == Bag(s'.table) + multiset{s.table[i]}
  {
    RemoveKeepsLinks(ops, s.table, i);
    EntryInContents(ops, s, i);
    RemoveFromModel(ops, Bag(s.table), s.table[i], Bag(RemoveEntry(ops, s, i).table));
  }

  /** remove deletes exactly the matching key and returns its data, or changes nothing. */
  lemma RemoveAgrees<K(!new), D>(ops: KeyOps<K>, s: State<K, D>, key: K)
    requires Lawful(ops) && Valid(ops, s)
    ensures var (s', r) := Remove(ops, s, Some(key));
      && Valid(ops, s') && s'.sizeInit == s.sizeInit && r == Get(ops, s, Some(key))
      && (r.None? ==> s' == s && !Holds(ops, Contents(s), key))
      && (r.Some? ==> s'.size == s.size - 1 && !Holds(ops, Contents(s'), key))
      && (r.Some? ==> exists k :: k in Contents(s) && ops.Same(key, k) && Contents(s') == Contents(s) - {k} && r == Some(Contents(s)[k]))
  {
    FindIsComplete(ops, s.table, key, false);
    MatchInTable(ops, s, key);
    var f := Find(ops, s.table, key, false);
    if f.Some? {
      RemoveMatch(ops, s, key, f.value);
    }
  }

  lemma RemoveMatch<K(!new), D>(ops: KeyOps<K>, s: State<K, D>, key: K, i: nat)
    requires Lawful(ops) && Valid(ops, s) && i < |s.table| && s.table[i].Full? && ops.Same(key, s.table[i].key)
    ensures s.size > 0
    ensures var s', k := RemoveEntry(ops, s, i), s.table[i].key;
      && Valid(ops, s') && s'.size == s.size - 1
      && k in Contents(s) && Contents(s)[k] == s.table[i].data
      && Contents(s') == Contents(s) - {k} && !Holds(ops, Contents(s'), key)
  {
    RemoveEntryAgrees(ops, s, i);
    EntryInContents(ops, s, i);
    forall k' | k' in Contents(s) && k' != s.table[i].key ensures !ops.Same(key, k') {
      if ops.Same(key, k') {
        OnlyMatch(ops, s, key, i, k');
      }
    }
  }

  lemma ReservedSize(capacity: nat)
    requires SizeFits(capacity)
    ensures IsPow2(CalcTableSize(SIZE_MIN, capacity))
    ensures SIZE_MIN <= CalcTableSize(SIZE_MIN, capacity)
  {
    assert IsPow2(32);
    TableSizeIsLeast(SIZE_MIN, capacity);
  }

  lemma ReserveAgrees<K(!new), D>(ops: KeyOps<K>, s: State<K, D>, capacity: nat, alloc: bool)
    requires Lawful(ops) && Valid(ops, s) && SizeFits(capacity)
    ensures var (s', r) := Reserve(ops, s, capacity, alloc);
      && Valid(ops, s') && Contents(s') == Contents(s) && s'.size == s.size
      && (r == Ok || (r == ENoMem && s' == s))
      && (r == Ok ==> s'.sizeInit == CalcTableSize(SIZE_MIN, capacity) <= |s'.table|)
  {
    ReservedSize(capacity);
    var sizeInit := CalcTableSize(SIZE_MIN, capacity);
    if sizeInit > |s.table| {
      RehashKeepsContents(ops, s.(sizeInit := sizeInit), sizeInit, alloc);
    }
  }

  lemma BlankAgrees<K, D>(ops: KeyOps<K>, s: State<K, D>, alloc: bool)
    requires Valid(ops, s)
    ensures Valid(ops, Clear(s)) && Contents(Clear(s)) == map[] && |Clear(s).table| == |s.table|
    ensures Valid(ops, Reset(s, alloc)) && Contents(Reset(s, alloc)) == map[]
    ensures |Reset(s, alloc).table| == if alloc then s.sizeInit else |s.table|
    ensures Clear(s).sizeInit == s.sizeInit && Reset(s, alloc).sizeInit == s.sizeInit
  {
    BlankLinks<K, D>(ops, |s.table|);
    BlankLinks<K, D>(ops, s.sizeInit);
  }
}
