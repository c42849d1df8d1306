/** struct hashmap_base and the loops of hashmap.c over its table, each proved to compute the
    operation of the same name in HashModel. */
module HashMap {
  import opened Wrappers
  import opened Powers
  import opened ProbeTable
  import M = HashModel
  import R = HashRuns

  class HashMap<K(!new), D> {
    const ops: KeyOps<K>
    var sizeInit: nat
    var table: array<Slot<K, D>>
    var size: nat

    ghost function State(): M.State<K, D>
      reads this, table
    {
      M.State(sizeInit, table[..], size)
    }

    ghost predicate Valid()
      reads this, table
    {
      Lawful(ops) && M.Valid(ops, State())
    }

    /** hashmap_base_init. */
    constructor (ops: KeyOps<K>)
      requires Lawful(ops)
      ensures Valid() && fresh(table) && this.ops == ops && State() == M.Init()
    {
      this.ops := ops;
      sizeInit := M.SIZE_DEFAULT;
      table := new Slot<K, D>[0];
      size := 0;
      new;
      assert table[..] == [];
      R.InitValid<K, D>(ops);
    }

    /** hashmap_entry_find. */
    method EntryFind(key: K, findEmpty: bool) returns (entry: Option<nat>)
      ensures entry == Find(ops, table[..], key, findEmpty)
    {
      var n := table.Length;
      if n == 0 {
        return None;
      }
      var index := Home(ops, n, key);
      var i := 0;
      while i < n
        invariant 0 <= i <= n && 0 <= index < n
        invariant Find(ops, table[..], key, findEmpty) == Probe(ops, table[..], key, findEmpty, index, n - i)
      {
        if table[index].Empty? {
          return if findEmpty then Some(index) else None;
        }
        if ops.compare(key, table[index].key) == 0 {
          return Some(index);
        }
        index := Next(n, index);
        i := i + 1;
      }
      return None;
    }

    /** hashmap_entry_remove: fill the freed slot by shifting the chain behind it. */
    method EntryRemove(removed: nat)
      requires removed < table.Length && size > 0
      modifies this`size, table
      ensures State() == M.RemoveEntry(ops, old(State()), removed)
    {
      var n := table.Length;
      ghost var t := table[..];
      size := size - 1;
      var hole, index := removed, Next(n, removed);
      var i := 0;
      while i < size
        invariant size == old(size) - 1 && 0 <= i <= size && 0 <= hole < n && 0 <= index < n
        invariant Shift(ops, table[..], hole, index, size - i) == RemoveAt(ops, t, removed, size + 1)
      {
        if table[index].Empty? {
          break;
        }
        ghost var u := table[..];
        var home := Home(ops, n, table[index].key);
        if Dist(n, home, index) > Dist(n, home, hole) {
          table[hole] := table[index];
          assert table[..] == u[hole := u[index]];
          hole := index;
        }
        index := Next(n, index);
        i := i + 1;
      }
      ghost var u := table[..];
      assert RemoveAt(ops, t, removed, size + 1) == u[hole := Empty];
      table[hole] := Empty;
      assert table[..] == u[hole := Empty];
    }

    /** hashmap_rehash; alloc says whether calloc succeeds. */
    method Rehash(tableSize: nat, alloc: bool) returns (r: M.Status)
      requires Valid() && IsPow2(tableSize) && size <= tableSize
      modifies this`table
      ensures (State(), r) == M.Rehash(ops, old(State()), tableSize, alloc)
      ensures Valid() && (table == old(table) || fresh(table))
    {
      hide M.Valid, Find, Lawful;
      M.RehashKeepsContents(ops, State(), tableSize, alloc);
      if !alloc {
        return M.ENoMem;
      }
      var oldTable := table;
      ghost var t := oldTable[..];
      table := new Slot<K, D>[tableSize](_ => Empty);
      assert table[..] == M.Blank<K, D>(tableSize);
      var i := 0;
      while i < oldTable.Length
        invariant 0 <= i <= oldTable.Length && oldTable[..] == t && fresh(table) && table.Length == tableSize
        invariant M.Reinsert(ops, t, i, table[..]) == M.Reinsert(ops, t, 0, M.Blank(tableSize))
        modifies table
      {
        if oldTable[i].Full? {
          var entry := EntryFind(oldTable[i].key, true);
          assert entry != None;
          ghost var u := table[..];
          table[entry.value] := oldTable[i];
          assert table[..] == u[entry.value := t[i]];
        }
        i := i + 1;
      }
      return M.Ok;
    }

    /** hashmap_base_reserve. */
    method Reserve(capacity: nat, alloc: bool) returns (r: M.Status)
      requires Valid() && M.SizeFits(capacity)
      modifies this`sizeInit, this`table
      ensures (State(), r) == M.Reserve(ops, old(State()), capacity, alloc)
      ensures Valid() && (table == old(table) || fresh(table))
    {
      M.ReserveAgrees(ops, State(), capacity, alloc);
      M.ReservedSize(capacity);
      var oldSizeInit := sizeInit;
      sizeInit := M.CalcTableSize(M.SIZE_MIN, capacity);
      r := M.Ok;
      if sizeInit > table.Length {
        r := Rehash(sizeInit, alloc);
        if r != M.Ok {
          sizeInit := oldSizeInit;
        }
      }
    }

    /** The preemptive rehash of hashmap_base_put, towards a load factor of 0.75. */
    method Grow(alloc: bool) returns (r: M.Status)
      requires Valid() && M.SizeFits(size)
      modifies this`table
      ensures (State(), r) == M.Grow(ops, old(State()), alloc)
      ensures Valid() && (table == old(table) || fresh(table))
    {
      M.TableSizeIsLeast(sizeInit, size);
      var tableSize := M.CalcTableSize(sizeInit, size);
      r := M.Ok;
      if tableSize > table.Length {
        r := Rehash(tableSize, alloc);
      }
    }

    /** hashmap_base_put; stored is the key pointer to keep, None when key_dup fails. */
    method Put(key: Option<K>, data: Option<D>, stored: Option<K>, alloc: bool) returns (r: M.Status)
      requires Valid() && M.SizeFits(size)
      requires key.Some? && stored.Some? ==> ops.Same(key.value, stored.value)
      modifies this`table, this`size, table
      ensures (State(), r) == M.Put(ops, old(State()), key, data, stored, alloc)
      ensures Valid() && (table == old(table) || fresh(table))
    {
      if key == None || data.None? {
        return M.EInval;
      }
      M.PutAgrees(ops, State(), key.value, data.value, stored, alloc);
      r := Grow(alloc);
      r := PutEntry(key.value, data.value, stored, r);
    }

    /** The rest of hashmap_base_put: find a slot and fill it; grown is what growing returned. */
    method PutEntry(key: K, data: D, stored: Option<K>, grown: M.Status) returns (r: M.Status)
      modifies this`size, table
      ensures (State(), r) == M.PutEntry(ops, old(State()), key, data, stored, grown)
    {
      var entry := EntryFind(key, true);
      if entry == None {
        return if grown != M.Ok then grown else M.EAddrNotAvail;
      }
      if table[entry.value].Full? {
        return M.EExist;
      }
      if stored == None {
        return M.ENoMem;
      }
      ghost var u := table[..];
      table[entry.value] := Full(stored.value, data);
      size := size + 1;
      assert table[..] == u[entry.value := Full(stored.value, data)];
      return M.Ok;
    }

    /** hashmap_base_get. */
    method Get(key: Option<K>) returns (data: Option<D>)
      requires Valid()
      ensures data == M.Get(ops, State(), key)
      ensures key.Some? ==> (data.Some? <==> M.Holds(ops, M.Contents(State()), key.value))
    {
      if key == None {
        return None;
      }
      M.GetAgrees(ops, State(), key.value);
      FindIsComplete(ops, table[..], key.value, false);
      var entry := EntryFind(key.value, false);
      if entry == None {
        return None;
      }
      return Some(table[entry.value].data);
    }

    /** hashmap_base_remove. */
    method Remove(key: Option<K>) returns (data: Option<D>)
      requires Valid()
      modifies this`size, table
      ensures (State(), data) == M.Remove(ops, old(State()), key)
      ensures Valid()
    {
      if key == None {
        return None;
      }
      M.RemoveAgrees(ops, State(), key.value);
      FindIsComplete(ops, table[..], key.value, false);
      var entry := EntryFind(key.value, false);
      if entry == None {
        return None;
      }
      data := Some(table[entry.value].data);
      M.RemoveEntryAgrees(ops, State(), entry.value);
      EntryRemove(entry.value);
    }

    /** hashmap_base_clear. */
    method Clear()
      requires Valid()
      modifies this`size, table
      ensures State() == M.Clear(old(State())) && Valid()
    {
      M.BlankAgrees(ops, State(), true);
      size := 0;
      forall i | 0 <= i < table.Length {
        table[i] := Empty;
      }
      assert table[..] == M.Blank<K, D>(table.Length);
    }

    /** hashmap_base_reset; alloc says whether realloc succeeds. */
    method Reset(alloc: bool)
      requires Valid()
      modifies this`size, this`table, table
      ensures State() == M.Reset(old(State()), alloc)
      ensures size == 0 && table.Length == if alloc then sizeInit else old(table.Length)
      ensures Valid() && (table == old(table) || fresh(table))
    {
      M.BlankAgrees(ops, State(), alloc);
      size := 0;
      if table.Length != sizeInit && alloc {
        table := new Slot<K, D>[sizeInit](_ => Empty);
      }
      forall i | 0 <= i < table.Length {
        table[i] := Empty;
      }
      assert table[..] == M.Blank<K, D>(table.Length);
    }

    /** hashmap_entry_get_populated. */
    method GetPopulated(from: nat) returns (entry: Option<nat>)
      requires from <= table.Length
      ensures entry == R.Populated(State(), from)
      ensures entry.Some? ==> from <= entry.value < table.Length && table[entry.value].Full?
    {
      if size > 0 {
        var i := from;
        while i < table.Length
          invariant from <= i <= table.Length
          invariant R.NextFull(table[..], from) == R.NextFull(table[..], i)
        {
          if table[i].Full? {
            return Some(i);
          }
          i := i + 1;
        }
      }
      return None;
    }

    /** hashmap_base_iter_remove; no iterator is answered with none. */
    method IterRemove(iter: Option<nat>) returns (next: Option<nat>)
      requires Valid() && (iter.Some? ==> iter.value < table.Length)
      modifies this`size, table
      ensures Valid()
      ensures iter.None? ==> next == None && State() == old(State())
      ensures iter.Some? ==>
        && (old(table[iter.value]).Full? ==> old(size) > 0)
        && (State(), next) == R.IterRemove(ops, old(State()), iter.value)
      ensures next.Some? ==> iter.Some? && iter.value <= next.value < table.Length && table[next.value].Full?
      ensures iter.Some? ==>
        forall j | iter.value <= j < (if next.Some? then next.value else table.Length) :: table[j].Empty?
    {
      hide M.Valid, Lawful, RemoveAt;
      if iter.None? {
        return None;
      }
      if table[iter.value].Full? {
        M.RemoveEntryAgrees(ops, State(), iter.value);
        EntryRemove(iter.value);
      }
      next := GetPopulated(iter.value);
      R.PopulatedIsNext(ops, State(), iter.value);
    }
  }
}
