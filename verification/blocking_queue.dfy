/** queue_t as the linked chain of queue_internal.c, under the lock and without waiting. */
module BlockingQueue {
  import opened Wrappers
  import opened QueueModel

  /** queue_element_t. */
  class Element<!T> {
    const data: T
    var next: Element?<T>

    constructor (data: T)
      ensures this.data == data && next == null
    {
      this.data := data;
      next := null;
    }
  }

  function DataOf<T>(els: seq<Element<T>>): (r: seq<T>)
    ensures |r| == |els|
  {
    seq(|els|, i requires 0 <= i < |els| => els[i].data)
  }

  /** The chain with an element more, in front of its element k. */
  lemma Splice<T>(els: seq<Element<T>>, k: nat, el: Element<T>) returns (a: seq<Element<T>>)
    requires k <= |els| && el !in els && forall i, j | 0 <= i < j < |els| :: els[i] != els[j]
    ensures |a| == |els| + 1
    ensures forall i {:trigger a[i]} | 0 <= i < |a| :: a[i] == if i < k then els[i] else if i == k then el else els[i - 1]
    ensures forall i, j | 0 <= i < j < |a| :: a[i] != a[j]
    ensures DataOf(a) == DataOf(els)[..k] + [el.data] + DataOf(els)[k..]
  {
    a := els[..k] + [el] + els[k..];
    forall i | 0 <= i < |els| ensures els[i] != el {
      assert els[i] in els;
    }
  }

  lemma DataAt<T>(els: seq<Element<T>>, k: nat)
    requires k < |els|
    ensures DataOf(els)[k] == els[k].data
  {
  }

  /** The chain without its element k. */
  lemma Without<T>(els: seq<Element<T>>, k: nat) returns (a: seq<Element<T>>)
    requires k < |els| && forall i, j | 0 <= i < j < |els| :: els[i] != els[j]
    ensures |a| == |els| - 1 && els[k] !in a && forall x | x in a :: x in els
    ensures forall i {:trigger a[i]} | 0 <= i < |a| :: a[i] == if i < k then els[i] else els[i + 1]
    ensures forall i, j | 0 <= i < j < |a| :: a[i] != a[j]
    ensures DataOf(a) == DataOf(els)[..k] + DataOf(els)[k + 1..]
  {
    a := els[..k] + els[k + 1..];
  }

  class Queue<!T> {
    const config: Config<T>
    var firstEl: Element?<T>
    var lastEl: Element?<T>
    var numEls: nat
    var newData: bool
    ghost var chain: seq<Element<T>>

    /** The element after element i of the chain. */
    ghost function Behind(i: nat): Element?<T>
      reads this
    {
      if i + 1 < |chain| then chain[i + 1] else null
    }

    /** From firstEl on, the elements are the chain, and they are counted. */
    ghost predicate Linked()
      reads this, chain
    {
      && numEls == |chain| <= Capacity(config.max)
      && (forall i, j | 0 <= i < j < |chain| :: chain[i] != chain[j])
      && (forall i {:trigger chain[i].next} | 0 <= i < |chain| :: chain[i].next == Behind(i))
      && firstEl == if chain == [] then null else chain[0]
    }

    /** lastEl is the last of them. */
    ghost predicate LastRight()
      reads this
    {
      lastEl == if chain == [] then null else chain[|chain| - 1]
    }

    ghost predicate Valid()
      reads this, chain
    {
      Linked() && LastRight()
    }

    /** The queued data, first element first. */
    ghost function Contents(): (r: seq<T>)
      reads this
      ensures |r| == |chain|
    {
      DataOf(chain)
    }

    /** queue_create and its variants. */
    constructor (config: Config<T>)
      ensures Valid() && Contents() == [] && newData && this.config == config
    {
      this.config := config;
      firstEl, lastEl, numEls, newData, chain := null, null, 0, true, [];
    }

    /** queue_flush_internal. */
    method Flush()
      requires Valid()
      modifies this
      ensures Valid() && Contents() == [] && newData == old(newData)
    {
      var qe := firstEl;
      ghost var i := 0;
      while qe != null
        invariant i <= |chain| && qe == if i < |chain| then chain[i] else null
        invariant chain == old(chain) && Valid() && newData == old(newData)
        decreases |chain| - i
      {
        var nqe := qe.next;
        qe := nqe;
        i := i + 1;
      }
      firstEl, lastEl, numEls, chain := null, null, 0, [];
    }

    /** The new element goes in behind element k of the chain. */
    method LinkBehind(ghost k: nat, s: Element<T>, el: Element<T>)
      requires Valid() && k < |chain| && s == chain[k] && el !in chain && |chain| < Capacity(config.max)
      modifies this, s, el
      ensures Valid() && newData == old(newData)
      ensures Contents() == old(Contents())[..k + 1] + [el.data] + old(Contents())[k + 1..]
    {
      hide DataOf;
      ghost var longer := Splice(chain, k + 1, el);
      var t := s.next;
      s.next := el;
      el.next := t;
      if t == null {
        lastEl := el;
      }
      numEls := numEls + 1;
      chain := longer;
    }

    /** The new element goes in behind lastEl: where that is not the last one of the chain, it is counted but
        does not get into the queue. */
    method LinkLast(el: Element<T>)
      requires Linked() && el !in chain && el.next == null && |chain| < Capacity(config.max)
      requires lastEl != el && (lastEl == null <==> chain == []) && (lastEl in chain ==> LastRight())
      modifies this, el, lastEl
      ensures newData == old(newData) && numEls == old(numEls) + 1
      ensures if old(LastRight()) then Valid() && Contents() == old(Contents()) + [el.data]
              else chain == old(chain) && firstEl == old(firstEl) && forall i | 0 <= i < |chain| :: chain[i].next == Behind(i)
    {
      if lastEl == null {
        firstEl := el;
      } else {
        lastEl.next := el;
      }
      ghost var appended := chain == [] || lastEl == chain[|chain| - 1];
      lastEl := el;
      numEls := numEls + 1;
      if appended {
        chain := chain + [el];
      }
    }

    /** The new element goes in before the first one. */
    method LinkFirst(el: Element<T>)
      requires Valid() && el !in chain && chain != [] && |chain| < Capacity(config.max)
      modifies this, el
      ensures Valid() && newData == old(newData)
      ensures Contents() == [el.data] + old(Contents())
    {
      el.next := firstEl;
      firstEl := el;
      numEls := numEls + 1;
      chain := [el] + chain;
    }

    /** The search loop: the element behind which a new one belongs, when it does not belong in front. */
    method Search(e: T) returns (s: Element<T>, ghost k: nat)
      requires Valid() && chain != []
      ensures k + 1 == Position(config, Contents(), e, 0) <= |chain|
      ensures s == chain[Position(config, Contents(), e, 0) - 1]
    {
      s := firstEl;
      var t := s.next;
      k := 0;
      while t != null
        invariant k < |chain| && s == chain[k] && t == Behind(k)
        invariant Position(config, Contents(), e, 0) == Position(config, Contents(), e, k)
        decreases |chain| - k
      {
        if config.asc && config.cmp(s.data, e) <= 0 && config.cmp(e, t.data) <= 0 {
          break;
        } else if !config.asc && config.cmp(s.data, e) >= 0 && config.cmp(e, t.data) >= 0 {
          break;
        }
        s := t;
        t := t.next;
        k := k + 1;
      }
    }

    lemma FirstOf()
      requires Valid()
      ensures firstEl == null <==> Contents() == []
      ensures firstEl != null ==> firstEl.data == Contents()[0]
    {
    }

    /** queue_put_internal with no way to wait; alloc says whether malloc succeeds. */
    method PutInternal(el: T, alloc: bool) returns (r: Status)
      requires Valid()
      modifies this, chain
      ensures Valid() && newData == old(newData)
      ensures r == if !newData then ENoNewData
                   else if |old(Contents())| == Capacity(config.max) then ENumElements
                   else if !alloc then EMem else Ok
      ensures Contents() == if r.Ok? then Inserted(config, old(Contents()), el) else old(Contents())
    {
      if !newData {
        return ENoNewData;
      }
      FullIff(config.max, numEls);
      if numEls == UINTX_MAX - 1 || (config.max != 0 && numEls == config.max) {
        return ENumElements;
      }
      if !alloc {
        return EMem;
      }
      hide Position, Inserted, Contents;
      InsertedCases(config, Contents(), el);
      var newEl := new Element(el);
      FirstOf();
      if !config.sort || firstEl == null {
        LinkLast(newEl);
      } else {
        var ascFirstEl := config.asc && config.cmp(firstEl.data, el) >= 0;
        var descFirstEl := !config.asc && config.cmp(firstEl.data, el) <= 0;
        if !ascFirstEl && !descFirstEl {
          var s, k := Search(el);
          LinkBehind(k, s, newEl);
        } else {
          LinkFirst(newEl);
        }
      }
      return Ok;
    }

    /** Element k of the chain, which stands behind prev, goes out. */
    method Unlink(ghost k: nat, prev: Element?<T>, el: Element<T>)
      requires Valid() && k < |chain| && el == chain[k] && prev == if k == 0 then null else chain[k - 1]
      modifies this, prev
      ensures Linked() && newData == old(newData)
      ensures Contents() == old(Contents())[..k] + old(Contents())[k + 1..]
      ensures (forall x | x in chain :: x in old(chain))
      ensures if 0 < k == |old(chain)| - 1 then lastEl == old(lastEl) && lastEl !in chain && chain != [] else Valid()
    {
      hide DataOf;
      ghost var shorter := Without(chain, k);
      if prev == null {
        firstEl := el.next;
        if firstEl == null {
          lastEl := null;
        }
      } else {
        prev.next := el.next;
      }
      numEls := numEls - 1;
      chain := shorter;
    }

    /** The loop that looks for the element to take: the first one its filter accepts. */
    method SearchMatch(filter: Option<T -> int>) returns (prev: Element?<T>, el: Element?<T>, ghost k: nat)
      requires Valid()
      ensures k == Chosen(filter, Contents(), 0)
      ensures el == var c := Chosen(filter, Contents(), 0); if c < |chain| then chain[c] else null
      ensures prev == var c := Chosen(filter, Contents(), 0); if c == 0 then null else chain[c - 1]
      ensures el != null ==> el.data == Contents()[k]
    {
      hide DataOf;
      prev, el, k := null, firstEl, 0;
      while filter.Some? && el != null && filter.value(el.data) != 0
        invariant k <= |chain| && el == (if k < |chain| then chain[k] else null)
        invariant prev == if k == 0 then null else chain[k - 1]
        invariant Chosen(filter, Contents(), 0) == Chosen(filter, Contents(), k)
        decreases |chain| - k
      {
        DataAt(chain, k);
        prev := el;
        el := el.next;
        k := k + 1;
      }
      if k < |chain| {
        DataAt(chain, k);
      }
    }

    /** queue_get_internal with no way to wait. When a filter takes out the last element, but not the only
        one, lastEl is left pointing to it. */
    method GetInternal(filter: Option<T -> int>) returns (r: Status, e: Option<T>)
      requires Valid()
      modifies this, chain
      ensures Linked() && newData == old(newData)
      ensures var c, k := old(Contents()), Chosen(filter, old(Contents()), 0);
        && r == (if c == [] then ENumElements else if k == |c| then EInvalidElement else Ok)
        && e == (if k < |c| then Some(c[k]) else None)
        && Contents() == (if k < |c| then c[..k] + c[k + 1..] else c)
        && (Valid() <==> !(0 < k == |c| - 1))
        && (forall x | x in chain :: x in old(chain))
        && (!Valid() ==> lastEl != null && lastEl == old(lastEl) && lastEl !in chain && chain != [])
    {
      hide DataOf;
      if numEls == 0 {
        return ENumElements, None;
      }
      var elPrev, el, k := SearchMatch(filter);
      if el == null {
        return EInvalidElement, None;
      }
      Unlink(k, elPrev, el);
      return Ok, Some(el.data);
    }

    /** The next put then loses its element: it is counted, and no get will find it. */
    method PutBehindRemoved(filter: T -> int, el: Element<T>)
      requires Valid() && 0 < Chosen(Some(filter), Contents(), 0) == |chain| - 1
      requires el !in chain && el.next == null
      modifies this, chain, el
      ensures Contents() == old(Contents())[..|old(chain)| - 1] && numEls == |chain| + 1
    {
      var r, e := GetInternal(Some(filter));
      LinkLast(el);
    }

    /** queue_flush_put: flush and put under one lock. */
    method FlushPut(el: T, alloc: bool) returns (r: Status)
      requires Valid()
      modifies this, chain
      ensures Valid() && newData == old(newData)
      ensures r == if !newData then ENoNewData else if !alloc then EMem else Ok
      ensures Contents() == if r.Ok? then [el] else []
    {
      Flush();
      r := PutInternal(el, alloc);
    }
  }
}
