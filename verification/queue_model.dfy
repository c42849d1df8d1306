/** The contents of queue_t as a sequence: where queue_put_internal places an element, and what that means
    for order and capacity. */
module QueueModel {
  import opened Wrappers

  const UINTX_MAX: nat := 65535

  /** The fields a queue is created with; max == 0 means no limit of its own. */
  datatype Config<!T> = Config(max: nat, sort: bool, asc: bool, cmp: (T, T) -> int)

  datatype Status = Ok | EMem | ENoNewData | ENumElements | EInvalidElement

  /** The test for a full queue. */
  predicate Full(max: nat, n: nat) {
    n == UINTX_MAX - 1 || (max != 0 && n == max)
  }

  /** The number of elements at which a queue is full. */
  function Capacity(max: nat): nat {
    if max != 0 && max < UINTX_MAX - 1 then max else UINTX_MAX - 1
  }

  /** a may stand directly before b. */
  predicate Before<T>(c: Config<T>, a: T, b: T) {
    if c.asc then c.cmp(a, b) <= 0 else c.cmp(a, b) >= 0
  }

  /** The test that puts a new element in front of the first one. */
  predicate AtFront<T>(c: Config<T>, first: T, e: T) {
    if c.asc then c.cmp(first, e) >= 0 else c.cmp(first, e) <= 0
  }

  /** The loop that searches the place between two neighbours, from neighbour i on. */
  function Position<T>(c: Config<T>, els: seq<T>, e: T, i: nat): (p: nat)
    requires i < |els|
    ensures i < p <= |els|
    decreases |els| - i
  {
    if i + 1 == |els| || (Before(c, els[i], e) && Before(c, e, els[i + 1])) then i + 1
    else Position(c, els, e, i + 1)
  }

  /** Where a new element goes. */
  function Place<T>(c: Config<T>, els: seq<T>, e: T): (p: nat)
    ensures p <= |els|
  {
    if !c.sort || els == [] then |els|
    else if AtFront(c, els[0], e) then 0
    else Position(c, els, e, 0)
  }

  function Inserted<T>(c: Config<T>, els: seq<T>, e: T): seq<T> {
    var p := Place(c, els, e);
    els[..p] + [e] + els[p..]
  }

  /** The first element from i on that the filter accepts by returning 0; without a filter, element i. */
  function Chosen<T>(filter: Option<T -> int>, els: seq<T>, i: nat): (k: nat)
    requires i <= |els|
    ensures i <= k <= |els|
    ensures filter.Some? ==> forall j | i <= j < k :: filter.value(els[j]) != 0
    ensures filter.Some? && k < |els| ==> filter.value(els[k]) == 0
    ensures filter.None? ==> k == i
    decreases |els| - i
  {
    if i == |els| || filter.None? || filter.value(els[i]) == 0 then i else Chosen(filter, els, i + 1)
  }

  lemma InsertedCases<T>(c: Config<T>, els: seq<T>, e: T)
    ensures if !c.sort || els == [] then Inserted(c, els, e) == els + [e]
      else if AtFront(c, els[0], e) then Inserted(c, els, e) == [e] + els
      else var p := Position(c, els, e, 0); Inserted(c, els, e) == els[..p] + [e] + els[p..]
  {
  }

  // ----- capacity -----

  /** The bound a queue respects: it is full exactly at its capacity, and not before. */
  lemma FullIff(max: nat, n: nat)
    requires n <= Capacity(max)
    ensures Full(max, n) <==> n == Capacity(max)
    ensures Capacity(max) == if 0 < max < 65534 then max else 65534
  {
  }

  // ----- order -----

  /** cmp behaves like a comparison: answers for (a, b) and (b, a) are opposite, and it is transitive. */
  ghost predicate TotalPreorder<T(!new)>(cmp: (T, T) -> int) {
    && (forall a, b {:trigger cmp(a, b)} :: (cmp(a, b) <= 0 <==> cmp(b, a) >= 0))
    && (forall a, b, d {:trigger cmp(a, b), cmp(b, d)} :: cmp(a, b) <= 0 && cmp(b, d) <= 0 ==> cmp(a, d) <= 0)
  }

  predicate Sorted<T>(c: Config<T>, els: seq<T>) {
    forall i, j | 0 <= i < j < |els| :: if c.asc then c.cmp(els[i], els[j]) <= 0 else c.cmp(els[i], els[j]) >= 0
  }

  lemma BeforeTransitive<T(!new)>(c: Config<T>, a: T, b: T, d: T)
    requires TotalPreorder(c.cmp) && Before(c, a, b) && Before(c, b, d)
    ensures Before(c, a, d)
  {
    if c.asc {
      assert c.cmp(a, b) <= 0 && c.cmp(b, d) <= 0;
    } else {
      assert c.cmp(b, a) <= 0 && c.cmp(d, b) <= 0;
      assert c.cmp(d, a) <= 0;
    }
  }

  lemma BeforeTotal<T(!new)>(c: Config<T>, a: T, b: T)
    requires TotalPreorder(c.cmp)
    ensures Before(c, a, b) || Before(c, b, a)
    ensures AtFront(c, a, b) <==> Before(c, b, a)
  {
    assert c.cmp(a, b) <= 0 <==> c.cmp(b, a) >= 0;
    assert c.cmp(b, a) <= 0 <==> c.cmp(a, b) >= 0;
  }

  /** The search stops at the first element the new one may stand before. */
  lemma {:induction false} PositionIsFirst<T(!new)>(c: Config<T>, els: seq<T>, e: T, i: nat)
    requires TotalPreorder(c.cmp) && Sorted(c, els) && i < |els| && !Before(c, e, els[i])
    ensures var p := Position(c, els, e, i);
      && (p < |els| ==> Before(c, e, els[p]))
      && forall k | i <= k < p :: !Before(c, e, els[k])
    decreases |els| - i
  {
    BeforeTotal(c, els[i], e);
    if i + 1 < |els| && !Before(c, e, els[i + 1]) {
      PositionIsFirst(c, els, e, i + 1);
    }
  }

  /** In a sorted queue a new element goes before the first one it may precede, so ahead of its equals. */
  lemma PlaceIsFirst<T(!new)>(c: Config<T>, els: seq<T>, e: T)
    requires c.sort && TotalPreorder(c.cmp) && Sorted(c, els)
    ensures var p := Place(c, els, e);
      && (p < |els| ==> if c.asc then c.cmp(e, els[p]) <= 0 else c.cmp(e, els[p]) >= 0)
      && forall k | 0 <= k < p :: if c.asc then c.cmp(e, els[k]) > 0 else c.cmp(e, els[k]) < 0
  {
    if els != [] {
      BeforeTotal(c, els[0], e);
      if !AtFront(c, els[0], e) {
        PositionIsFirst(c, els, e, 0);
      }
    }
  }

  lemma OrderedPair<T>(c: Config<T>, els: seq<T>, i: nat, j: nat)
    requires Sorted(c, els) && i < j < |els|
    ensures Before(c, els[i], els[j])
  {
  }

  lemma AllOrdered<T>(c: Config<T>, els: seq<T>)
    requires forall i, j | 0 <= i < j < |els| :: Before(c, els[i], els[j])
    ensures Sorted(c, els)
  {
  }

  /** Putting keeps the chain sorted in the chosen direction. */
  lemma InsertedSorted<T(!new)>(c: Config<T>, els: seq<T>, e: T)
    requires c.sort && TotalPreorder(c.cmp) && Sorted(c, els)
    ensures Sorted(c, Inserted(c, els, e))
  {
    hide Sorted, TotalPreorder, Place;
    var p, r := Place(c, els, e), Inserted(c, els, e);
    PlaceIsFirst(c, els, e);
    forall i, j | 0 <= i < j < |r| ensures Before(c, r[i], r[j]) {
      if i == p {
        if j > p + 1 {
          OrderedPair(c, els, p, j - 1);
          BeforeTransitive(c, e, els[p], els[j - 1]);
        }
      } else if j == p {
        BeforeTotal(c, els[i], e);
      } else {
        OrderedPair(c, els, if i < p then i else i - 1, if j < p then j else j - 1);
      }
    }
    AllOrdered(c, r);
  }

  /** Whatever the comparator does, putting adds exactly the new element. */
  lemma InsertedBag<T>(c: Config<T>, els: seq<T>, e: T)
    ensures multiset(Inserted(c, els, e)) == multiset(els) + multiset{e}
    ensures |Inserted(c, els, e)| == |els| + 1
    ensures !c.sort ==> Inserted(c, els, e) == els + [e]
  {
    var p := Place(c, els, e);
    assert els == els[..p] + els[p..];
  }
}
