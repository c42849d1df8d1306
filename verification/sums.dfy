/** Counting threads by what they are doing, and condition variables that wake one of them. */
module Sums {
  import opened Wrappers

  /** pthread_cond_signal wakes a sleeper if there is one. */
  predicate Signals<T>(threads: seq<T>, sleeps: T -> bool, wake: Option<nat>) {
    match wake
    case Some(i) => i < |threads| && sleeps(threads[i])
    case None => forall i | 0 <= i < |threads| :: !sleeps(threads[i])
  }

  function Sum<T>(s: seq<T>, weight: T -> nat): nat {
    if s == [] then 0 else weight(s[0]) + Sum(s[1..], weight)
  }

  lemma {:induction false} SumUpdate<T>(s: seq<T>, weight: T -> nat, i: nat, x: T)
    requires i < |s|
    ensures Sum(s[i := x], weight) == Sum(s, weight) - weight(s[i]) + weight(x)
  {
    if i == 0 {
      assert s[i := x][1..] == s[1..];
    } else {
      SumUpdate(s[1..], weight, i - 1, x);
      assert s[i := x][1..] == s[1..][i - 1 := x];
    }
  }

  lemma {:induction false} SumZero<T>(s: seq<T>, weight: T -> nat)
    ensures Sum(s, weight) == 0 <==> forall i | 0 <= i < |s| :: weight(s[i]) == 0
  {
    if s != [] {
      SumZero(s[1..], weight);
      assert forall i | 0 < i < |s| :: s[i] == s[1..][i - 1];
    }
  }

  lemma {:induction false} SumBelow<T>(s: seq<T>, a: T -> nat, b: T -> nat)
    requires forall x :: a(x) <= b(x)
    ensures Sum(s, a) <= Sum(s, b)
  {
    if s != [] {
      SumBelow(s[1..], a, b);
    }
  }
}
