/**
 * The order in which a parallel loop's iterations reach a critical section, and what an
 * aggregation that does not care about that order may rely on.
 *
 * A schedule is described by `picks`: at step j one of the n - j iterations still running
 * enters the critical section, the one at position picks[j] among them (in iteration order).
 */
module Completion {

  /** picks chooses, at each of the n steps, one of the iterations not yet finished. */
  ghost predicate IsSchedule(picks: seq<nat>, n: nat) {
    |picks| == n && forall j :: 0 <= j < n ==> picks[j] < n - j
  }

  /** s without its element at position p. */
  function Without<T>(s: seq<T>, p: nat): seq<T>
    requires p < |s|
  {
    s[..p] + s[p + 1..]
  }

  /** Taking one element out of a sequence takes one copy of it out of its multiset. */
  lemma WithoutMultiset<T>(s: seq<T>, p: nat)
    requires p < |s|
    ensures multiset(Without(s, p)) == multiset(s) - multiset{s[p]}
  {
    assert s == s[..p] + [s[p]] + s[p + 1..];
    assert multiset(s) == multiset(s[..p]) + multiset{s[p]} + multiset(s[p + 1..]);
  }

  /**
   * The order in which the per-iteration values `pending` are appended to a shared vector
   * when the iterations complete as `picks` says: a permutation of `pending`.
   */
  function Arrivals<T>(pending: seq<T>, picks: seq<nat>): (arrived: seq<T>)
    requires IsSchedule(picks, |pending|)
    ensures |arrived| == |pending|
    ensures multiset(arrived) == multiset(pending)
    decreases |pending|
  {
    if pending == [] then []
    else
      var p := picks[0];
      assert pending == pending[..p] + [pending[p]] + pending[p + 1..];
      [pending[p]] + Arrivals(Without(pending, p), picks[1..])
  }

  /** The schedule in which the iterations finish one after another, in index order. */
  function InOrder(n: nat): (picks: seq<nat>)
    ensures IsSchedule(picks, n)
  {
    seq(n, j => 0)
  }

  /** Completing in index order appends the values in index order. */
  lemma {:induction false} InOrderArrivals<T>(pending: seq<T>)
    ensures Arrivals(pending, InOrder(|pending|)) == pending
    decreases |pending|
  {
    if pending != [] {
      assert InOrder(|pending|)[1..] == InOrder(|pending| - 1);
      InOrderArrivals(pending[1..]);
      assert Without(pending, 0) == pending[1..];
    }
  }

  /** A schedule whose first step picks position p, followed by a schedule of the rest. */
  lemma ArrivalsFirst<T>(pending: seq<T>, p: nat, tail: seq<nat>, arrived: seq<T>)
    requires p < |pending| == |arrived| && pending[p] == arrived[0]
    requires IsSchedule(tail, |pending| - 1)
    requires Arrivals(Without(pending, p), tail) == arrived[1..]
    ensures IsSchedule([p] + tail, |pending|)
    ensures Arrivals(pending, [p] + tail) == arrived
  {
  }

  /** Every permutation of the pending values is the arrival order of some schedule. */
  lemma {:induction false} ScheduleFor<T>(pending: seq<T>, arrived: seq<T>) returns (picks: seq<nat>)
    requires multiset(arrived) == multiset(pending)
    ensures IsSchedule(picks, |pending|)
    ensures Arrivals(pending, picks) == arrived
    decreases |pending|
  {
    assert |arrived| == |pending| by {
      assert |multiset(arrived)| == |multiset(pending)|;
    }
    if pending == [] {
      picks := [];
    } else {
      var x := arrived[0];
      assert x in pending by {
        assert x in multiset(arrived);
        assert x in multiset(pending);
      }
      var p: nat :| p < |pending| && pending[p] == x;
      var rest := Without(pending, p);
      assert multiset(arrived[1..]) == multiset(rest) by {
        WithoutMultiset(pending, p);
        WithoutMultiset(arrived, 0);
        assert Without(arrived, 0) == arrived[1..];
      }
      var tail := ScheduleFor(rest, arrived[1..]);
      picks := [p] + tail;
      ArrivalsFirst(pending, p, tail, arrived);
    }
  }

  /** s with its elements at positions i and i + 1 exchanged. */
  function Swapped<T>(s: seq<T>, i: nat): seq<T>
    requires i + 1 < |s|
  {
    s[..i] + [s[i + 1], s[i]] + s[i + 2..]
  }

  /** f gives the same answer when two neighbouring inputs change places. */
  ghost predicate SwapInvariant<T(!new), U>(f: seq<T> -> U) {
    forall s: seq<T>, i: nat :: i + 1 < |s| ==> f(Swapped(s, i)) == f(s)
  }

  /** f treats its input as a multiset: any reordering gives the same answer. */
  ghost predicate OrderInsensitive<T(!new), U>(f: seq<T> -> U) {
    forall a: seq<T>, b: seq<T> :: multiset(a) == multiset(b) ==> f(a) == f(b)
  }

  /** Moving the element at position k of b to the front, one neighbour swap at a time. */
  lemma {:induction false} MoveToFront<T(!new), U>(f: seq<T> -> U, pre: seq<T>, b: seq<T>, k: nat)
    requires SwapInvariant(f)
    requires k < |b|
    ensures f(pre + b) == f(pre + ([b[k]] + Without(b, k)))
    decreases k
  {
    if k == 0 {
      assert b == [b[0]] + Without(b, 0);
    } else {
      var c := b[..k - 1] + [b[k], b[k - 1]] + b[k + 1..];
      assert Swapped(pre + b, |pre| + k - 1) == pre + c;
      MoveToFront(f, pre, c, k - 1);
      assert c[k - 1] == b[k];
      assert Without(c, k - 1) == Without(b, k);
    }
  }

  /** A swap-invariant f gives equal answers on inputs that are permutations of each other. */
  lemma {:induction false} PermutationInvariant<T(!new), U>(f: seq<T> -> U, pre: seq<T>, a: seq<T>, b: seq<T>)
    requires SwapInvariant(f)
    requires multiset(a) == multiset(b)
    ensures f(pre + a) == f(pre + b)
    decreases |a|
  {
    assert |a| == |b| by {
      assert |multiset(a)| == |multiset(b)|;
    }
    if a != [] {
      var x := a[0];
      var k: nat :| k < |b| && b[k] == x by {
        assert x in multiset(a);
      }
      var rest := Without(b, k);
      assert multiset(a[1..]) == multiset(rest) by {
        WithoutMultiset(b, k);
        WithoutMultiset(a, 0);
        assert Without(a, 0) == a[1..];
      }
      MoveToFront(f, pre, b, k);
      PermutationInvariant(f, pre + [x], a[1..], rest);
      assert pre + a == (pre + [x]) + a[1..];
      assert pre + ([x] + rest) == (pre + [x]) + rest;
    }
  }

  /** Exchanging two neighbours does not change the multiset of a sequence. */
  lemma SwappedSameMultiset<T>(s: seq<T>, i: nat)
    requires i + 1 < |s|
    ensures multiset(Swapped(s, i)) == multiset(s)
  {
    assert s == s[..i] + [s[i], s[i + 1]] + s[i + 2..];
  }

  /** Exchanging neighbours is enough: it characterises order-insensitivity. */
  lemma SwapInvariantIffOrderInsensitive<T(!new), U>(f: seq<T> -> U)
    ensures SwapInvariant(f) <==> OrderInsensitive(f)
  {
    if SwapInvariant(f) {
      forall a: seq<T>, b: seq<T> | multiset(a) == multiset(b) ensures f(a) == f(b) {
        PermutationInvariant(f, [], a, b);
        assert [] + a == a && [] + b == b;
      }
    }
    if OrderInsensitive(f) {
      forall s: seq<T>, i: nat | i + 1 < |s| ensures f(Swapped(s, i)) == f(s) {
        SwappedSameMultiset(s, i);
      }
    }
  }

  /** Whatever the completion order, a swap-invariant f sees the same answer as in index order. */
  lemma ArrivalOrderIrrelevant<T(!new), U>(f: seq<T> -> U, pending: seq<T>, picks: seq<nat>)
    requires SwapInvariant(f)
    requires IsSchedule(picks, |pending|)
    ensures f(Arrivals(pending, picks)) == f(pending)
  {
    PermutationInvariant(f, [], Arrivals(pending, picks), pending);
    assert [] + Arrivals(pending, picks) == Arrivals(pending, picks) && [] + pending == pending;
  }
}
