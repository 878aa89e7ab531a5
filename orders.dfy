/**
  Index orders as the directions service returns them in `waypoint_order`
  (src/App.tsx lines 68-71): a list of positions into the interior stops.
*/
module Orders {

  /** Every index of `order` picks one of `n` elements. */
  predicate InRange(order: seq<nat>, n: nat) {
    forall i :: 0 <= i < |order| ==> order[i] < n
  }

  /** 0, 1, ..., n - 1. */
  function Range(n: nat): (r: seq<nat>)
    ensures |r| == n
    ensures forall i :: 0 <= i < n ==> r[i] == i
  {
    if n == 0 then [] else Range(n - 1) + [n - 1]
  }

  /** `order` is a rearrangement of 0, 1, ..., n - 1. */
  predicate IsIndexPermutation(order: seq<nat>, n: nat) {
    multiset(order) == multiset(Range(n))
  }

  /** `order.map((index) => s[index])`. */
  function Permute<T>(s: seq<T>, order: seq<nat>): (r: seq<T>)
    requires InRange(order, |s|)
    ensures |r| == |order|
    ensures forall i :: 0 <= i < |order| ==> r[i] == s[order[i]]
  {
    if order == [] then [] else [s[order[0]]] + Permute(s, order[1..])
  }

  /** Picking by 0, 1, ..., |s| - 1 gives `s` back. */
  lemma PermuteIdentity<T>(s: seq<T>)
    ensures InRange(Range(|s|), |s|)
    ensures Permute(s, Range(|s|)) == s
  {
  }

  lemma {:induction false} PermuteAppend<T>(s: seq<T>, x: seq<nat>, y: seq<nat>)
    requires InRange(x, |s|) && InRange(y, |s|)
    ensures InRange(x + y, |s|)
    ensures Permute(s, x + y) == Permute(s, x) + Permute(s, y)
  {
    assert InRange(x + y, |s|) by {
      forall i | 0 <= i < |x + y| ensures (x + y)[i] < |s| {
        if i >= |x| { assert (x + y)[i] == y[i - |x|]; }
      }
    }
  }

  lemma CancelMiddle<T>(x: T, rest: seq<T>, p: seq<T>, q: seq<T>)
    requires multiset([x] + rest) == multiset(p + ([x] + q))
    ensures multiset(rest) == multiset(p + q)
  {
    assert multiset(rest) == multiset([x] + rest) - multiset{x};
    assert multiset(p + q) == multiset(p + ([x] + q)) - multiset{x};
  }

  lemma MoveToMiddle<T>(x: T, p: seq<T>, q: seq<T>)
    ensures multiset([x] + (p + q)) == multiset(p + ([x] + q))
  {
  }

  /** What `Permute` picks depends only on how often each index occurs in the order. */
  lemma {:induction false} PermuteByMultiset<T>(s: seq<T>, o1: seq<nat>, o2: seq<nat>)
    requires InRange(o1, |s|) && InRange(o2, |s|)
    requires multiset(o1) == multiset(o2)
    ensures multiset(Permute(s, o1)) == multiset(Permute(s, o2))
    decreases |o1|
  {
    if o1 == [] {
      assert |o2| == |multiset(o2)| == 0;
    } else {
      var a := o1[0];
      assert a in multiset(o2);
      var k :| 0 <= k < |o2| && o2[k] == a;
      var left, right := o2[..k], o2[k + 1..];
      assert o2 == left + ([a] + right);
      assert o1 == [a] + o1[1..];
      assert InRange(left, |s|) && InRange(right, |s|) && InRange([a], |s|);
      var p1, pl, pr := Permute(s, o1[1..]), Permute(s, left), Permute(s, right);
      assert multiset(p1) == multiset(pl + pr) by {
        CancelMiddle(a, o1[1..], left, right);
        PermuteAppend(s, left, right);
        PermuteByMultiset(s, o1[1..], left + right);
      }
      assert Permute(s, o2) == pl + ([s[a]] + pr) by {
        PermuteAppend(s, [a], right);
        PermuteAppend(s, left, [a] + right);
      }
      assert Permute(s, o1) == [s[a]] + p1;
      MoveToMiddle(s[a], pl, pr);
    }
  }

  /** A permutation of the indices only names existing positions... */
  lemma PermutationInRange(order: seq<nat>, n: nat)
    requires IsIndexPermutation(order, n)
    ensures InRange(order, n)
  {
    forall i | 0 <= i < |order| ensures order[i] < n {
      assert order[i] in multiset(Range(n));
    }
  }

  /** ...and picking by it rearranges `s` without losing or duplicating an element. */
  lemma PermuteRearranges<T>(s: seq<T>, order: seq<nat>)
    requires IsIndexPermutation(order, |s|)
    ensures InRange(order, |s|)
    ensures multiset(Permute(s, order)) == multiset(s)
  {
    PermutationInRange(order, |s|);
    PermuteIdentity(s);
    PermuteByMultiset(s, order, Range(|s|));
  }
}
