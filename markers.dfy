/**
  Stops and the list expressions the app applies to them: the delete filter
  (src/App.tsx line 445) and `reorderMarkers` (src/App.tsx lines 466-482).
*/
module Markers {
  import opened Wrappers

  /** `MarkerData`: the address is the key; lat and lng are carried along unexamined. */
  datatype Marker = Marker(address: string, lat: real, lng: real)

  predicate HasAddress(ms: seq<Marker>, a: string) {
    exists i :: 0 <= i < |ms| && ms[i].address == a
  }

  /** No two stops share an address. */
  predicate AddressesUnique(ms: seq<Marker>) {
    forall i, j :: 0 <= i < j < |ms| ==> ms[i].address != ms[j].address
  }

  /** `xs` can be obtained from `ys` by leaving elements out, without reordering the rest. */
  predicate IsSubsequence(xs: seq<Marker>, ys: seq<Marker>)
    decreases |ys|
  {
    if xs == [] then true
    else if ys == [] then false
    else if xs[0] == ys[0] then IsSubsequence(xs[1..], ys[1..])
    else IsSubsequence(xs, ys[1..])
  }

  /** `markers.filter((marker) => marker.address !== a)`. */
  function WithoutAddress(ms: seq<Marker>, a: string): (r: seq<Marker>)
    ensures |r| <= |ms|
    ensures forall i :: 0 <= i < |r| ==> r[i].address != a
    ensures forall m :: m in r ==> m in ms
  {
    if ms == [] then []
    else if ms[0].address == a then WithoutAddress(ms[1..], a)
    else [ms[0]] + WithoutAddress(ms[1..], a)
  }

  /** `markers.find((marker) => marker.address === key)`: the first stop with that address. */
  function Find(ms: seq<Marker>, key: string): (r: Option<Marker>)
    ensures r.None? <==> !HasAddress(ms, key)
    ensures r.Some? ==> r.value in ms && r.value.address == key
  {
    if ms == [] then None
    else if ms[0].address == key then Some(ms[0])
    else
      assert forall i :: 0 < i < |ms| ==> ms[i] == ms[1..][i - 1];
      Find(ms[1..], key)
  }

  /** The chosen stop first, then every stop with another address (an absent key leaves the list alone). */
  function Reorder(ms: seq<Marker>, key: string): (r: seq<Marker>)
    ensures !HasAddress(ms, key) ==> r == ms
    ensures HasAddress(ms, key) ==> |r| >= 1 && r[0].address == key && r[0] in ms
    ensures HasAddress(ms, key) ==> r[0] == Find(ms, key).value
    ensures HasAddress(ms, key) ==> r[1..] == WithoutAddress(ms, key)
  {
    match Find(ms, key)
    case None => ms
    case Some(m) => [m] + WithoutAddress(ms, key)
  }

  /** The filter removes exactly the stops with the given address: every other stop keeps its count. */
  lemma {:induction false} WithoutAddressCount(ms: seq<Marker>, a: string, m: Marker)
    ensures multiset(WithoutAddress(ms, a))[m] == if m.address == a then 0 else multiset(ms)[m]
  {
    if ms != [] {
      assert ms == [ms[0]] + ms[1..];
      WithoutAddressCount(ms[1..], a, m);
    }
  }

  /** The stops that survive the filter keep their relative order. */
  lemma {:induction false} WithoutAddressOrder(ms: seq<Marker>, a: string)
    ensures IsSubsequence(WithoutAddress(ms, a), ms)
  {
    if ms != [] {
      WithoutAddressOrder(ms[1..], a);
      if ms[0].address == a {
        SubsequenceOfTail(WithoutAddress(ms[1..], a), ms);
      }
    }
  }

  lemma {:induction false} SubsequenceOfTail(xs: seq<Marker>, ys: seq<Marker>)
    requires ys != [] && IsSubsequence(xs, ys[1..])
    ensures IsSubsequence(xs, ys)
    decreases |ys|, |xs|
  {
    if xs != [] && xs[0] == ys[0] {
      // Matching ys[0] instead of a later copy leaves ys[2..] for xs[1..].
      SubsequenceDropFirst(xs, ys[1..]);
    }
  }

  /** A subsequence without its head is a subsequence of the same list. */
  lemma {:induction false} SubsequenceDropFirst(xs: seq<Marker>, ys: seq<Marker>)
    requires xs != [] && IsSubsequence(xs, ys)
    ensures IsSubsequence(xs[1..], ys)
    decreases |ys|, |xs|
  {
    if xs[0] == ys[0] {
      if xs[1..] != [] {
        SubsequenceOfTail(xs[1..], ys);
      }
    } else {
      SubsequenceDropFirst(xs, ys[1..]);
      if xs[1..] != [] {
        SubsequenceOfTail(xs[1..], ys);
      }
    }
  }

  /** Filtering by an address no stop has leaves the list unchanged. */
  lemma {:induction false} WithoutAbsentAddress(ms: seq<Marker>, a: string)
    requires !HasAddress(ms, a)
    ensures WithoutAddress(ms, a) == ms
  {
    if ms != [] {
      assert !HasAddress(ms[1..], a) by {
        forall i | 0 <= i < |ms| - 1 ensures ms[1..][i].address != a {
          assert ms[1..][i] == ms[i + 1];
        }
      }
      WithoutAbsentAddress(ms[1..], a);
    }
  }

  lemma UniqueTail(ms: seq<Marker>)
    requires ms != [] && AddressesUnique(ms)
    ensures AddressesUnique(ms[1..])
    ensures !HasAddress(ms[1..], ms[0].address)
  {
    forall p, q | 0 <= p < q < |ms| - 1 ensures ms[1..][p].address != ms[1..][q].address {
      assert ms[1..][p] == ms[p + 1] && ms[1..][q] == ms[q + 1];
    }
    forall k | 0 <= k < |ms| - 1 ensures ms[1..][k].address != ms[0].address {
      assert ms[1..][k] == ms[k + 1];
    }
  }

  /** With unique addresses, the filter removes the one stop at position `i` carrying the address. */
  lemma {:induction false} WithoutUniqueAddress(ms: seq<Marker>, i: nat)
    requires AddressesUnique(ms) && i < |ms|
    ensures multiset(WithoutAddress(ms, ms[i].address)) + multiset{ms[i]} == multiset(ms)
  {
    assert ms == [ms[0]] + ms[1..];
    UniqueTail(ms);
    if i == 0 {
      WithoutAbsentAddress(ms[1..], ms[0].address);
    } else {
      assert ms[1..][i - 1] == ms[i];
      WithoutUniqueAddress(ms[1..], i - 1);
    }
  }

  /** With unique addresses, reordering yields exactly the same stops, the chosen one first. */
  lemma ReorderPermutes(ms: seq<Marker>, key: string)
    requires AddressesUnique(ms)
    ensures multiset(Reorder(ms, key)) == multiset(ms)
    ensures |Reorder(ms, key)| == |ms|
  {
    if HasAddress(ms, key) {
      var m := Find(ms, key).value;
      var k :| 0 <= k < |ms| && ms[k] == m;
      WithoutUniqueAddress(ms, k);
      assert Reorder(ms, key) == [m] + WithoutAddress(ms, key);
    }
  }

  /** The stops behind the chosen one keep their relative order. */
  lemma ReorderStable(ms: seq<Marker>, key: string)
    requires HasAddress(ms, key)
    ensures IsSubsequence(Reorder(ms, key)[1..], ms)
  {
    WithoutAddressOrder(ms, key);
  }

  /** The stop moved to the front is the first one carrying the address. */
  lemma {:induction false} FindFirst(ms: seq<Marker>, key: string, i: nat)
    requires i < |ms| && ms[i].address == key
    requires forall j :: 0 <= j < i ==> ms[j].address != key
    ensures Find(ms, key) == Some(ms[i])
  {
    if i > 0 {
      assert ms[1..][i - 1] == ms[i];
      FindFirst(ms[1..], key, i - 1);
    }
  }
}
