/**
 Python's stable `sorted` and its first-maximum `max`, over lexicographic keys.

 A key holds up to five numeric components; unused ones are 0. The stable ascending order of a list
 of keys puts equal keys in the order of their indices, so it is one total order of the indices.

 A descending sort negates the components.
 */
module Ordering {

  datatype Key = Key(a: real, b: real, c: real, d: real, e: real)

  predicate Below(x: Key, y: Key) {
    x.a < y.a || (x.a == y.a &&
    (x.b < y.b || (x.b == y.b &&
    (x.c < y.c || (x.c == y.c &&
    (x.d < y.d || (x.d == y.d && x.e < y.e)))))))
  }

  /** Index i comes before index j in the stable ascending order of the keys. */
  predicate Before(keys: seq<Key>, i: nat, j: nat)
    requires i < |keys| && j < |keys|
  {
    Below(keys[i], keys[j]) || (keys[i] == keys[j] && i < j)
  }

  predicate Indices(order: seq<nat>, n: nat) {
    forall k :: 0 <= k < |order| ==> order[k] < n
  }

  /** `order` lists each index of `keys` once, in stable ascending order. */
  ghost predicate IsSorted(order: seq<nat>, keys: seq<Key>) {
    && |order| == |keys|
    && Indices(order, |keys|)
    && (forall i :: 0 <= i < |keys| ==> i in order)
    && (forall j, k :: 0 <= j < k < |order| ==> Before(keys, order[j], order[k]))
  }

  /** An index that comes after the last of an ascending list comes after all of it. */
  lemma AfterLast(order: seq<nat>, keys: seq<Key>, i: nat)
    requires i < |keys| && Indices(order, |keys|) && order != []
    requires forall j, k :: 0 <= j < k < |order| ==> Before(keys, order[j], order[k])
    requires Before(keys, order[|order| - 1], i)
    ensures forall j :: 0 <= j < |order| ==> Before(keys, order[j], i)
  {
    forall j | 0 <= j < |order| ensures Before(keys, order[j], i) {
      assert j == |order| - 1 || Before(keys, order[j], order[|order| - 1]);
    }
  }

  /** The stable insertion of index `i` into an ascending list of smaller indices. */
  function Insert(order: seq<nat>, keys: seq<Key>, i: nat): (r: seq<nat>)
    requires i < |keys| && Indices(order, |keys|)
    requires forall j, k :: 0 <= j < k < |order| ==> Before(keys, order[j], order[k])
    requires i !in order
    ensures |r| == |order| + 1 && Indices(r, |keys|)
    ensures forall x :: x in r <==> x == i || x in order
    ensures forall j, k :: 0 <= j < k < |r| ==> Before(keys, r[j], r[k])
  {
    if order == [] then [i]
    else if Before(keys, order[|order| - 1], i) then
      AfterLast(order, keys, i);
      order + [i]
    else
      var front, last := order[..|order| - 1], order[|order| - 1];
      var r := Insert(front, keys, i);
      assert forall x :: x in front ==> Before(keys, x, last);
      assert forall j :: 0 <= j < |r| ==> r[j] in r;
      r + [last]
  }

  function SortedPrefix(keys: seq<Key>, n: nat): (r: seq<nat>)
    requires n <= |keys|
    ensures |r| == n && Indices(r, n)
    ensures forall i :: 0 <= i < n <==> i in r
    ensures forall j, k :: 0 <= j < k < |r| ==> Before(keys, r[j], r[k])
  {
    if n == 0 then []
    else
      var r := Insert(SortedPrefix(keys, n - 1), keys, n - 1);
      assert forall k :: 0 <= k < |r| ==> r[k] in r;
      r
  }

  function SortedOrder(keys: seq<Key>): (r: seq<nat>)
    ensures IsSorted(r, keys)
  {
    SortedPrefix(keys, |keys|)
  }

  /** A sorted order lists no index twice. */
  lemma SortedDistinct(order: seq<nat>, keys: seq<Key>, j: nat, k: nat)
    requires IsSorted(order, keys) && j < |order| && k < |order| && j != k
    ensures order[j] != order[k]
  {
    if j < k {
      assert Before(keys, order[j], order[k]);
    } else {
      assert Before(keys, order[k], order[j]);
    }
  }

  /** The position of an index in a sorted order decides by key. */
  lemma EarlierPosition(order: seq<nat>, keys: seq<Key>, i: nat, j: nat) returns (pi: nat, pj: nat)
    requires IsSorted(order, keys) && i < |keys| && j < |keys|
    requires Before(keys, i, j)
    ensures pi < pj < |order| && order[pi] == i && order[pj] == j
  {
    assert i in order && j in order;
    pi :| pi < |order| && order[pi] == i;
    pj :| pj < |order| && order[pj] == j;
    assert !Before(keys, j, i);
  }

  /** The candidate with the greatest key; among equals, the first listed. */
  function FirstMax(candidates: seq<nat>, keys: seq<Key>): (best: nat)
    requires candidates != [] && Indices(candidates, |keys|)
    ensures best in candidates
    ensures forall k :: 0 <= k < |candidates| ==> !Below(keys[best], keys[candidates[k]])
  {
    var n := |candidates| - 1;
    if n == 0 then candidates[0]
    else
      var front := FirstMax(candidates[..n], keys);
      if Below(keys[front], keys[candidates[n]]) then candidates[n] else front
  }
}
