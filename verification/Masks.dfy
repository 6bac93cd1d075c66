/**
 Bit masks over a list of keys, and the sorted key list of a counter.

 Bit i of a mask stands for the i-th key of the list. The masks below 2^n select all the subsets of
 n distinct keys, so a loop over the masks is a loop over the subsets.

 The list is sorted, as in the program; nothing depends on that.
 */
module Masks {

  predicate Distinct(keys: seq<int>) {
    forall i, j :: 0 <= i < j < |keys| ==> keys[i] != keys[j]
  }

  function Pow2(n: nat): (r: nat)
    ensures r > 0
  {
    if n == 0 then 1 else 2 * Pow2(n - 1)
  }

  /** The keys whose bit is set in the mask. */
  function Selected(keys: seq<int>, mask: nat): seq<int> {
    if keys == [] then []
    else (if mask % 2 == 1 then [keys[0]] else []) + Selected(keys[1..], mask / 2)
  }

  lemma {:induction false} SelectedDistinct(keys: seq<int>, mask: nat)
    requires Distinct(keys)
    ensures Distinct(Selected(keys, mask)) && forall k :: k in Selected(keys, mask) ==> k in keys
  {
    if keys != [] {
      SelectedDistinct(keys[1..], mask / 2);
      var tail := Selected(keys[1..], mask / 2);
      forall i | 0 <= i < |tail| ensures tail[i] != keys[0] {
        var k := tail[i];
        assert k in tail && k in keys[1..];
      }
    }
  }

  /** Every set of keys is the selection of some mask below 2^n. */
  lemma {:induction false} MaskFor(keys: seq<int>, chosen: set<int>) returns (mask: nat)
    requires Distinct(keys)
    ensures mask < Pow2(|keys|)
    ensures forall k :: k in Selected(keys, mask) <==> k in keys && k in chosen
  {
    if keys == [] {
      mask := 0;
    } else {
      var rest := MaskFor(keys[1..], chosen);
      mask := 2 * rest + (if keys[0] in chosen then 1 else 0);
      assert mask / 2 == rest && mask % 2 == if keys[0] in chosen then 1 else 0;
      assert keys == [keys[0]] + keys[1..];
    }
  }

  lemma {:induction false} Smallest(s: set<int>) returns (least: int)
    requires s != {}
    ensures least in s && forall j :: j in s ==> least <= j
  {
    if forall k :: k !in s {
      assert false;
    }
    least :| least in s;
    if s != {least} {
      var other := Smallest(s - {least});
      assert forall j :: j in s ==> j == least || j in s - {least};
      if other < least {
        least := other;
      }
    }
  }

  method SortedKeys(m: map<int, int>) returns (keys: seq<int>)
    ensures Distinct(keys) && (forall k :: k in keys <==> k in m)
    ensures forall i, j :: 0 <= i < j < |keys| ==> keys[i] < keys[j]
  {
    keys := [];
    var rest := m.Keys;
    while rest != {}
      invariant rest <= m.Keys
      invariant forall k :: k in keys <==> k in m && k !in rest
      invariant forall i, k :: 0 <= i < |keys| && k in rest ==> keys[i] < k
      invariant forall i, j :: 0 <= i < j < |keys| ==> keys[i] < keys[j]
      decreases rest
    {
      ghost var least := Smallest(rest);
      var k :| k in rest && forall j :: j in rest ==> k <= j;
      keys := keys + [k];
      rest := rest - {k};
    }
  }
}
