/**
 Sums over finite integer sequences, sums restricted to a set of indices, and matrices.

 `Weight` adds up the entries whose index is in a set; over all indices it is the sum. A matrix is a
 sequence of equally long rows, and summing its row sums or its column sums gives the same total.

 `Max` and `Min` are those of two integers.
 */
module Sums {

  function Sum(s: seq<int>): int
  {
    if s == [] then 0 else Sum(s[..|s| - 1]) + s[|s| - 1]
  }

  /** The total weight of the indices that lie in `chosen`. */
  ghost function Weight(w: seq<int>, chosen: set<nat>): int
  {
    if w == [] then 0
    else Weight(w[..|w| - 1], chosen) + (if |w| - 1 in chosen then w[|w| - 1] else 0)
  }

  function Max(a: int, b: int): int {
    if a >= b then a else b
  }

  function Min(a: int, b: int): int {
    if a <= b then a else b
  }

  lemma SumPrefixStep(s: seq<int>, i: nat)
    requires i < |s|
    ensures Sum(s[..i + 1]) == Sum(s[..i]) + s[i]
  {
    assert s[..i + 1][..i] == s[..i];
  }

  lemma {:induction false} SumAppend(a: seq<int>, b: seq<int>)
    ensures Sum(a + b) == Sum(a) + Sum(b)
  {
    if b == [] {
      assert a + b == a;
    } else {
      var b' := b[..|b| - 1];
      assert (a + b)[..|a + b| - 1] == a + b';
      SumAppend(a, b');
    }
  }

  lemma {:induction false} SumUpdate(s: seq<int>, i: nat, v: int)
    requires i < |s|
    ensures Sum(s[i := v]) == Sum(s) - s[i] + v
  {
    var n := |s| - 1;
    if i == n {
      assert s[i := v][..n] == s[..n];
    } else {
      SumUpdate(s[..n], i, v);
      assert s[i := v][..n] == s[..n][i := v];
    }
  }

  lemma {:induction false} SumLe(a: seq<int>, b: seq<int>)
    requires |a| == |b|
    requires forall i :: 0 <= i < |a| ==> a[i] <= b[i]
    ensures Sum(a) <= Sum(b)
  {
    if a != [] {
      SumLe(a[..|a| - 1], b[..|b| - 1]);
    }
  }

  lemma SumNonNegative(a: seq<int>)
    requires forall i :: 0 <= i < |a| ==> 0 <= a[i]
    ensures 0 <= Sum(a)
  {
    if a != [] {
      SumNonNegative(a[..|a| - 1]);
    }
  }

  lemma {:induction false} SumAtLeastEntry(a: seq<int>, k: nat)
    requires k < |a|
    requires forall i :: 0 <= i < |a| ==> 0 <= a[i]
    ensures a[k] <= Sum(a)
  {
    var n := |a| - 1;
    SumNonNegative(a[..n]);
    if k < n {
      SumAtLeastEntry(a[..n], k);
    }
  }

  lemma SumOfPrefix(a: seq<int>, k: nat)
    requires k <= |a| && forall i :: 0 <= i < |a| ==> 0 <= a[i]
    ensures Sum(a[..k]) <= Sum(a)
  {
    var front, rest := a[..k], a[k..];
    SumNonNegative(rest);
    SumAppend(front, rest);
    assert a == front + rest;
  }

  /** Two sequences, one below the other, with the same sum are equal. */
  lemma {:induction false} SumTight(a: seq<int>, b: seq<int>)
    requires |a| == |b|
    requires forall i :: 0 <= i < |a| ==> a[i] <= b[i]
    requires Sum(a) >= Sum(b)
    ensures a == b
  {
    if a != [] {
      var n := |a| - 1;
      SumLe(a[..n], b[..n]);
      SumTight(a[..n], b[..n]);
      assert a == a[..n] + [a[n]] && b == b[..n] + [b[n]];
    }
  }

  lemma {:induction false} SumBelowFindsEntry(a: seq<int>, b: seq<int>) returns (k: nat)
    requires |a| == |b|
    requires Sum(a) < Sum(b)
    ensures k < |a| && a[k] < b[k]
  {
    if forall i :: 0 <= i < |a| ==> b[i] <= a[i] {
      SumLe(b, a);
      assert false;
    }
    k :| k < |a| && a[k] < b[k];
  }

  lemma {:induction false} SumConstant(n: nat, v: int)
    ensures Sum(seq(n, i => v)) == n * v
  {
    if n > 0 {
      SumConstant(n - 1, v);
      assert seq(n, i => v)[..n - 1] == seq(n - 1, i => v);
    }
  }

  lemma {:induction false} SumZero(s: seq<int>)
    requires forall i :: 0 <= i < |s| ==> s[i] == 0
    ensures Sum(s) == 0
  {
    if s != [] {
      SumZero(s[..|s| - 1]);
    }
  }

  // ----- pointwise sums -----

  function Add(a: seq<int>, b: seq<int>): seq<int>
    requires |a| == |b|
  {
    seq(|a|, i requires 0 <= i < |a| => a[i] + b[i])
  }

  lemma {:induction false} SumAdd(a: seq<int>, b: seq<int>)
    requires |a| == |b|
    ensures Sum(Add(a, b)) == Sum(a) + Sum(b)
  {
    if a != [] {
      var n := |a| - 1;
      SumAdd(a[..n], b[..n]);
      assert Add(a, b)[..n] == Add(a[..n], b[..n]);
    }
  }

  lemma SumsSplit(a: seq<int>, b: seq<int>, total: seq<int>)
    requires |a| == |b| == |total| && forall i :: 0 <= i < |a| ==> a[i] + b[i] == total[i]
    ensures Sum(a) + Sum(b) == Sum(total)
  {
    SumAdd(a, b);
    assert Add(a, b) == total;
  }

  // ----- restricted sums -----

  lemma {:induction false} WeightModular(w: seq<int>, a: set<nat>, b: set<nat>)
    ensures Weight(w, a + b) + Weight(w, a * b) == Weight(w, a) + Weight(w, b)
  {
    if w != [] {
      WeightModular(w[..|w| - 1], a, b);
    }
  }

  lemma {:induction false} WeightMonotone(w: seq<int>, a: set<nat>, b: set<nat>)
    requires forall i :: 0 <= i < |w| ==> 0 <= w[i]
    requires forall i :: 0 <= i < |w| && i in a && 0 < w[i] ==> i in b
    ensures Weight(w, a) <= Weight(w, b)
  {
    if w != [] {
      WeightMonotone(w[..|w| - 1], a, b);
    }
  }

  lemma {:induction false} WeightAll(w: seq<int>, a: set<nat>)
    requires forall i :: 0 <= i < |w| ==> i in a
    ensures Weight(w, a) == Sum(w)
  {
    if w != [] {
      WeightAll(w[..|w| - 1], a);
    }
  }

  lemma {:induction false} WeightNone(w: seq<int>, a: set<nat>)
    requires forall i :: 0 <= i < |w| && i in a ==> w[i] == 0
    ensures Weight(w, a) == 0
  {
    if w != [] {
      WeightNone(w[..|w| - 1], a);
    }
  }

  lemma {:induction false} WeightUpdate(w: seq<int>, a: set<nat>, k: nat, v: int)
    requires k < |w|
    ensures Weight(w[k := v], a) == Weight(w, a) + (if k in a then v - w[k] else 0)
  {
    var n := |w| - 1;
    if k == n {
      assert w[k := v][..n] == w[..n];
    } else {
      WeightUpdate(w[..n], a, k, v);
      assert w[k := v][..n] == w[..n][k := v];
    }
  }

  lemma {:induction false} WeightLe(v: seq<int>, w: seq<int>, a: set<nat>)
    requires |v| == |w|
    requires forall i :: 0 <= i < |v| && i in a ==> v[i] <= w[i]
    ensures Weight(v, a) <= Weight(w, a)
  {
    if w != [] {
      WeightLe(v[..|v| - 1], w[..|w| - 1], a);
    }
  }

  lemma {:induction false} WeightAdd(v: seq<int>, w: seq<int>, a: set<nat>)
    requires |v| == |w|
    ensures Weight(Add(v, w), a) == Weight(v, a) + Weight(w, a)
  {
    if w != [] {
      var n := |w| - 1;
      WeightAdd(v[..n], w[..n], a);
      assert Add(v, w)[..n] == Add(v[..n], w[..n]);
    }
  }

  // ----- matrices, as sequences of equally long rows -----

  predicate IsMatrix(x: seq<seq<int>>, columns: nat) {
    forall p :: 0 <= p < |x| ==> |x[p]| == columns
  }

  /** The sequence of column sums. */
  function ColumnSums(x: seq<seq<int>>, columns: nat): (r: seq<int>)
    requires IsMatrix(x, columns)
    ensures |r| == columns
  {
    if x == [] then seq(columns, t => 0)
    else Add(ColumnSums(x[..|x| - 1], columns), x[|x| - 1])
  }

  function RowSums(x: seq<seq<int>>): (r: seq<int>)
    ensures |r| == |x|
    ensures forall p :: 0 <= p < |x| ==> r[p] == Sum(x[p])
  {
    seq(|x|, p requires 0 <= p < |x| => Sum(x[p]))
  }

  lemma {:induction false} DoubleCount(x: seq<seq<int>>, columns: nat)
    requires IsMatrix(x, columns)
    ensures Sum(RowSums(x)) == Sum(ColumnSums(x, columns))
  {
    if x == [] {
      SumConstant(columns, 0);
    } else {
      var n := |x| - 1;
      DoubleCount(x[..n], columns);
      assert RowSums(x)[..n] == RowSums(x[..n]);
      SumAdd(ColumnSums(x[..n], columns), x[n]);
    }
  }

  lemma {:induction false} ColumnUpdate(x: seq<seq<int>>, columns: nat, p: nat, t: nat, v: int)
    requires IsMatrix(x, columns) && p < |x| && t < columns
    ensures IsMatrix(x[p := x[p][t := v]], columns)
    ensures ColumnSums(x[p := x[p][t := v]], columns)
         == ColumnSums(x, columns)[t := ColumnSums(x, columns)[t] - x[p][t] + v]
  {
    var n := |x| - 1;
    var y := x[p := x[p][t := v]];
    if p == n {
      assert y[..n] == x[..n];
    } else {
      ColumnUpdate(x[..n], columns, p, t, v);
      assert y[..n] == x[..n][p := x[..n][p][t := v]];
    }
  }
}
