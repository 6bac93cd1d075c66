/** Placing each row of a relation in exactly one column, under column quotas: shipments of single units. */
module Placement {
  import opened Sums
  import opened Transport

  function Ones(n: nat): (r: seq<int>)
    ensures |r| == n && forall i :: 0 <= i < n ==> r[i] == 1
  {
    seq(n, i => 1)
  }

  /** How many rows are placed in column t. */
  function Count(a: seq<nat>, t: nat): nat
  {
    if a == [] then 0 else Count(a[..|a| - 1], t) + (if a[|a| - 1] == t then 1 else 0)
  }

  function CountVector(a: seq<nat>, n: nat): (r: seq<int>)
    ensures |r| == n && forall t :: 0 <= t < n ==> r[t] == Count(a, t)
  {
    seq(n, t requires 0 <= t < n => Count(a, t))
  }

  lemma {:induction false} CountSum(a: seq<nat>, n: nat)
    requires forall p :: 0 <= p < |a| ==> a[p] < n
    ensures Sum(CountVector(a, n)) == |a|
  {
    var counts := CountVector(a, n);
    if a == [] {
      SumZero(counts);
    } else {
      var front, last := a[..|a| - 1], a[|a| - 1];
      var before := CountVector(front, n);
      CountSum(front, n);
      SumUpdate(before, last, before[last] + 1);
      assert counts == before[last := before[last] + 1];
    }
  }

  /** Every row sits in a column it is related to, and every column holds between m and c rows. */
  ghost predicate Placed(a: seq<nat>, adj: seq<set<nat>>, m: seq<int>, c: seq<int>)
    requires |m| == |c|
  {
    && |a| == |adj|
    && (forall p :: 0 <= p < |a| ==> a[p] in adj[p])
    && (forall t :: 0 <= t < |c| ==> m[t] <= Count(a, t) <= c[t])
  }

  ghost function Unit(columns: nat, t: nat): (r: seq<int>)
    ensures |r| == columns
    ensures forall i :: 0 <= i < columns ==> r[i] == if i == t then 1 else 0
  {
    seq(columns, i => if i == t then 1 else 0)
  }

  ghost function Incidence(a: seq<nat>, columns: nat): (x: seq<seq<int>>)
    ensures |x| == |a| && IsMatrix(x, columns)
    ensures forall p :: 0 <= p < |a| ==> x[p] == Unit(columns, a[p])
  {
    seq(|a|, p requires 0 <= p < |a| => Unit(columns, a[p]))
  }

  lemma UnitSum(columns: nat, t: nat)
    requires t < columns
    ensures Sum(Unit(columns, t)) == 1
  {
    SumUpdate(Unit(columns, t), t, 0);
    SumZero(Unit(columns, t)[t := 0]);
  }

  lemma {:induction false} IncidenceColumns(a: seq<nat>, columns: nat, t: nat)
    requires t < columns
    ensures ColumnSums(Incidence(a, columns), columns)[t] == Count(a, t)
  {
    if a != [] {
      var n := |a| - 1;
      IncidenceColumns(a[..n], columns, t);
      assert Incidence(a, columns)[..n] == Incidence(a[..n], columns);
    }
  }

  /** A row of non-negative integers that sums to 1 is a unit row. */
  lemma UnitRow(row: seq<int>) returns (t: nat)
    requires NonNegative(row) && Sum(row) == 1
    ensures t < |row| && row == Unit(|row|, t)
  {
    if forall i :: 0 <= i < |row| ==> row[i] == 0 {
      SumZero(row);
    }
    t :| t < |row| && 0 < row[t];
    SumUpdate(row, t, row[t] - 1);
    var rest := row[t := row[t] - 1];
    forall i | 0 <= i < |rest| ensures rest[i] == 0 {
      SumAtLeastEntry(rest, i);
    }
    assert forall i :: 0 <= i < |row| && i != t ==> row[i] == rest[i];
    assert rest[t] == row[t] - 1;
  }

  lemma {:induction false} UnitRows(x: seq<seq<int>>, columns: nat) returns (a: seq<nat>)
    requires IsMatrix(x, columns)
    requires forall p :: 0 <= p < |x| ==> NonNegative(x[p]) && Sum(x[p]) == 1
    ensures |a| == |x| && Incidence(a, columns) == x
    ensures forall p :: 0 <= p < |a| ==> a[p] < columns && x[p][a[p]] == 1
  {
    if x == [] {
      a := [];
    } else {
      var n := |x| - 1;
      var front := UnitRows(x[..n], columns);
      var t := UnitRow(x[n]);
      a := front + [t];
      forall p | 0 <= p < |x| ensures Unit(columns, a[p]) == x[p] {
        if p < n {
          assert Incidence(front, columns)[p] == x[..n][p];
        }
      }
    }
  }

  lemma PlacementShips(a: seq<nat>, adj: seq<set<nat>>, m: seq<int>, c: seq<int>)
    requires |m| == |c| && IsRelation(adj, |c|)
    requires Placed(a, adj, m, c)
    ensures ShipsWithin(Incidence(a, |c|), adj, Ones(|adj|), m, c)
  {
    var x := Incidence(a, |c|);
    forall p | 0 <= p < |x| ensures IsRow(x[p], adj[p]) && Sum(x[p]) == 1 {
      assert a[p] in adj[p];
      UnitSum(|c|, a[p]);
    }
    assert RowSums(x) == Ones(|adj|);
    forall t | 0 <= t < |c| ensures m[t] <= ColumnSums(x, |c|)[t] <= c[t] {
      IncidenceColumns(a, |c|, t);
    }
  }

  lemma ShipmentPlaces(x: seq<seq<int>>, adj: seq<set<nat>>, m: seq<int>, c: seq<int>) returns (a: seq<nat>)
    requires |m| == |c| && ShipsWithin(x, adj, Ones(|adj|), m, c)
    ensures Placed(a, adj, m, c)
  {
    forall p | 0 <= p < |x| ensures NonNegative(x[p]) && Sum(x[p]) == 1 {
      assert IsRow(x[p], adj[p]) && RowSums(x)[p] == 1;
    }
    a := UnitRows(x, |c|);
    forall p | 0 <= p < |a| ensures a[p] in adj[p] {
      assert IsRow(x[p], adj[p]);
    }
    forall t | 0 <= t < |c| ensures m[t] <= Count(a, t) <= c[t] {
      IncidenceColumns(a, |c|, t);
    }
  }

  /**
   When a placement within quotas exists: exactly when no set of rows outgrows the capacity it can
   reach and no set of columns needs more rows than can reach it.
   */
  lemma PlacementIffHall(adj: seq<set<nat>>, m: seq<int>, c: seq<int>)
    requires |m| == |c| && IsRelation(adj, |c|) && NonNegative(m)
    requires forall t :: 0 <= t < |c| ==> m[t] <= c[t]
    ensures (exists a :: Placed(a, adj, m, c))
       <==> Hall(adj, Ones(|adj|), c) && Hall(Converse(adj, |c|), m, Ones(|adj|))
  {
    var d := Ones(|adj|);
    FeasibleIffHall(adj, d, m, c);
    if Feasible(adj, d, m, c) {
      var x :| ShipsWithin(x, adj, d, m, c);
      var a := ShipmentPlaces(x, adj, m, c);
    }
    if a :| Placed(a, adj, m, c) {
      PlacementShips(a, adj, m, c);
    }
  }
}
