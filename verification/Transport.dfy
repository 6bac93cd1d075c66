/** Integral shipments under capacities and minima, and the Hall-type conditions that decide whether one exists. */
module Transport {
  import opened Sums

  predicate IsRelation(adj: seq<set<nat>>, columns: nat) {
    forall p :: 0 <= p < |adj| ==> forall t :: t in adj[p] ==> t < columns
  }

  ghost function Range(n: nat): (r: set<nat>)
    ensures forall i: nat :: i in r <==> i < n
  {
    if n == 0 then {} else Range(n - 1) + {n - 1}
  }

  predicate NonNegative(s: seq<int>) {
    forall i :: 0 <= i < |s| ==> 0 <= s[i]
  }

  /** The columns that some chosen row may ship to. */
  ghost function Neighbours(adj: seq<set<nat>>, rows: set<nat>): (r: set<nat>)
    ensures forall t :: t in r <==> exists p :: p in rows && p < |adj| && t in adj[p]
  {
    set p, t | p in rows && p < |adj| && t in adj[p] :: t
  }

  /** The relation read from the columns' side. */
  ghost function Converse(adj: seq<set<nat>>, columns: nat): (r: seq<set<nat>>)
    ensures |r| == columns && IsRelation(r, |adj|)
    ensures forall t, p: nat :: 0 <= t < columns ==> (p in r[t] <==> p < |adj| && t in adj[p])
  {
    seq(columns, t => set p: nat | p in Range(|adj|) && t in adj[p])
  }

  /** Every set of rows finds enough capacity among its neighbours. */
  ghost predicate Hall(adj: seq<set<nat>>, d: seq<int>, c: seq<int>) {
    forall rows: set<nat> :: Weight(d, rows) <= Weight(c, Neighbours(adj, rows))
  }

  /** One row of a shipment: non-negative, and zero outside the columns it may use. */
  ghost predicate IsRow(row: seq<int>, near: set<nat>) {
    forall t :: 0 <= t < |row| ==> 0 <= row[t] && (t !in near ==> row[t] == 0)
  }

  /** A non-negative shipment that uses only the relation. */
  ghost predicate IsShipment(x: seq<seq<int>>, adj: seq<set<nat>>, columns: nat) {
    && |x| == |adj| && IsMatrix(x, columns)
    && forall p :: 0 <= p < |x| ==> IsRow(x[p], adj[p])
  }

  lemma ReplaceRow(x: seq<seq<int>>, adj: seq<set<nat>>, columns: nat, p: nat, row: seq<int>)
    requires IsShipment(x, adj, columns) && p < |x| && |row| == columns && IsRow(row, adj[p])
    ensures IsShipment(x[p := row], adj, columns)
  {
    var y := x[p := row];
    forall q | 0 <= q < |y| ensures |y[q]| == columns && IsRow(y[q], adj[q]) {
      if q != p {
        assert y[q] == x[q];
      }
    }
  }

  lemma TransposedShipment(x: seq<seq<int>>, adj: seq<set<nat>>, columns: nat)
    requires IsShipment(x, adj, columns)
    ensures IsShipment(Transposed(x, columns), Converse(adj, columns), |x|)
  {
    var w, back := Transposed(x, columns), Converse(adj, columns);
    forall t | 0 <= t < columns ensures IsRow(w[t], back[t]) {
      forall p | 0 <= p < |x| ensures 0 <= w[t][p] && (p !in back[t] ==> w[t][p] == 0) {
        assert w[t][p] == x[p][t];
        assert IsRow(x[p], adj[p]);
      }
    }
  }

  ghost predicate Ships(x: seq<seq<int>>, adj: seq<set<nat>>, d: seq<int>, c: seq<int>) {
    && IsShipment(x, adj, |c|)
    && RowSums(x) == d
    && forall t :: 0 <= t < |c| ==> ColumnSums(x, |c|)[t] <= c[t]
  }

  // ----- necessity: a shipment satisfies Hall's condition -----

  lemma {:induction false} RowWeightBound(x: seq<seq<int>>, adj: seq<set<nat>>, columns: nat, rows: set<nat>,
        near: set<nat>)
    requires IsShipment(x, adj, columns)
    requires forall p, t :: 0 <= p < |x| && p in rows && t in adj[p] ==> t in near
    ensures Weight(RowSums(x), rows) <= Weight(ColumnSums(x, columns), near)
  {
    if x == [] {
      assert RowSums(x) == [];
      WeightNone(ColumnSums(x, columns), near);
    } else {
      var n := |x| - 1;
      RowWeightBound(x[..n], adj[..n], columns, rows, near);
      assert RowSums(x)[..n] == RowSums(x[..n]);
      WeightAdd(ColumnSums(x[..n], columns), x[n], near);
      if n in rows {
        WeightAll(x[n], Range(columns));
        WeightMonotone(x[n], Range(columns), near);
      } else {
        WeightMonotone(x[n], {}, near);
        WeightNone(x[n], {});
      }
    }
  }

  lemma ShipmentImpliesHall(x: seq<seq<int>>, adj: seq<set<nat>>, d: seq<int>, c: seq<int>)
    requires Ships(x, adj, d, c)
    ensures Hall(adj, d, c)
  {
    forall rows: set<nat> ensures Weight(d, rows) <= Weight(c, Neighbours(adj, rows)) {
      var near := Neighbours(adj, rows);
      RowWeightBound(x, adj, |c|, rows, near);
      WeightLe(ColumnSums(x, |c|), c, near);
    }
  }

  // ----- sufficiency: Hall's condition yields a shipment -----

  ghost predicate Tight(adj: seq<set<nat>>, d: seq<int>, c: seq<int>, p: nat, rows: set<nat>) {
    p !in rows && Weight(d, rows) == Weight(c, Neighbours(adj, rows))
  }

  lemma TightUnion(adj: seq<set<nat>>, d: seq<int>, c: seq<int>, p: nat, a: set<nat>, b: set<nat>)
    requires Hall(adj, d, c) && NonNegative(c)
    requires Tight(adj, d, c, p, a) && Tight(adj, d, c, p, b)
    ensures Tight(adj, d, c, p, a + b)
  {
    WeightModular(d, a, b);
    WeightModular(c, Neighbours(adj, a), Neighbours(adj, b));
    assert Neighbours(adj, a + b) == Neighbours(adj, a) + Neighbours(adj, b);
    WeightMonotone(c, Neighbours(adj, a * b), Neighbours(adj, a) * Neighbours(adj, b));
    assert Weight(d, a * b) <= Weight(c, Neighbours(adj, a * b));
    assert Weight(d, a + b) <= Weight(c, Neighbours(adj, a + b));
  }

  /** Among the tight sets within the rows there is one that contains all the others. */
  lemma {:induction false} LargestTight(adj: seq<set<nat>>, d: seq<int>, c: seq<int>, p: nat, start: set<nat>)
    returns (top: set<nat>)
    requires Hall(adj, d, c) && NonNegative(c)
    requires Tight(adj, d, c, p, start) && forall i :: i in start ==> i < |adj|
    ensures Tight(adj, d, c, p, top)
    ensures forall rows :: Tight(adj, d, c, p, rows) && (forall i :: i in rows ==> i < |adj|) ==> rows <= top
    decreases Range(|adj|) - start
  {
    if rows :| Tight(adj, d, c, p, rows) && (forall i :: i in rows ==> i < |adj|) && !(rows <= start) {
      TightUnion(adj, d, c, p, start, rows);
      var i :| i in rows && i !in start;
      assert i in Range(|adj|) - start && i !in Range(|adj|) - (start + rows);
      top := LargestTight(adj, d, c, p, start + rows);
    } else {
      top := start;
    }
  }

  /** A tight set whose neighbours are all that row p could use leaves nothing for row p. */
  lemma Overloaded(adj: seq<set<nat>>, d: seq<int>, c: seq<int>, p: nat, top: set<nat>)
    requires |d| == |adj| && IsRelation(adj, |c|)
    requires NonNegative(d) && NonNegative(c) && p < |d| && 0 < d[p]
    requires Tight(adj, d, c, p, top)
    requires forall t: nat :: t in adj[p] && 0 < c[t] ==> t in Neighbours(adj, top)
    ensures !Hall(adj, d, c)
  {
    WeightMonotone(c, Neighbours(adj, top + {p}), Neighbours(adj, top));
    WeightModular(d, top, {p});
    WeightNone(d, top * {p});
    WeightUpdate(d, {p}, p, 0);
    WeightNone(d[p := 0], {p});
    assert !(Weight(d, top + {p}) <= Weight(c, Neighbours(adj, top + {p})));
  }

  /** Row p can send one unit somewhere without hurting any other set of rows. */
  lemma SafeColumn(adj: seq<set<nat>>, d: seq<int>, c: seq<int>, p: nat) returns (t: nat)
    requires |d| == |adj| && IsRelation(adj, |c|)
    requires NonNegative(d) && NonNegative(c) && Hall(adj, d, c)
    requires p < |d| && 0 < d[p]
    ensures t in adj[p] && t < |c| && 0 < c[t]
    ensures Hall(adj, d[p := d[p] - 1], c[t := c[t] - 1])
  {
    WeightNone(d, {});
    WeightNone(c, Neighbours(adj, {}));
    assert Tight(adj, d, c, p, {});
    var top := LargestTight(adj, d, c, p, {});
    if forall t: nat :: t in adj[p] && 0 < c[t] ==> t in Neighbours(adj, top) {
      Overloaded(adj, d, c, p, top);
    }
    t :| t in adj[p] && 0 < c[t] && t !in Neighbours(adj, top);
    var d', c' := d[p := d[p] - 1], c[t := c[t] - 1];
    forall rows: set<nat> ensures Weight(d', rows) <= Weight(c', Neighbours(adj, rows)) {
      WeightUpdate(d, rows, p, d[p] - 1);
      WeightUpdate(c, Neighbours(adj, rows), t, c[t] - 1);
      assert Weight(d, rows) <= Weight(c, Neighbours(adj, rows));
      if p !in rows && t in Neighbours(adj, rows) {
        var inside := set i | i in rows && i < |adj|;
        assert Neighbours(adj, inside) == Neighbours(adj, rows);
        WeightMonotone(d, rows, inside);
        WeightMonotone(d, inside, rows);
        assert !(inside <= top);
        assert !Tight(adj, d, c, p, inside);
      }
    }
  }

  ghost function ZeroMatrix(rows: nat, columns: nat): (x: seq<seq<int>>)
    ensures |x| == rows && IsMatrix(x, columns)
  {
    seq(rows, p => seq(columns, t => 0))
  }

  lemma {:induction false} ZeroColumns(rows: nat, columns: nat)
    ensures ColumnSums(ZeroMatrix(rows, columns), columns) == seq(columns, t => 0)
  {
    if rows > 0 {
      ZeroColumns(rows - 1, columns);
      assert ZeroMatrix(rows, columns)[..rows - 1] == ZeroMatrix(rows - 1, columns);
    }
  }

  /** Hall's theorem for shipments: the condition is enough. */
  lemma {:induction false} HallImpliesShipment(adj: seq<set<nat>>, d: seq<int>, c: seq<int>) returns (x: seq<seq<int>>)
    requires |d| == |adj| && IsRelation(adj, |c|)
    requires NonNegative(d) && NonNegative(c) && Hall(adj, d, c)
    ensures Ships(x, adj, d, c)
    decreases Sum(d)
  {
    if forall p :: 0 <= p < |d| ==> d[p] == 0 {
      x := ZeroMatrix(|d|, |c|);
      ZeroColumns(|d|, |c|);
      SumConstant(|c|, 0);
      assert RowSums(x) == d;
    } else {
      var p: nat :| p < |d| && 0 < d[p];
      var t := SafeColumn(adj, d, c, p);
      var d', c' := d[p := d[p] - 1], c[t := c[t] - 1];
      SumUpdate(d, p, d[p] - 1);
      SumNonNegative(d');
      var y := HallImpliesShipment(adj, d', c');
      x := SendUnit(y, adj, d, c, p, t);
    }
  }

  /** One more unit from row p to column t. */
  lemma SendUnit(y: seq<seq<int>>, adj: seq<set<nat>>, d: seq<int>, c: seq<int>, p: nat,
        t: nat) returns (x: seq<seq<int>>)
    requires p < |d| && t < |c| && p < |adj| && t in adj[p]
    requires Ships(y, adj, d[p := d[p] - 1], c[t := c[t] - 1])
    ensures Ships(x, adj, d, c)
  {
    var v := y[p][t] + 1;
    var row := y[p][t := v];
    x := y[p := row];
    ColumnUpdate(y, |c|, p, t, v);
    SumUpdate(y[p], t, v);
    assert IsRow(y[p], adj[p]);
    ReplaceRow(y, adj, |c|, p, row);
    forall q | 0 <= q < |d| ensures RowSums(x)[q] == d[q] {
      assert RowSums(y)[q] == d[p := d[p] - 1][q];
    }
  }

  // ----- lower bounds on the columns -----

  /** Exact rows, and every column between its minimum and its maximum. */
  ghost predicate ShipsWithin(x: seq<seq<int>>, adj: seq<set<nat>>, d: seq<int>, m: seq<int>, c: seq<int>)
    requires |m| == |c|
  {
    Ships(x, adj, d, c) && forall t :: 0 <= t < |c| ==> m[t] <= ColumnSums(x, |c|)[t]
  }

  /** A partial shipment that meets the minima exactly and overdraws no row. */
  ghost predicate MeetsMinima(y: seq<seq<int>>, adj: seq<set<nat>>, d: seq<int>, m: seq<int>) {
    && IsShipment(y, adj, |m|)
    && |d| == |adj|
    && (forall p :: 0 <= p < |d| ==> RowSums(y)[p] <= d[p])
    && ColumnSums(y, |m|) == m
  }

  /** How far two shipments are apart, entry by entry. */
  ghost function Distance(x: seq<seq<int>>, y: seq<seq<int>>, columns: nat): (r: nat)
    requires |x| == |y| && IsMatrix(x, columns) && IsMatrix(y, columns)
  {
    if x == [] then 0
    else Distance(x[..|x| - 1], y[..|y| - 1], columns) + RowDistance(x[|x| - 1], y[|y| - 1])
  }

  ghost function RowDistance(a: seq<int>, b: seq<int>): (r: nat)
    requires |a| == |b|
  {
    if a == [] then 0
    else
      var x, y := a[|a| - 1], b[|b| - 1];
      RowDistance(a[..|a| - 1], b[..|b| - 1]) + (if x < y then y - x else x - y)
  }

  lemma {:induction false} RowDistanceCloser(a: seq<int>, b: seq<int>, t: nat, v: int)
    requires |a| == |b| && t < |a|
    requires a[t] < v <= b[t] || b[t] <= v < a[t]
    ensures RowDistance(a[t := v], b) < RowDistance(a, b)
  {
    var n := |a| - 1;
    if t == n {
      assert a[t := v][..n] == a[..n];
    } else {
      RowDistanceCloser(a[..n], b[..n], t, v);
      assert a[t := v][..n] == a[..n][t := v];
    }
  }

  lemma {:induction false} DistanceCloser(x: seq<seq<int>>, y: seq<seq<int>>, columns: nat, p: nat, row: seq<int>)
    requires |x| == |y| && IsMatrix(x, columns) && IsMatrix(y, columns)
    requires p < |x| && |row| == columns
    requires RowDistance(row, y[p]) < RowDistance(x[p], y[p])
    ensures IsMatrix(x[p := row], columns)
    ensures Distance(x[p := row], y, columns) < Distance(x, y, columns)
  {
    var n := |x| - 1;
    if p == n {
      assert x[p := row][..n] == x[..n];
    } else {
      DistanceCloser(x[..n], y[..n], columns, p, row);
      assert x[p := row][..n] == x[..n][p := row];
    }
  }

  /** A column sum below another's is below it in some row. */
  lemma {:induction false} ShortRow(x: seq<seq<int>>, y: seq<seq<int>>, columns: nat, t: nat) returns (p: nat)
    requires |x| == |y| && IsMatrix(x, columns) && IsMatrix(y, columns) && t < columns
    requires ColumnSums(x, columns)[t] < ColumnSums(y, columns)[t]
    ensures p < |x| && x[p][t] < y[p][t]
  {
    var n := |x| - 1;
    if x[n][t] < y[n][t] {
      p := n;
    } else {
      p := ShortRow(x[..n], y[..n], columns, t);
    }
  }

  /**
   Joining the two sides: a shipment within the maxima and a partial one that meets the minima
   give a single shipment between minima and maxima. Each exchange moves one unit of `x` in the
   direction of `y` along one row, so the distance to `y` falls until no column is short.
   */
  lemma {:induction false} JoinBounds(
    x: seq<seq<int>>, y: seq<seq<int>>, adj: seq<set<nat>>, d: seq<int>, m: seq<int>, c: seq<int>)
    returns (z: seq<seq<int>>)
    requires |m| == |c| && forall t :: 0 <= t < |c| ==> m[t] <= c[t]
    requires Ships(x, adj, d, c) && MeetsMinima(y, adj, d, m)
    ensures ShipsWithin(z, adj, d, m, c)
    decreases Distance(x, y, |c|)
  {
    if forall t :: 0 <= t < |c| ==> m[t] <= ColumnSums(x, |c|)[t] {
      z := x;
    } else {
      var t: nat :| t < |c| && ColumnSums(x, |c|)[t] < m[t];
      var p := ShortRow(x, y, |c|, t);
      var x' := Exchange(x, y, adj, d, m, c, p, t);
      z := JoinBounds(x', y, adj, d, m, c);
    }
  }

  /** A unit of row p moves to the short column t, from a column where row p sends more than `y`. */
  lemma Exchange(
    x: seq<seq<int>>, y: seq<seq<int>>, adj: seq<set<nat>>, d: seq<int>, m: seq<int>, c: seq<int>, p: nat, t: nat)
    returns (x': seq<seq<int>>)
    requires |m| == |c| && forall t :: 0 <= t < |c| ==> m[t] <= c[t]
    requires Ships(x, adj, d, c) && MeetsMinima(y, adj, d, m)
    requires p < |x| && t < |c| && x[p][t] < y[p][t] && ColumnSums(x, |c|)[t] < m[t]
    ensures Ships(x', adj, d, c) && Distance(x', y, |c|) < Distance(x, y, |c|)
  {
    assert Sum(y[p]) <= Sum(x[p]) by {
      assert RowSums(y)[p] <= d[p] && RowSums(x)[p] == d[p];
    }
    assert IsRow(x[p], adj[p]) && IsRow(y[p], adj[p]);
    var u, row := ExchangeRow(x[p], y[p], adj[p], t);
    x' := x[p := row];
    ExchangeColumns(x, |c|, p, t, u, row);
    DistanceCloser(x, y, |c|, p, row);
    ReplaceRow(x, adj, |c|, p, row);
    forall q | 0 <= q < |x| ensures RowSums(x')[q] == RowSums(x)[q] {
    }
  }

  ghost predicate UnitMoved(a: seq<int>, row: seq<int>, t: nat, u: nat) {
    && |row| == |a| && t < |a| && u < |a| && t != u
    && row[t] == a[t] + 1 && row[u] == a[u] - 1
    && forall i :: 0 <= i < |a| && i != t && i != u ==> row[i] == a[i]
  }

  /** Within one row: an entry above `b` gives the unit that entry t lacks. */
  lemma ExchangeRow(a: seq<int>, b: seq<int>, near: set<nat>, t: nat) returns (u: nat, row: seq<int>)
    requires IsRow(a, near) && IsRow(b, near)
    requires |a| == |b| && t < |a| && a[t] < b[t] && Sum(b) <= Sum(a)
    ensures UnitMoved(a, row, t, u) && b[u] < a[u]
    ensures IsRow(row, near) && Sum(row) == Sum(a)
    ensures RowDistance(row, b) < RowDistance(a, b)
  {
    var up := a[t := a[t] + 1];
    SumUpdate(a, t, a[t] + 1);
    u := SumBelowFindsEntry(b, up);
    row := up[u := up[u] - 1];
    SumUpdate(up, u, up[u] - 1);
    RowDistanceCloser(a, b, t, a[t] + 1);
    RowDistanceCloser(up, b, u, up[u] - 1);
  }

  lemma ExchangeColumns(x: seq<seq<int>>, columns: nat, p: nat, t: nat, u: nat, row: seq<int>)
    requires IsMatrix(x, columns) && p < |x| && UnitMoved(x[p], row, t, u)
    ensures IsMatrix(x[p := row], columns)
    ensures UnitMoved(ColumnSums(x, columns), ColumnSums(x[p := row], columns), t, u)
  {
    var up := x[p][t := x[p][t] + 1];
    var x1 := x[p := up];
    ColumnUpdate(x, columns, p, t, x[p][t] + 1);
    ColumnUpdate(x1, columns, p, u, x[p][u] - 1);
    assert up[u := x[p][u] - 1] == row;
    assert x1[p := row] == x[p := row];
  }

  ghost function Transposed(x: seq<seq<int>>, columns: nat): (r: seq<seq<int>>)
    requires IsMatrix(x, columns)
    ensures |r| == columns && IsMatrix(r, |x|)
  {
    seq(columns, t requires 0 <= t < columns => seq(|x|, p requires 0 <= p < |x| => x[p][t]))
  }

  lemma {:induction false} TransposedSums(x: seq<seq<int>>, columns: nat)
    requires IsMatrix(x, columns)
    ensures RowSums(Transposed(x, columns)) == ColumnSums(x, columns)
    ensures ColumnSums(Transposed(x, columns), |x|) == RowSums(x)
  {
    TransposedRows(x, columns);
    var y := Transposed(x, columns);
    TransposedRows(y, |x|);
    var z := Transposed(y, |x|);
    assert |z| == |x| && forall p :: 0 <= p < |x| ==> z[p] == x[p];
    assert z == x;
  }

  lemma {:induction false} TransposedRows(x: seq<seq<int>>, columns: nat)
    requires IsMatrix(x, columns)
    ensures RowSums(Transposed(x, columns)) == ColumnSums(x, columns)
  {
    if x == [] {
      assert RowSums(Transposed(x, columns)) == ColumnSums(x, columns);
    } else {
      var n := |x| - 1;
      TransposedRows(x[..n], columns);
      forall t | 0 <= t < columns
        ensures Sum(Transposed(x, columns)[t]) == ColumnSums(x, columns)[t]
      {
        assert Transposed(x, columns)[t][..n] == Transposed(x[..n], columns)[t];
        assert Sum(Transposed(x[..n], columns)[t]) == RowSums(Transposed(x[..n], columns))[t];
      }
    }
  }

  /**
   The exact criterion for shipping every row while keeping each column between its minimum and
   its maximum: rows find enough capacity, and minima find enough supply.
   */
  ghost predicate Feasible(adj: seq<set<nat>>, d: seq<int>, m: seq<int>, c: seq<int>)
    requires |m| == |c|
  {
    exists x :: ShipsWithin(x, adj, d, m, c)
  }

  lemma MinimaShipment(adj: seq<set<nat>>, d: seq<int>, m: seq<int>) returns (y: seq<seq<int>>)
    requires |d| == |adj| && IsRelation(adj, |m|)
    requires NonNegative(d) && NonNegative(m) && Hall(Converse(adj, |m|), m, d)
    ensures MeetsMinima(y, adj, d, m)
  {
    var w := HallImpliesShipment(Converse(adj, |m|), m, d);
    y := Transposed(w, |d|);
    TransposedSums(w, |d|);
    TransposedShipment(w, Converse(adj, |m|), |d|);
    var back := Converse(Converse(adj, |m|), |d|);
    forall p | 0 <= p < |adj| ensures back[p] == adj[p] {
    }
    assert back == adj;
  }

  lemma FeasibleIffHall(adj: seq<set<nat>>, d: seq<int>, m: seq<int>, c: seq<int>)
    requires |d| == |adj| && |m| == |c| && IsRelation(adj, |c|)
    requires NonNegative(d) && NonNegative(m)
    requires forall t :: 0 <= t < |c| ==> m[t] <= c[t]
    ensures Feasible(adj, d, m, c) <==> Hall(adj, d, c) && Hall(Converse(adj, |c|), m, d)
  {
    if Hall(adj, d, c) && Hall(Converse(adj, |c|), m, d) {
      var x := HallImpliesShipment(adj, d, c);
      var y := MinimaShipment(adj, d, m);
      var z := JoinBounds(x, y, adj, d, m, c);
    }
    if x :| ShipsWithin(x, adj, d, m, c) {
      ShipmentImpliesHall(x, adj, d, c);
      MinimaNeedSupply(x, adj, d, m);
    }
  }

  /** A shipment whose columns reach the minima leaves no set of columns short of supply. */
  lemma MinimaNeedSupply(x: seq<seq<int>>, adj: seq<set<nat>>, d: seq<int>, m: seq<int>)
    requires IsShipment(x, adj, |m|) && RowSums(x) == d
    requires forall t :: 0 <= t < |m| ==> m[t] <= ColumnSums(x, |m|)[t]
    ensures Hall(Converse(adj, |m|), m, d)
  {
    var w := Transposed(x, |m|);
    TransposedSums(x, |m|);
    TransposedShipment(x, adj, |m|);
    var back := Converse(adj, |m|);
    forall columns: set<nat> ensures Weight(m, columns) <= Weight(d, Neighbours(back, columns)) {
      RowWeightBound(w, back, |d|, columns, Neighbours(back, columns));
      WeightLe(m, RowSums(w), columns);
    }
  }
}
