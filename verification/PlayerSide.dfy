/**
 The part of an assignment network that belongs to the players: one unit from the source to each
 player, and from there one arc per usable row to the node the row stands for.

 A flow on these arcs that meets the supplies is exactly a choice of one usable row per player; the
 two networks differ only in the node a row leads to.
 */
module PlayerSide {
  import opened Optional
  import opened AmateurData
  import opened Network

  /** For each player and row: the node the row leads to, if the row is usable, and its weight. */
  datatype Side = Side(dest: seq<seq<Option<Node>>>, weight: seq<seq<int>>)

  ghost predicate IsSide(s: Side) {
    && |s.dest| == |s.weight|
    && (forall p :: 0 <= p < |s.dest| ==> |s.dest[p]| == |s.weight[p]|)
    && forall p, r :: 0 <= p < |s.dest| && 0 <= r < |s.dest[p]| && s.dest[p][r].Some? ==>
         s.dest[p][r].value.TeamNode? || s.dest[p][r].value.RoleNode?
  }

  // ----- choices -----

  predicate Hits(s: Side, p: nat, r: nat)
    requires p < |s.dest|
  {
    r < |s.dest[p]| && s.dest[p][r].Some?
  }

  /** One usable row for each of the first |a| players. */
  ghost predicate IsChoice(s: Side, a: seq<nat>) {
    |a| <= |s.dest| && forall p :: 0 <= p < |a| ==> Hits(s, p, a[p])
  }

  /** How many of the chosen rows lead to the node. */
  ghost function Visits(s: Side, a: seq<nat>, node: Node): nat
    requires IsChoice(s, a)
  {
    if a == [] then 0
    else
      var n := |a| - 1;
      Visits(s, a[..n], node) + (if s.dest[n][a[n]].value == node then 1 else 0)
  }

  ghost function TotalWeight(s: Side, a: seq<nat>): int
    requires IsSide(s) && IsChoice(s, a)
  {
    if a == [] then 0
    else
      var n := |a| - 1;
      TotalWeight(s, a[..n]) + s.weight[n][a[n]]
  }

  function RowWeights(rows: seq<Row>): (r: seq<int>)
    ensures |r| == |rows| && forall i :: 0 <= i < |r| ==> r[i] == rows[i].weight
  {
    seq(|rows|, i requires 0 <= i < |rows| => rows[i].weight)
  }

  // ----- arcs and flows -----

  function RowArc(s: Side, p: nat, r: nat): Arc
    requires p < |s.dest| == |s.weight| && r < |s.weight[p]| && Hits(s, p, r)
  {
    Arc(PlayerNode(p), s.dest[p][r].value, 1, -s.weight[p][r], Place(p, r))
  }

  function SourceArc(p: nat): Arc {
    Arc(Source, PlayerNode(p), 1, 0, Plain)
  }

  function RowArcs(s: Side, p: nat, n: nat): seq<Arc>
    requires p < |s.dest| == |s.weight| && n <= |s.dest[p]| == |s.weight[p]|
  {
    if n == 0 then []
    else if Hits(s, p, n - 1) then RowArcs(s, p, n - 1) + [RowArc(s, p, n - 1)]
    else RowArcs(s, p, n - 1)
  }

  function PlayerBlock(s: Side, p: nat): seq<Arc>
    requires p < |s.dest| == |s.weight| && |s.dest[p]| == |s.weight[p]|
  {
    [SourceArc(p)] + RowArcs(s, p, |s.dest[p]|)
  }

  function PlayerArcs(s: Side, k: nat): seq<Arc>
    requires k <= |s.dest| == |s.weight| && forall p :: 0 <= p < |s.dest| ==> |s.dest[p]| == |s.weight[p]|
  {
    if k == 0 then [] else PlayerArcs(s, k - 1) + PlayerBlock(s, k - 1)
  }

  function Bit(on: bool): int {
    if on then 1 else 0
  }

  ghost function RowFlow(s: Side, p: nat, n: nat, chosen: nat): (f: seq<int>)
    requires IsSide(s) && p < |s.dest| && n <= |s.dest[p]|
    ensures |f| == |RowArcs(s, p, n)|
  {
    if n == 0 then []
    else if Hits(s, p, n - 1) then RowFlow(s, p, n - 1, chosen) + [Bit(n - 1 == chosen)]
    else RowFlow(s, p, n - 1, chosen)
  }

  ghost function BlockFlow(s: Side, p: nat, chosen: nat): (f: seq<int>)
    requires IsSide(s) && p < |s.dest|
    ensures |f| == |PlayerBlock(s, p)|
  {
    [1] + RowFlow(s, p, |s.dest[p]|, chosen)
  }

  /** The flow that sends every player along its chosen row. */
  ghost function ChoiceFlow(s: Side, a: seq<nat>): (f: seq<int>)
    requires IsSide(s) && |a| <= |s.dest|
    ensures |f| == |PlayerArcs(s, |a|)|
  {
    if a == [] then [] else ChoiceFlow(s, a[..|a| - 1]) + BlockFlow(s, |a| - 1, a[|a| - 1])
  }

  // ----- balances of a choice's flow -----

  ghost function RowBalance(s: Side, p: nat, n: nat, chosen: nat, node: Node): int
    requires p < |s.dest| && n <= |s.dest[p]|
  {
    var hit := chosen < n && Hits(s, p, chosen);
    (if hit && node == PlayerNode(p) then 1 else 0) - (if hit && s.dest[p][chosen].value == node then 1 else 0)
  }

  lemma {:induction false} RowFlowBalance(s: Side, p: nat, n: nat, chosen: nat, node: Node)
    requires IsSide(s) && p < |s.dest| && n <= |s.dest[p]|
    ensures NetOut(RowArcs(s, p, n), RowFlow(s, p, n, chosen), node) == RowBalance(s, p, n, chosen, node)
    ensures WithinCapacity(RowArcs(s, p, n), RowFlow(s, p, n, chosen))
    ensures Cost(RowArcs(s, p, n), RowFlow(s, p, n, chosen))
         == if chosen < n && Hits(s, p, chosen) then -s.weight[p][chosen] else 0
  {
    if n > 0 {
      RowFlowBalance(s, p, n - 1, chosen, node);
      if Hits(s, p, n - 1) {
        var unit := Bit(n - 1 == chosen);
        Snoc(RowArcs(s, p, n - 1), RowFlow(s, p, n - 1, chosen), RowArc(s, p, n - 1), unit, node);
        assert unit * RowArc(s, p, n - 1).cost == if n - 1 == chosen then -s.weight[p][chosen] else 0;
      }
    }
  }

  /** One player's block: a unit from the source to the node of the chosen row. */
  lemma BlockBalance(s: Side, p: nat, chosen: nat, node: Node)
    requires IsSide(s) && p < |s.dest| && Hits(s, p, chosen)
    ensures NetOut(PlayerBlock(s, p), BlockFlow(s, p, chosen), node)
         == (if node == Source then 1 else 0) - (if s.dest[p][chosen].value == node then 1 else 0)
    ensures WithinCapacity(PlayerBlock(s, p), BlockFlow(s, p, chosen))
    ensures Cost(PlayerBlock(s, p), BlockFlow(s, p, chosen)) == -s.weight[p][chosen]
  {
    var n := |s.dest[p]|;
    var arcs, row := RowArcs(s, p, n), RowFlow(s, p, n, chosen);
    RowFlowBalance(s, p, n, chosen, node);
    NetOutAppend([SourceArc(p)], arcs, [1], row, node);
    CostAppend([SourceArc(p)], arcs, [1], row);
    CapacityAppend([SourceArc(p)], arcs, [1], row);
    Single(SourceArc(p), 1, node);
  }

  ghost function ChoiceBalance(s: Side, a: seq<nat>, node: Node): int
    requires IsChoice(s, a)
  {
    (if node == Source then |a| else 0) - Visits(s, a, node)
  }

  lemma {:induction false} ChoiceFlowBalance(s: Side, a: seq<nat>, node: Node)
    requires IsSide(s) && IsChoice(s, a)
    ensures NetOut(PlayerArcs(s, |a|), ChoiceFlow(s, a), node) == ChoiceBalance(s, a, node)
    ensures WithinCapacity(PlayerArcs(s, |a|), ChoiceFlow(s, a))
    ensures Cost(PlayerArcs(s, |a|), ChoiceFlow(s, a)) == -TotalWeight(s, a)
  {
    if a != [] {
      var front, last := a[..|a| - 1], a[|a| - 1];
      ChoiceFlowBalance(s, front, node);
      BlockBalance(s, |front|, last, node);
      ChoiceFlowNext(s, a, node, ChoiceFlow(s, front), BlockFlow(s, |front|, last));
    }
  }

  /** One more block at the end of a choice's flow adds up balances and costs. */
  lemma ChoiceFlowNext(s: Side, a: seq<nat>, node: Node, front: seq<int>, block: seq<int>)
    requires IsSide(s) && a != [] && |a| <= |s.dest|
    requires front == ChoiceFlow(s, a[..|a| - 1]) && block == BlockFlow(s, |a| - 1, a[|a| - 1])
    requires WithinCapacity(PlayerArcs(s, |a| - 1), front) && WithinCapacity(PlayerBlock(s, |a| - 1), block)
    ensures ChoiceFlow(s, a) == front + block && PlayerArcs(s, |a|) == PlayerArcs(s, |a| - 1) + PlayerBlock(s, |a| - 1)
    ensures WithinCapacity(PlayerArcs(s, |a|), ChoiceFlow(s, a))
    ensures NetOut(PlayerArcs(s, |a|), ChoiceFlow(s, a), node)
         == NetOut(PlayerArcs(s, |a| - 1), front, node) + NetOut(PlayerBlock(s, |a| - 1), block, node)
    ensures Cost(PlayerArcs(s, |a|), ChoiceFlow(s, a))
         == Cost(PlayerArcs(s, |a| - 1), front) + Cost(PlayerBlock(s, |a| - 1), block)
  {
    var arcs, last := PlayerArcs(s, |a| - 1), PlayerBlock(s, |a| - 1);
    NetOutAppend(arcs, last, front, block, node);
    CostAppend(arcs, last, front, block);
    CapacityAppend(arcs, last, front, block);
  }

  /** Chosen rows never lead to the source, the sink or a player. */
  lemma {:induction false} VisitsOnlySeats(s: Side, a: seq<nat>, node: Node)
    requires IsSide(s) && IsChoice(s, a) && !node.TeamNode? && !node.RoleNode?
    ensures Visits(s, a, node) == 0
  {
    if a != [] {
      VisitsOnlySeats(s, a[..|a| - 1], node);
      assert Hits(s, |a| - 1, a[|a| - 1]);
    }
  }

  // ----- reading a flow back -----

  lemma {:induction false} RowsCarryAtLeastZero(s: Side, p: nat, n: nat, f: seq<int>)
    requires IsSide(s) && p < |s.dest| && n <= |s.dest[p]| && WithinCapacity(RowArcs(s, p, n), f)
    ensures NetOut(RowArcs(s, p, n), f, PlayerNode(p)) >= 0
    decreases n
  {
    if n > 0 {
      if Hits(s, p, n - 1) {
        var k := |f| - 1;
        assert f == f[..k] + [f[k]];
        Snoc(RowArcs(s, p, n - 1), f[..k], RowArc(s, p, n - 1), f[k], PlayerNode(p));
        RowsCarryAtLeastZero(s, p, n - 1, f[..k]);
      } else {
        RowsCarryAtLeastZero(s, p, n - 1, f);
      }
    }
  }

  lemma {:induction false} SameMiss(s: Side, p: nat, n: nat, c: nat, d: nat)
    requires IsSide(s) && p < |s.dest| && n <= |s.dest[p]| && c >= n && d >= n
    ensures RowFlow(s, p, n, c) == RowFlow(s, p, n, d)
  {
    if n > 0 {
      SameMiss(s, p, n - 1, c, d);
    }
  }

  /** A row block that carries nothing, or one unit, is the flow of at most one chosen row. */
  lemma {:induction false} ReadRow(s: Side, p: nat, n: nat, f: seq<int>) returns (chosen: nat)
    requires IsSide(s) && p < |s.dest| && n <= |s.dest[p]| && WithinCapacity(RowArcs(s, p, n), f)
    requires NetOut(RowArcs(s, p, n), f, PlayerNode(p)) <= 1
    ensures f == RowFlow(s, p, n, chosen)
    ensures NetOut(RowArcs(s, p, n), f, PlayerNode(p)) == 1 ==> chosen < n && Hits(s, p, chosen)
    ensures NetOut(RowArcs(s, p, n), f, PlayerNode(p)) == 0 ==> chosen >= n
    decreases n
  {
    if n == 0 {
      chosen := 0;
    } else if Hits(s, p, n - 1) {
      var k := |f| - 1;
      assert f == f[..k] + [f[k]];
      Snoc(RowArcs(s, p, n - 1), f[..k], RowArc(s, p, n - 1), f[k], PlayerNode(p));
      RowsCarryAtLeastZero(s, p, n - 1, f[..k]);
      chosen := ReadRow(s, p, n - 1, f[..k]);
      if f[k] == 1 {
        SameMiss(s, p, n - 1, chosen, n - 1);
        chosen := n - 1;
      } else if chosen >= n - 1 {
        SameMiss(s, p, n - 1, chosen, n);
        chosen := n;
      }
    } else {
      chosen := ReadRow(s, p, n - 1, f);
      if chosen >= n - 1 {
        SameMiss(s, p, n - 1, chosen, n);
        chosen := n;
      }
    }
  }

  /** Row arcs never touch the source or another player. */
  lemma {:induction false} RowsElsewhere(s: Side, p: nat, n: nat, f: seq<int>, node: Node)
    requires IsSide(s) && p < |s.dest| && n <= |s.dest[p]| && |f| == |RowArcs(s, p, n)|
    requires node == Source || (node.PlayerNode? && node.player != p)
    ensures NetOut(RowArcs(s, p, n), f, node) == 0
    decreases n
  {
    if n > 0 {
      if Hits(s, p, n - 1) {
        var k := |f| - 1;
        assert f == f[..k] + [f[k]];
        Snoc(RowArcs(s, p, n - 1), f[..k], RowArc(s, p, n - 1), f[k], node);
        RowsElsewhere(s, p, n - 1, f[..k], node);
      } else {
        RowsElsewhere(s, p, n - 1, f, node);
      }
    }
  }

  /** The balances of one player's block, for an arbitrary flow on it. */
  lemma AnyBlock(s: Side, p: nat, f: seq<int>, node: Node)
    requires IsSide(s) && p < |s.dest| && |f| == |PlayerBlock(s, p)|
    ensures node == Source ==> NetOut(PlayerBlock(s, p), f, node) == f[0]
    ensures node == PlayerNode(p) ==>
      NetOut(PlayerBlock(s, p), f, node) == NetOut(RowArcs(s, p, |s.dest[p]|), f[1..], node) - f[0]
    ensures node.PlayerNode? && node.player != p ==> NetOut(PlayerBlock(s, p), f, node) == 0
  {
    var n := |s.dest[p]|;
    assert f == [f[0]] + f[1..];
    NetOutAppend([SourceArc(p)], RowArcs(s, p, n), [f[0]], f[1..], node);
    Single(SourceArc(p), f[0], node);
    if node == Source || (node.PlayerNode? && node.player != p) {
      RowsElsewhere(s, p, n, f[1..], node);
    }
  }

  /** The last player's block, split off: what it adds to the balances of source and players. */
  lemma SplitLast(s: Side, f: seq<int>, k: nat, node: Node)
    requires IsSide(s) && 0 < k <= |s.dest| && |f| == |PlayerArcs(s, k)|
    ensures |PlayerArcs(s, k - 1)| < |f|
    ensures var n := |PlayerArcs(s, k - 1)|;
      var before, after := NetOut(PlayerArcs(s, k - 1), f[..n], node), NetOut(PlayerArcs(s, k), f, node);
      && (node == Source ==> after == before + f[n])
      && (node == PlayerNode(k - 1) ==>
          after == before + NetOut(RowArcs(s, k - 1, |s.dest[k - 1]|), f[n..][1..], node) - f[n])
      && (node.PlayerNode? && node.player != k - 1 ==> after == before)
  {
    var n := |PlayerArcs(s, k - 1)|;
    assert f == f[..n] + f[n..];
    NetOutAppend(PlayerArcs(s, k - 1), PlayerBlock(s, k - 1), f[..n], f[n..], node);
    AnyBlock(s, k - 1, f[n..], node);
  }

  lemma SplitCapacity(s: Side, f: seq<int>, k: nat)
    requires IsSide(s) && 0 < k <= |s.dest| && WithinCapacity(PlayerArcs(s, k), f)
    ensures var n := |PlayerArcs(s, k - 1)|;
      && n < |f| && f[n] <= 1
      && WithinCapacity(PlayerArcs(s, k - 1), f[..n]) && WithinCapacity(PlayerBlock(s, k - 1), f[n..])
  {
    var n := |PlayerArcs(s, k - 1)|;
    assert f == f[..n] + f[n..];
    CapacityAppend(PlayerArcs(s, k - 1), PlayerBlock(s, k - 1), f[..n], f[n..]);
    assert f[n..][0] <= PlayerBlock(s, k - 1)[0].capacity;
  }

  /** At most one unit per player leaves the source, and later players have no arcs yet. */
  lemma {:induction false} SourceBound(s: Side, f: seq<int>, k: nat, q: nat)
    requires IsSide(s) && k <= |s.dest| && k <= q && WithinCapacity(PlayerArcs(s, k), f)
    ensures NetOut(PlayerArcs(s, k), f, Source) <= k
    ensures NetOut(PlayerArcs(s, k), f, PlayerNode(q)) == 0
    decreases k
  {
    if k > 0 {
      SplitCapacity(s, f, k);
      SplitLast(s, f, k, Source);
      SplitLast(s, f, k, PlayerNode(q));
      SourceBound(s, f[..|PlayerArcs(s, k - 1)|], k - 1, q);
    }
  }

  ghost predicate Balanced(s: Side, f: seq<int>, k: nat)
    requires IsSide(s) && k <= |s.dest|
  {
    && WithinCapacity(PlayerArcs(s, k), f)
    && NetOut(PlayerArcs(s, k), f, Source) == k
    && forall q: nat :: q < k ==> NetOut(PlayerArcs(s, k), f, PlayerNode(q)) == 0
  }

  /** In a balanced flow the last player gets its unit, and the players before stay balanced. */
  lemma LastBlock(s: Side, f: seq<int>, k: nat) returns (front: seq<int>, block: seq<int>)
    requires IsSide(s) && 0 < k <= |s.dest| && Balanced(s, f, k)
    ensures f == front + block && Balanced(s, front, k - 1) && WithinCapacity(PlayerBlock(s, k - 1), block)
    ensures block[0] == 1 && NetOut(RowArcs(s, k - 1, |s.dest[k - 1]|), block[1..], PlayerNode(k - 1)) == 1
  {
    var n := |PlayerArcs(s, k - 1)|;
    SplitCapacity(s, f, k);
    SplitLast(s, f, k, Source);
    SplitLast(s, f, k, PlayerNode(k - 1));
    front, block := f[..n], f[n..];
    SourceBound(s, front, k - 1, k - 1);
    forall q: nat | q < k - 1 ensures NetOut(PlayerArcs(s, k - 1), front, PlayerNode(q)) == 0 {
      SplitLast(s, f, k, PlayerNode(q));
    }
  }

  lemma ReadBlock(s: Side, p: nat, block: seq<int>) returns (chosen: nat)
    requires IsSide(s) && p < |s.dest| && WithinCapacity(PlayerBlock(s, p), block)
    requires block[0] == 1 && NetOut(RowArcs(s, p, |s.dest[p]|), block[1..], PlayerNode(p)) == 1
    ensures Hits(s, p, chosen) && block == BlockFlow(s, p, chosen)
  {
    assert block == [block[0]] + block[1..];
    CapacityAppend([SourceArc(p)], RowArcs(s, p, |s.dest[p]|), [block[0]], block[1..]);
    chosen := ReadRow(s, p, |s.dest[p]|, block[1..]);
  }

  lemma PeelPlayer(s: Side, f: seq<int>, k: nat) returns (front: seq<int>, chosen: nat)
    requires IsSide(s) && 0 < k <= |s.dest| && Balanced(s, f, k)
    ensures Balanced(s, front, k - 1) && Hits(s, k - 1, chosen)
    ensures f == front + BlockFlow(s, k - 1, chosen)
  {
    var block;
    front, block := LastBlock(s, f, k);
    chosen := ReadBlock(s, k - 1, block);
  }

  lemma ExtendChoice(s: Side, a: seq<nat>, chosen: nat)
    requires IsSide(s) && IsChoice(s, a) && |a| < |s.dest| && Hits(s, |a|, chosen)
    ensures IsChoice(s, a + [chosen])
    ensures ChoiceFlow(s, a + [chosen]) == ChoiceFlow(s, a) + BlockFlow(s, |a|, chosen)
  {
    assert (a + [chosen])[..|a|] == a;
  }

  /** A balanced flow on the player arcs is the flow of one chosen row per player. */
  lemma {:induction false} ReadPlayers(s: Side, f: seq<int>, k: nat) returns (a: seq<nat>)
    requires IsSide(s) && k <= |s.dest| && Balanced(s, f, k)
    ensures |a| == k && IsChoice(s, a) && f == ChoiceFlow(s, a)
    decreases k
  {
    if k == 0 {
      a := [];
    } else {
      var front, chosen := PeelPlayer(s, f, k);
      a := ReadPlayers(s, front, k - 1);
      ExtendChoice(s, a, chosen);
      a := a + [chosen];
    }
  }

  // ----- the correspondence is one to one -----

  lemma ConcatInjective(a: seq<int>, b: seq<int>, c: seq<int>, d: seq<int>)
    requires |a| == |c| && a + b == c + d
    ensures a == c && b == d
  {
    assert a == (a + b)[..|a|] && c == (c + d)[..|a|];
    assert b == (a + b)[|a|..] && d == (c + d)[|a|..];
  }

  /** Different choices have different flows. */
  lemma {:induction false} ChoiceFlowInjective(s: Side, a: seq<nat>, c: seq<nat>)
    requires IsSide(s) && |a| == |c| && IsChoice(s, a) && IsChoice(s, c)
    requires ChoiceFlow(s, a) == ChoiceFlow(s, c)
    ensures a == c
  {
    if a != [] {
      var p := |a| - 1;
      var n := |s.dest[p]|;
      ConcatInjective(ChoiceFlow(s, a[..p]), BlockFlow(s, p, a[p]), ChoiceFlow(s, c[..p]), BlockFlow(s, p, c[p]));
      ConcatInjective([1], RowFlow(s, p, n, a[p]), [1], RowFlow(s, p, n, c[p]));
      ChoiceFlowInjective(s, a[..p], c[..p]);
      SameRow(s, p, n, a[p], c[p]);
    }
  }

  lemma {:induction false} SameRow(s: Side, p: nat, n: nat, c: nat, d: nat)
    requires IsSide(s) && p < |s.dest| && n <= |s.dest[p]| && c < n && Hits(s, p, c)
    requires RowFlow(s, p, n, c) == RowFlow(s, p, n, d) && d < n
    ensures c == d
    decreases n
  {
    if Hits(s, p, n - 1) {
      ConcatInjective(RowFlow(s, p, n - 1, c), [Bit(n - 1 == c)], RowFlow(s, p, n - 1, d), [Bit(n - 1 == d)]);
      assert [Bit(n - 1 == c)][0] == [Bit(n - 1 == d)][0];
    }
    if c < n - 1 && d < n - 1 {
      SameRow(s, p, n - 1, c, d);
    } else if c < n - 1 {
      RowMisses(s, p, n - 1, c, d);
    }
  }

  /** A chosen usable row shows in the flow; a missing one does not. */
  lemma {:induction false} RowMisses(s: Side, p: nat, n: nat, c: nat, d: nat)
    requires IsSide(s) && p < |s.dest| && n <= |s.dest[p]| && c < n && Hits(s, p, c) && d >= n
    ensures RowFlow(s, p, n, c) != RowFlow(s, p, n, d)
  {
    if Hits(s, p, n - 1) && RowFlow(s, p, n, c) == RowFlow(s, p, n, d) {
      ConcatInjective(RowFlow(s, p, n - 1, c), [Bit(n - 1 == c)], RowFlow(s, p, n - 1, d), [Bit(n - 1 == d)]);
      assert [Bit(n - 1 == c)][0] == [Bit(n - 1 == d)][0];
    }
    if c < n - 1 {
      RowMisses(s, p, n - 1, c, d);
    }
  }
}
