/** The detailed network: players to the bucket nodes of teams, buckets to their team, teams to the sink. */
module RoleFlow {
  import opened Optional
  import opened Sums
  import opened AmateurData
  import opened Network
  import opened PlayerSide
  import opened RoleBuckets

  datatype Problem = Problem(
    players: seq<Player>,
    teams: seq<AmateurData.Seat>,
    target: seq<int>,
    caps: seq<seq<int>>,
    gap: Option<int>)

  ghost predicate WellFormed(b: Problem) {
    && |b.teams| == |b.target| == |b.caps| && IsMatrix(b.caps, BUCKETS)
    && (forall t :: 0 <= t < |b.teams| ==> Sum(b.caps[t]) == b.target[t] && 0 <= b.target[t])
    && (forall t, r :: 0 <= t < |b.teams| && 0 <= r < BUCKETS ==> 0 <= b.caps[t][r])
    && Sum(b.target) == |b.players|
  }

  predicate Sized(b: Problem) {
    |b.teams| == |b.target| == |b.caps| && IsMatrix(b.caps, BUCKETS)
  }

  /** Where a row leads: the node of the player's bucket at the named team, if that node exists. */
  function Destination(b: Problem, bucket: nat, row: Row): (d: Option<Node>)
    requires Sized(b)
    ensures d.Some? ==> d.value.RoleNode? && d.value.role == bucket < BUCKETS && d.value.team < |b.teams|
    ensures d.Some? ==> b.caps[d.value.team][bucket] > 0 && b.teams[d.value.team].id == row.teamId
  {
    var t := IndexOf(b.teams, row.teamId);
    if row.teamId == 0 || row.rejected || !TierAllowed(row, b.gap) || t.None? then None
    else if b.target[t.value] <= 0 || bucket >= BUCKETS || b.caps[t.value][bucket] <= 0 then None
    else Some(RoleNode(t.value, bucket))
  }

  function Destinations(b: Problem, player: Player): (r: seq<Option<Node>>)
    requires Sized(b)
    ensures |r| == |player.rows| && forall i :: 0 <= i < |r| ==> r[i] == Destination(b, player.bucket, player.rows[i])
  {
    seq(|player.rows|, i requires 0 <= i < |player.rows| => Destination(b, player.bucket, player.rows[i]))
  }

  function SideOf(b: Problem): (s: Side)
    requires Sized(b)
    ensures |s.dest| == |s.weight| == |b.players|
    ensures forall p :: 0 <= p < |b.players| ==> |s.dest[p]| == |s.weight[p]| == |b.players[p].rows|
    ensures forall p, r :: 0 <= p < |b.players| && 0 <= r < |b.players[p].rows| ==>
      s.dest[p][r] == Destination(b, b.players[p].bucket, b.players[p].rows[r])
      && s.weight[p][r] == b.players[p].rows[r].weight
  {
    Side(seq(|b.players|, p requires 0 <= p < |b.players| => Destinations(b, b.players[p])),
         seq(|b.players|, p requires 0 <= p < |b.players| => RowWeights(b.players[p].rows)))
  }

  /** The exact assignment: every team takes, of every bucket, precisely what the table gives it. */
  ghost predicate FillsTable(b: Problem, a: seq<nat>)
    requires Sized(b)
  {
    && |a| == |b.players| && IsChoice(SideOf(b), a)
    && forall t, r :: 0 <= t < |b.teams| && 0 <= r < BUCKETS ==> Visits(SideOf(b), a, RoleNode(t, r)) == b.caps[t][r]
  }

  ghost function AssignedWeight(b: Problem, a: seq<nat>): int
    requires Sized(b) && FillsTable(b, a)
  {
    TotalWeight(SideOf(b), a)
  }

  // ----- the seat arcs -----

  function RoleArcs(b: Problem, t: nat, k: nat): seq<Arc>
    requires Sized(b) && t < |b.teams| && k <= BUCKETS
  {
    if k == 0 then []
    else if b.caps[t][k - 1] > 0 then
      RoleArcs(b, t, k - 1) + [Arc(RoleNode(t, k - 1), TeamNode(t), b.caps[t][k - 1], 0, Plain)]
    else RoleArcs(b, t, k - 1)
  }

  function SinkArcs(b: Problem, t: nat): seq<Arc>
    requires Sized(b) && t < |b.teams|
  {
    if b.target[t] > 0 then [Arc(TeamNode(t), Sink, b.target[t], 0, Plain)] else []
  }

  function SeatArcs(b: Problem, k: nat): seq<Arc>
    requires Sized(b) && k <= |b.teams|
  {
    if k == 0 then [] else SeatArcs(b, k - 1) + (RoleArcs(b, k - 1, BUCKETS) + SinkArcs(b, k - 1))
  }

  ghost function SupplyAt(b: Problem, node: Node): int {
    match node
    case Source => |b.players|
    case Sink => -|b.players|
    case _ => 0
  }

  ghost predicate IsNetwork(b: Problem, net: Net)
    requires Sized(b)
  {
    && net.arcs == SeatArcs(b, |b.teams|) + PlayerArcs(SideOf(b), |b.players|)
    && forall node: Node :: Supply(net.supplies, node) == SupplyAt(b, node)
  }

  // ----- flows on the seat arcs, read as a table `x` of bucket flows and a row `y` of team flows -----

  function BucketFlow(b: Problem, t: nat, row: seq<int>, k: nat): (f: seq<int>)
    requires Sized(b) && t < |b.teams| && k <= BUCKETS == |row|
    ensures |f| == |RoleArcs(b, t, k)|
  {
    if k == 0 then []
    else if b.caps[t][k - 1] > 0 then BucketFlow(b, t, row, k - 1) + [row[k - 1]]
    else BucketFlow(b, t, row, k - 1)
  }

  function SinkFlow(b: Problem, t: nat, y: int): (f: seq<int>)
    requires Sized(b) && t < |b.teams|
    ensures |f| == |SinkArcs(b, t)|
  {
    if b.target[t] > 0 then [y] else []
  }

  ghost function SeatFlow(b: Problem, x: seq<seq<int>>, y: seq<int>, k: nat): (f: seq<int>)
    requires Sized(b) && k <= |b.teams| == |x| == |y| && IsMatrix(x, BUCKETS)
    ensures |f| == |SeatArcs(b, k)|
  {
    if k == 0 then []
    else SeatFlow(b, x, y, k - 1) + (BucketFlow(b, k - 1, x[k - 1], BUCKETS) + SinkFlow(b, k - 1, y[k - 1]))
  }

  /** Table entries within the table, team entries within the targets. */
  ghost predicate RowWithin(row: seq<int>, caps: seq<int>, k: nat) {
    |row| == |caps| == BUCKETS && k <= BUCKETS && forall r :: 0 <= r < k ==> 0 <= row[r] <= caps[r]
  }

  ghost predicate Within(b: Problem, x: seq<seq<int>>, y: seq<int>, k: nat)
    requires Sized(b)
  {
    && |x| == |y| == |b.teams| && k <= |b.teams| && IsMatrix(x, BUCKETS)
    && forall t :: 0 <= t < k ==> RowWithin(x[t], b.caps[t], BUCKETS) && 0 <= y[t] <= b.target[t]
  }

  lemma {:induction false} BucketBalance(b: Problem, t: nat, row: seq<int>, k: nat, node: Node)
    requires Sized(b) && t < |b.teams| && RowWithin(row, b.caps[t], k)
    ensures NetOut(RoleArcs(b, t, k), BucketFlow(b, t, row, k), node) ==
      (if node.RoleNode? && node.team == t && node.role < k then row[node.role] else 0)
      - (if node == TeamNode(t) then Sum(row[..k]) else 0)
    ensures WithinCapacity(RoleArcs(b, t, k), BucketFlow(b, t, row, k))
    ensures Cost(RoleArcs(b, t, k), BucketFlow(b, t, row, k)) == 0
  {
    if k > 0 {
      BucketBalance(b, t, row, k - 1, node);
      SumPrefixStep(row, k - 1);
      if b.caps[t][k - 1] > 0 {
        Snoc(RoleArcs(b, t, k - 1), BucketFlow(b, t, row, k - 1),
             Arc(RoleNode(t, k - 1), TeamNode(t), b.caps[t][k - 1], 0, Plain), row[k - 1], node);
      }
    }
  }

  lemma SinkBalance(b: Problem, t: nat, y: int, node: Node)
    requires Sized(b) && t < |b.teams| && 0 <= y <= b.target[t]
    ensures NetOut(SinkArcs(b, t), SinkFlow(b, t, y), node)
         == (if node == TeamNode(t) then y else 0) - (if node == Sink then y else 0)
    ensures WithinCapacity(SinkArcs(b, t), SinkFlow(b, t, y))
    ensures Cost(SinkArcs(b, t), SinkFlow(b, t, y)) == 0
  {
    if b.target[t] > 0 {
      Snoc([], [], Arc(TeamNode(t), Sink, b.target[t], 0, Plain), y, node);
      assert [] + [Arc(TeamNode(t), Sink, b.target[t], 0, Plain)] == SinkArcs(b, t) && [] + [y] == SinkFlow(b, t, y);
    }
  }

  ghost function SeatBalanceAt(b: Problem, x: seq<seq<int>>, y: seq<int>, k: nat, node: Node): int
    requires Sized(b) && Within(b, x, y, k)
  {
    match node
    case RoleNode(t, r) => if t < k && r < BUCKETS then x[t][r] else 0
    case TeamNode(t) => if t < k then y[t] - Sum(x[t]) else 0
    case Sink => -Sum(y[..k])
    case _ => 0
  }

  lemma {:induction false} SeatBalance(b: Problem, x: seq<seq<int>>, y: seq<int>, k: nat, node: Node)
    requires Sized(b) && Within(b, x, y, k)
    ensures NetOut(SeatArcs(b, k), SeatFlow(b, x, y, k), node) == SeatBalanceAt(b, x, y, k, node)
    ensures WithinCapacity(SeatArcs(b, k), SeatFlow(b, x, y, k))
    ensures Cost(SeatArcs(b, k), SeatFlow(b, x, y, k)) == 0
    decreases k
  {
    if k > 0 {
      var t := k - 1;
      SeatBalance(b, x, y, t, node);
      BlockBalance(b, t, x[t], y[t], node);
      var a, f := RoleArcs(b, t, BUCKETS) + SinkArcs(b, t), BucketFlow(b, t, x[t], BUCKETS) + SinkFlow(b, t, y[t]);
      NetOutAppend(SeatArcs(b, t), a, SeatFlow(b, x, y, t), f, node);
      CostAppend(SeatArcs(b, t), a, SeatFlow(b, x, y, t), f);
      CapacityAppend(SeatArcs(b, t), a, SeatFlow(b, x, y, t), f);
      SumPrefixStep(y, t);
    }
  }

  lemma BlockBalance(b: Problem, t: nat, row: seq<int>, y: int, node: Node)
    requires Sized(b) && t < |b.teams| && RowWithin(row, b.caps[t], BUCKETS) && 0 <= y <= b.target[t]
    ensures var a, f := RoleArcs(b, t, BUCKETS) + SinkArcs(b, t), BucketFlow(b, t, row, BUCKETS) + SinkFlow(b, t, y);
      && NetOut(a, f, node) ==
         (if node.RoleNode? && node.team == t && node.role < BUCKETS then row[node.role] else 0)
         + (if node == TeamNode(t) then y - Sum(row) else 0) - (if node == Sink then y else 0)
      && WithinCapacity(a, f) && Cost(a, f) == 0
  {
    BucketBalance(b, t, row, BUCKETS, node);
    SinkBalance(b, t, y, node);
    assert row[..BUCKETS] == row;
    NetOutAppend(RoleArcs(b, t, BUCKETS), SinkArcs(b, t), BucketFlow(b, t, row, BUCKETS), SinkFlow(b, t, y), node);
    CostAppend(RoleArcs(b, t, BUCKETS), SinkArcs(b, t), BucketFlow(b, t, row, BUCKETS), SinkFlow(b, t, y));
    CapacityAppend(RoleArcs(b, t, BUCKETS), SinkArcs(b, t), BucketFlow(b, t, row, BUCKETS), SinkFlow(b, t, y));
  }

  // ----- reading a flow back -----

  lemma {:induction false} ReadBuckets(b: Problem, t: nat, f: seq<int>, k: nat) returns (row: seq<int>)
    requires WellFormed(b) && t < |b.teams| && k <= BUCKETS && WithinCapacity(RoleArcs(b, t, k), f)
    ensures RowWithin(row, b.caps[t], BUCKETS) && f == BucketFlow(b, t, row, k)
    ensures forall r :: k <= r < BUCKETS ==> row[r] == 0
    decreases k
  {
    if k == 0 {
      row := seq(BUCKETS, _ => 0);
    } else if b.caps[t][k - 1] > 0 {
      var n := |f| - 1;
      assert f == f[..n] + [f[n]];
      var front := ReadBuckets(b, t, f[..n], k - 1);
      var arc := Arc(RoleNode(t, k - 1), TeamNode(t), b.caps[t][k - 1], 0, Plain);
      Snoc(RoleArcs(b, t, k - 1), f[..n], arc, f[n], Source);
      row := front[k - 1 := f[n]];
      BucketFlowDepends(b, t, front, row, k - 1);
    } else {
      row := ReadBuckets(b, t, f, k - 1);
    }
  }

  lemma {:induction false} BucketFlowDepends(b: Problem, t: nat, c: seq<int>, d: seq<int>, k: nat)
    requires Sized(b) && t < |b.teams| && k <= BUCKETS == |c| == |d|
    requires forall r :: 0 <= r < k ==> c[r] == d[r]
    ensures BucketFlow(b, t, c, k) == BucketFlow(b, t, d, k)
  {
    if k > 0 {
      BucketFlowDepends(b, t, c, d, k - 1);
    }
  }

  lemma ReadTeam(b: Problem, t: nat, f: seq<int>) returns (row: seq<int>, y: int)
    requires WellFormed(b) && t < |b.teams| && WithinCapacity(RoleArcs(b, t, BUCKETS) + SinkArcs(b, t), f)
    ensures RowWithin(row, b.caps[t], BUCKETS) && 0 <= y <= b.target[t]
    ensures f == BucketFlow(b, t, row, BUCKETS) + SinkFlow(b, t, y)
  {
    var n := |RoleArcs(b, t, BUCKETS)|;
    assert f == f[..n] + f[n..];
    CapacityAppend(RoleArcs(b, t, BUCKETS), SinkArcs(b, t), f[..n], f[n..]);
    row := ReadBuckets(b, t, f[..n], BUCKETS);
    y := if b.target[t] > 0 then f[n..][0] else 0;
    assert f[n..] == SinkFlow(b, t, y);
  }

  lemma {:induction false} ReadSeats(b: Problem, f: seq<int>, k: nat) returns (x: seq<seq<int>>, y: seq<int>)
    requires WellFormed(b) && k <= |b.teams| && WithinCapacity(SeatArcs(b, k), f)
    ensures Within(b, x, y, k) && f == SeatFlow(b, x, y, k)
    decreases k
  {
    if k == 0 {
      x, y := b.caps, b.target;
    } else {
      var n := |SeatArcs(b, k - 1)|;
      assert f == f[..n] + f[n..];
      CapacityAppend(SeatArcs(b, k - 1), RoleArcs(b, k - 1, BUCKETS) + SinkArcs(b, k - 1), f[..n], f[n..]);
      var x', y' := ReadSeats(b, f[..n], k - 1);
      var row, v := ReadTeam(b, k - 1, f[n..]);
      x, y := x'[k - 1 := row], y'[k - 1 := v];
      SeatFlowDepends(b, x', y', x, y, k - 1);
    }
  }

  lemma {:induction false} SeatFlowDepends(b: Problem, x: seq<seq<int>>, y: seq<int>, u: seq<seq<int>>, v: seq<int>,
        k: nat)
    requires Sized(b) && k <= |b.teams| == |x| == |y| == |u| == |v| && IsMatrix(x, BUCKETS) && IsMatrix(u, BUCKETS)
    requires forall t :: 0 <= t < k ==> x[t] == u[t] && y[t] == v[t]
    ensures SeatFlow(b, x, y, k) == SeatFlow(b, u, v, k)
  {
    if k > 0 {
      SeatFlowDepends(b, x, y, u, v, k - 1);
    }
  }

  // ----- saturation -----

  ghost function Encode(b: Problem, a: seq<nat>): seq<int>
    requires Sized(b) && |a| == |b.players| && IsChoice(SideOf(b), a)
  {
    SeatFlow(b, b.caps, b.target, |b.teams|) + ChoiceFlow(SideOf(b), a)
  }

  lemma TableWithin(b: Problem)
    requires WellFormed(b)
    ensures Within(b, b.caps, b.target, |b.teams|)
  {
  }

  lemma SplitFlow(b: Problem, net: Net, f: seq<int>) returns (x: seq<seq<int>>, y: seq<int>, pf: seq<int>)
    requires WellFormed(b) && IsNetwork(b, net) && IsFlow(net, f)
    ensures Within(b, x, y, |b.teams|) && f == SeatFlow(b, x, y, |b.teams|) + pf
    ensures WithinCapacity(PlayerArcs(SideOf(b), |b.players|), pf)
    ensures forall node: Node ::
      SeatBalanceAt(b, x, y, |b.teams|, node) + NetOut(PlayerArcs(SideOf(b), |b.players|), pf, node)
      == SupplyAt(b, node)
  {
    var k := |b.teams|;
    var sa, pa := SeatArcs(b, k), PlayerArcs(SideOf(b), |b.players|);
    var sf := f[..|sa|];
    pf := f[|sa|..];
    assert f == sf + pf;
    CapacityAppend(sa, pa, sf, pf);
    x, y := ReadSeats(b, sf, k);
    forall node: Node
      ensures SeatBalanceAt(b, x, y, k, node) + NetOut(pa, pf, node) == SupplyAt(b, node)
    {
      SeatBalance(b, x, y, k, node);
      NetOutAppend(sa, pa, sf, pf, node);
      assert NetOut(net.arcs, f, node) == Supply(net.supplies, node);
    }
  }

  /** Chosen rows lead to bucket nodes of collected teams only. */
  lemma {:induction false} VisitsOnlyBuckets(b: Problem, a: seq<nat>, node: Node)
    requires Sized(b) && IsChoice(SideOf(b), a)
    requires node.RoleNode? ==> node.team >= |b.teams| || node.role >= BUCKETS
    ensures Visits(SideOf(b), a, node) == 0
  {
    if a != [] {
      var n := |a| - 1;
      VisitsOnlyBuckets(b, a[..n], node);
      assert Hits(SideOf(b), n, a[n]);
    }
  }

  /** Balanced seats are full seats: the team flows must be the targets, the bucket flows the table. */
  lemma SeatsAreFull(b: Problem, x: seq<seq<int>>, y: seq<int>, a: seq<nat>)
    requires WellFormed(b) && Within(b, x, y, |b.teams|) && |a| == |b.players| && IsChoice(SideOf(b), a)
    requires forall node: Node ::
      SeatBalanceAt(b, x, y, |b.teams|, node) + ChoiceBalance(SideOf(b), a, node) == SupplyAt(b, node)
    ensures x == b.caps && y == b.target && FillsTable(b, a)
  {
    var s := SideOf(b);
    VisitsOnlyBuckets(b, a, Sink);
    assert SeatBalanceAt(b, x, y, |b.teams|, Sink) + ChoiceBalance(s, a, Sink) == SupplyAt(b, Sink);
    assert y[..|b.teams|] == y;
    SumTight(y, b.target);
    forall t | 0 <= t < |b.teams| ensures x[t] == b.caps[t] {
      VisitsOnlyBuckets(b, a, TeamNode(t));
      assert SeatBalanceAt(b, x, y, |b.teams|, TeamNode(t)) + ChoiceBalance(s, a, TeamNode(t))
          == SupplyAt(b, TeamNode(t));
      SumTight(x[t], b.caps[t]);
    }
    forall t, r | 0 <= t < |b.teams| && 0 <= r < BUCKETS ensures Visits(s, a, RoleNode(t, r)) == b.caps[t][r] {
      assert SeatBalanceAt(b, x, y, |b.teams|, RoleNode(t, r)) + ChoiceBalance(s, a, RoleNode(t, r))
          == SupplyAt(b, RoleNode(t, r));
    }
  }

  /** Every flow saturates the seats: it is the flow of an assignment that fills the table exactly. */
  lemma FlowFillsTable(b: Problem, net: Net, f: seq<int>) returns (a: seq<nat>)
    requires WellFormed(b) && IsNetwork(b, net) && IsFlow(net, f)
    ensures FillsTable(b, a) && f == Encode(b, a)
  {
    var n := |b.players|;
    var s := SideOf(b);
    var x, y, pf := SplitFlow(b, net, f);
    assert SupplyAt(b, Source) == n;
    forall q: nat | q < n ensures NetOut(PlayerArcs(s, n), pf, PlayerNode(q)) == 0 {
      assert SupplyAt(b, PlayerNode(q)) == 0;
    }
    a := ReadPlayers(s, pf, n);
    forall node: Node
      ensures SeatBalanceAt(b, x, y, |b.teams|, node) + ChoiceBalance(s, a, node) == SupplyAt(b, node)
    {
      ChoiceFlowBalance(s, a, node);
    }
    SeatsAreFull(b, x, y, a);
  }

  /** Conversely, an assignment that fills the table is a flow, of opposite cost. */
  lemma TableFillingIsFlow(b: Problem, net: Net, a: seq<nat>)
    requires WellFormed(b) && IsNetwork(b, net) && FillsTable(b, a)
    ensures IsFlow(net, Encode(b, a)) && Cost(net.arcs, Encode(b, a)) == -AssignedWeight(b, a)
  {
    var k := |b.teams|;
    var s := SideOf(b);
    var sa, pa := SeatArcs(b, k), PlayerArcs(s, |a|);
    var sf, pf := SeatFlow(b, b.caps, b.target, k), ChoiceFlow(s, a);
    TableWithin(b);
    SeatBalance(b, b.caps, b.target, k, Source);
    ChoiceFlowBalance(s, a, Source);
    CostAppend(sa, pa, sf, pf);
    CapacityAppend(sa, pa, sf, pf);
    forall node: Node ensures NetOut(net.arcs, Encode(b, a), node) == Supply(net.supplies, node) {
      SeatBalance(b, b.caps, b.target, k, node);
      ChoiceFlowBalance(s, a, node);
      NetOutAppend(sa, pa, sf, pf, node);
      FillingMeetsSupply(b, a, node);
    }
  }

  lemma FillingMeetsSupply(b: Problem, a: seq<nat>, node: Node)
    requires WellFormed(b) && FillsTable(b, a) && Within(b, b.caps, b.target, |b.teams|)
    ensures SeatBalanceAt(b, b.caps, b.target, |b.teams|, node) + ChoiceBalance(SideOf(b), a, node) == SupplyAt(b, node)
  {
    assert b.target[..|b.teams|] == b.target;
    if !(node.RoleNode? && node.team < |b.teams| && node.role < BUCKETS) {
      VisitsOnlyBuckets(b, a, node);
    }
  }

  lemma OptimalFlowIsBest(b: Problem, net: Net, f: seq<int>) returns (a: seq<nat>)
    requires WellFormed(b) && IsNetwork(b, net) && IsOptimal(net, f)
    ensures FillsTable(b, a) && f == Encode(b, a)
    ensures forall c :: FillsTable(b, c) ==> AssignedWeight(b, c) <= AssignedWeight(b, a)
  {
    a := FlowFillsTable(b, net, f);
    TableFillingIsFlow(b, net, a);
    forall c | FillsTable(b, c) ensures AssignedWeight(b, c) <= AssignedWeight(b, a) {
      TableFillingIsFlow(b, net, c);
      assert IsFlow(net, Encode(b, c));
    }
  }

  // ----- team totals -----

  ghost function TeamVisits(b: Problem, a: seq<nat>, t: nat): nat
    requires Sized(b) && IsChoice(SideOf(b), a)
  {
    if a == [] then 0
    else
      var n := |a| - 1;
      TeamVisits(b, a[..n], t)
      + (var d := SideOf(b).dest[n][a[n]].value; if d.RoleNode? && d.team == t then 1 else 0)
  }

  ghost function BucketVisits(b: Problem, a: seq<nat>, t: nat): (r: seq<int>)
    requires Sized(b) && IsChoice(SideOf(b), a)
    ensures |r| == BUCKETS && forall q :: 0 <= q < BUCKETS ==> r[q] == Visits(SideOf(b), a, RoleNode(t, q))
  {
    seq(BUCKETS, q requires 0 <= q < BUCKETS => Visits(SideOf(b), a, RoleNode(t, q)))
  }

  /** One more choice adds one visit, to the bucket and team its row leads to. */
  lemma BucketVisitsNext(b: Problem, a: seq<nat>, t: nat) returns (d: Node)
    requires Sized(b) && IsChoice(SideOf(b), a) && a != []
    ensures d.RoleNode? && d.role < BUCKETS && Some(d) == SideOf(b).dest[|a| - 1][a[|a| - 1]]
    ensures var before := BucketVisits(b, a[..|a| - 1], t);
      BucketVisits(b, a, t) == if d.team == t then before[d.role := before[d.role] + 1] else before
  {
    var n := |a| - 1;
    assert Hits(SideOf(b), n, a[n]);
    d := SideOf(b).dest[n][a[n]].value;
  }

  lemma {:induction false} TeamVisitsAreBucketVisits(b: Problem, a: seq<nat>, t: nat)
    requires Sized(b) && IsChoice(SideOf(b), a)
    ensures TeamVisits(b, a, t) == Sum(BucketVisits(b, a, t))
  {
    if a == [] {
      SumZero(BucketVisits(b, a, t));
    } else {
      var front := a[..|a| - 1];
      TeamVisitsAreBucketVisits(b, front, t);
      var d := BucketVisitsNext(b, a, t);
      var before := BucketVisits(b, front, t);
      SumUpdate(before, d.role, before[d.role] + 1);
    }
  }

  /** Filling the table gives each team exactly its target. */
  lemma FillingMeetsTargets(b: Problem, a: seq<nat>, t: nat)
    requires WellFormed(b) && FillsTable(b, a) && t < |b.teams|
    ensures TeamVisits(b, a, t) == b.target[t]
  {
    TeamVisitsAreBucketVisits(b, a, t);
    assert BucketVisits(b, a, t) == b.caps[t];
  }
}
