/** The flexible network: a unit per player, and team arcs that carry what exceeds the minimum fill. */
module FlexibleFlow {
  import opened Optional
  import opened Sums
  import opened AmateurData
  import opened Transport
  import opened Placement
  import opened Network
  import opened PlayerSide

  /** A batch with the capacities and clamped fills that the solver uses. */
  datatype Problem = Problem(players: seq<Player>, teams: seq<Seat>, caps: seq<int>, fills: seq<int>, gap: Option<int>)

  ghost predicate WellFormed(b: Problem) {
    && |b.caps| == |b.teams| == |b.fills|
    && NonNegative(b.caps) && NonNegative(b.fills)
    && forall t :: 0 <= t < |b.teams| ==> b.fills[t] <= b.caps[t]
  }

  /** The rows that become arcs: accepted, inside the tier gap, naming a team that has a node. */
  predicate Usable(b: Problem, row: Row)
    requires |b.caps| == |b.teams|
  {
    && row.teamId != 0 && !row.rejected && TierAllowed(row, b.gap)
    && var t := IndexOf(b.teams, row.teamId);
    t.Some? && b.caps[t.value] > 0
  }

  function TeamOf(b: Problem, row: Row): (t: nat)
    requires |b.caps| == |b.teams| && Usable(b, row)
    ensures t < |b.teams| && b.caps[t] > 0 && b.teams[t].id == row.teamId
  {
    IndexOf(b.teams, row.teamId).value
  }

  /** The player side of the network: each usable row leads to the node of its team. */
  function SideOf(b: Problem): (s: Side)
    requires |b.caps| == |b.teams|
    ensures |s.dest| == |s.weight| == |b.players|
    ensures forall p :: 0 <= p < |b.players| ==> |s.dest[p]| == |s.weight[p]| == |b.players[p].rows|
    ensures forall p, r :: 0 <= p < |b.players| && 0 <= r < |b.players[p].rows| ==>
      s.dest[p][r] == Destination(b, b.players[p].rows[r]) && s.weight[p][r] == b.players[p].rows[r].weight
  {
    Side(seq(|b.players|, p requires 0 <= p < |b.players| => Destinations(b, b.players[p].rows)),
         seq(|b.players|, p requires 0 <= p < |b.players| => RowWeights(b.players[p].rows)))
  }

  function Destination(b: Problem, row: Row): Option<Node>
    requires |b.caps| == |b.teams|
  {
    if Usable(b, row) then Some(TeamNode(TeamOf(b, row))) else None
  }

  function Destinations(b: Problem, rows: seq<Row>): (r: seq<Option<Node>>)
    requires |b.caps| == |b.teams|
    ensures |r| == |rows| && forall i :: 0 <= i < |r| ==> r[i] == Destination(b, rows[i])
  {
    seq(|rows|, i requires 0 <= i < |rows| => Destination(b, rows[i]))
  }

  // ----- assignments -----

  ghost function TeamsOf(b: Problem, a: seq<nat>): (r: seq<nat>)
    requires |b.caps| == |b.teams| && IsChoice(SideOf(b), a)
    ensures |r| == |a|
    ensures forall p :: 0 <= p < |a| ==>
      Usable(b, b.players[p].rows[a[p]]) && r[p] == TeamOf(b, b.players[p].rows[a[p]])
  {
    assert forall p :: 0 <= p < |a| ==> Hits(SideOf(b), p, a[p]);
    seq(|a|, p requires 0 <= p < |a| => TeamOf(b, b.players[p].rows[a[p]]))
  }

  /** Every player gets one usable row and every team ends between its fill and its capacity. */
  ghost predicate MeetsQuotas(b: Problem, a: seq<nat>)
    requires |b.caps| == |b.teams| == |b.fills|
  {
    && |a| == |b.players| && IsChoice(SideOf(b), a)
    && forall t :: 0 <= t < |b.teams| ==> b.fills[t] <= Count(TeamsOf(b, a), t) <= b.caps[t]
  }

  ghost function AssignedWeight(b: Problem, a: seq<nat>): int
    requires |b.caps| == |b.teams| == |b.fills| && MeetsQuotas(b, a)
  {
    TotalWeight(SideOf(b), a)
  }

  lemma {:induction false} VisitsAreCounts(b: Problem, a: seq<nat>, t: nat)
    requires |b.caps| == |b.teams| && IsChoice(SideOf(b), a)
    ensures Visits(SideOf(b), a, TeamNode(t)) == Count(TeamsOf(b, a), t)
  {
    if a != [] {
      var n := |a| - 1;
      VisitsAreCounts(b, a[..n], t);
      assert TeamsOf(b, a)[..n] == TeamsOf(b, a[..n]);
      assert Hits(SideOf(b), n, a[n]);
    }
  }

  // ----- the network -----

  function TeamArc(b: Problem, t: nat): Arc
    requires t < |b.teams| == |b.caps| == |b.fills|
  {
    Arc(TeamNode(t), Sink, b.caps[t] - b.fills[t], 0, Plain)
  }

  function TeamArcs(b: Problem, k: nat): seq<Arc>
    requires k <= |b.teams| == |b.caps| == |b.fills|
  {
    if k == 0 then []
    else if b.caps[k - 1] > 0 then TeamArcs(b, k - 1) + [TeamArc(b, k - 1)]
    else TeamArcs(b, k - 1)
  }

  ghost function SupplyAt(b: Problem, node: Node): int
    requires |b.caps| == |b.teams| == |b.fills|
  {
    match node
    case Source => |b.players|
    case Sink => Sum(b.fills) - |b.players|
    case TeamNode(t) => if t < |b.teams| then -b.fills[t] else 0
    case _ => 0
  }

  ghost predicate IsNetwork(b: Problem, net: Net)
    requires |b.caps| == |b.teams| == |b.fills|
  {
    && net.arcs == TeamArcs(b, |b.teams|) + PlayerArcs(SideOf(b), |b.players|)
    && forall node: Node :: Supply(net.supplies, node) == SupplyAt(b, node)
  }

  // ----- the flow of an assignment -----

  function TeamFlow(b: Problem, counts: seq<int>, k: nat): (f: seq<int>)
    requires k <= |b.teams| == |b.caps| == |b.fills| == |counts|
    ensures |f| == |TeamArcs(b, k)|
  {
    if k == 0 then []
    else if b.caps[k - 1] > 0 then TeamFlow(b, counts, k - 1) + [counts[k - 1] - b.fills[k - 1]]
    else TeamFlow(b, counts, k - 1)
  }

  ghost function TeamCounts(b: Problem, a: seq<nat>): (r: seq<int>)
    requires |b.caps| == |b.teams| && IsChoice(SideOf(b), a)
    ensures |r| == |b.teams| && forall t :: 0 <= t < |r| ==> r[t] == Count(TeamsOf(b, a), t)
  {
    CountVector(TeamsOf(b, a), |b.teams|)
  }

  /** The flow that carries out an assignment. */
  ghost function Encode(b: Problem, a: seq<nat>): seq<int>
    requires |b.caps| == |b.teams| == |b.fills| && |a| == |b.players| && IsChoice(SideOf(b), a)
  {
    TeamFlow(b, TeamCounts(b, a), |b.teams|) + ChoiceFlow(SideOf(b), a)
  }

  // ----- balances of the team arcs -----

  ghost function TeamBalanceAt(b: Problem, counts: seq<int>, k: nat, node: Node): int
    requires k <= |b.teams| == |b.caps| == |b.fills| == |counts|
  {
    match node
    case Sink => -Excess(b, counts, k)
    case TeamNode(t) => if t < k && b.caps[t] > 0 then counts[t] - b.fills[t] else 0
    case _ => 0
  }

  lemma {:induction false} TeamBalance(b: Problem, counts: seq<int>, k: nat, node: Node)
    requires k <= |b.teams| == |b.caps| == |b.fills| == |counts|
    ensures NetOut(TeamArcs(b, k), TeamFlow(b, counts, k), node) == TeamBalanceAt(b, counts, k, node)
  {
    if k > 0 {
      var t := k - 1;
      TeamBalance(b, counts, t, node);
      if b.caps[t] > 0 {
        var v := counts[t] - b.fills[t];
        Snoc(TeamArcs(b, t), TeamFlow(b, counts, t), TeamArc(b, t), v, node);
        assert TeamBalanceAt(b, counts, k, node)
            == TeamBalanceAt(b, counts, t, node)
               + (if node == TeamNode(t) then v else 0) - (if node == Sink then v else 0);
      }
    }
  }

  /** What the first k teams receive beyond their fills. */
  ghost function Excess(b: Problem, counts: seq<int>, k: nat): int
    requires k <= |b.teams| == |b.caps| == |b.fills| == |counts|
  {
    if k == 0 then 0
    else Excess(b, counts, k - 1) + (if b.caps[k - 1] > 0 then counts[k - 1] - b.fills[k - 1] else 0)
  }

  /** Any flow on the team arcs is the one of some counts; the capacities bound those counts. */
  lemma {:induction false} ReadTeamFlow(b: Problem, f: seq<int>, k: nat) returns (counts: seq<int>)
    requires WellFormed(b) && k <= |b.teams|
    requires WithinCapacity(TeamArcs(b, k), f)
    ensures |counts| == |b.teams| && f == TeamFlow(b, counts, k)
    ensures forall t :: 0 <= t < k && b.caps[t] > 0 ==> b.fills[t] <= counts[t] <= b.caps[t]
    decreases k
  {
    if k == 0 {
      counts := b.fills;
    } else {
      var a := TeamArcs(b, k - 1);
      var front := ReadTeamFlow(b, f[..|a|], k - 1);
      if b.caps[k - 1] > 0 {
        counts := front[k - 1 := f[|a|] + b.fills[k - 1]];
        assert TeamArcs(b, k)[|a|].capacity == b.caps[k - 1] - b.fills[k - 1];
      } else {
        counts := front;
      }
      TeamFlowDepends(b, front, counts, k - 1);
      assert f == TeamFlow(b, counts, k);
    }
  }

  lemma {:induction false} TeamFlowDepends(b: Problem, c: seq<int>, d: seq<int>, k: nat)
    requires k <= |b.teams| == |b.caps| == |b.fills| == |c| == |d|
    requires forall t :: 0 <= t < k && b.caps[t] > 0 ==> c[t] == d[t]
    ensures TeamFlow(b, c, k) == TeamFlow(b, d, k)
  {
    if k > 0 {
      TeamFlowDepends(b, c, d, k - 1);
    }
  }

  // ----- every assignment within the quotas is a flow -----

  lemma {:induction false} ExcessTotal(b: Problem, counts: seq<int>, k: nat)
    requires WellFormed(b) && |counts| == |b.teams| && k <= |b.teams|
    requires forall t :: 0 <= t < k && b.caps[t] <= 0 ==> counts[t] == 0
    ensures Excess(b, counts, k) == Sum(counts[..k]) - Sum(b.fills[..k])
  {
    if k > 0 {
      ExcessTotal(b, counts, k - 1);
      SumPrefixStep(counts, k - 1);
      SumPrefixStep(b.fills, k - 1);
    }
  }

  /** Teams without capacity have no node, so nobody is placed there. */
  lemma {:induction false} NobodyWithoutCapacity(b: Problem, a: seq<nat>, t: nat)
    requires |b.caps| == |b.teams| && IsChoice(SideOf(b), a) && t < |b.teams| && b.caps[t] <= 0
    ensures Count(TeamsOf(b, a), t) == 0
  {
    if a != [] {
      var n := |a| - 1;
      NobodyWithoutCapacity(b, a[..n], t);
      assert TeamsOf(b, a)[..n] == TeamsOf(b, a[..n]);
    }
  }

  lemma {:induction false} TeamFlowCapacity(b: Problem, counts: seq<int>, k: nat)
    requires WellFormed(b) && |counts| == |b.teams| && k <= |b.teams|
    requires forall t :: 0 <= t < k ==> b.fills[t] <= counts[t] <= b.caps[t]
    ensures WithinCapacity(TeamArcs(b, k), TeamFlow(b, counts, k))
    ensures Cost(TeamArcs(b, k), TeamFlow(b, counts, k)) == 0
  {
    if k > 0 {
      TeamFlowCapacity(b, counts, k - 1);
      Snoc(TeamArcs(b, k - 1), TeamFlow(b, counts, k - 1), TeamArc(b, k - 1), counts[k - 1] - b.fills[k - 1], Source);
    }
  }

  /** Completeness of the network: a quota-respecting assignment is a flow of opposite cost. */
  lemma AssignmentIsFlow(b: Problem, net: Net, a: seq<nat>)
    requires WellFormed(b) && IsNetwork(b, net) && MeetsQuotas(b, a)
    ensures IsFlow(net, Encode(b, a))
    ensures Cost(net.arcs, Encode(b, a)) == -AssignedWeight(b, a)
  {
    var k := |b.teams|;
    var s := SideOf(b);
    var counts := TeamCounts(b, a);
    var tf, pf := TeamFlow(b, counts, k), ChoiceFlow(s, a);
    var ta, pa := TeamArcs(b, k), PlayerArcs(s, |a|);
    TeamFlowCapacity(b, counts, k);
    ChoiceFlowBalance(s, a, Source);
    CostAppend(ta, pa, tf, pf);
    CapacityAppend(ta, pa, tf, pf);
    forall node: Node ensures NetOut(net.arcs, Encode(b, a), node) == Supply(net.supplies, node) {
      TeamBalance(b, counts, k, node);
      ChoiceFlowBalance(s, a, node);
      NetOutAppend(ta, pa, tf, pf, node);
      FlowMeetsSupply(b, a, node);
    }
  }

  lemma FlowMeetsSupply(b: Problem, a: seq<nat>, node: Node)
    requires WellFormed(b) && MeetsQuotas(b, a)
    ensures TeamBalanceAt(b, TeamCounts(b, a), |b.teams|, node) + ChoiceBalance(SideOf(b), a, node) == SupplyAt(b, node)
  {
    var k := |b.teams|;
    var counts := TeamCounts(b, a);
    match node
    case Sink =>
      VisitsOnlySeats(SideOf(b), a, node);
      forall t | 0 <= t < k && b.caps[t] <= 0 ensures counts[t] == 0 {
        NobodyWithoutCapacity(b, a, t);
      }
      ExcessTotal(b, counts, k);
      CountSum(TeamsOf(b, a), k);
      assert counts[..k] == counts == CountVector(TeamsOf(b, a), k);
      assert b.fills[..k] == b.fills;
    case TeamNode(t) =>
      VisitsAreCounts(b, a, t);
      if t < k {
        if b.caps[t] <= 0 {
          NobodyWithoutCapacity(b, a, t);
        }
      } else {
        NobodyBeyond(b, a, t);
      }
    case RoleNode(t, r) =>
      NoRoleNodes(b, a, t, r);
    case _ =>
      VisitsOnlySeats(SideOf(b), a, node);
  }

  lemma {:induction false} NoRoleNodes(b: Problem, a: seq<nat>, t: nat, r: nat)
    requires |b.caps| == |b.teams| && IsChoice(SideOf(b), a)
    ensures Visits(SideOf(b), a, RoleNode(t, r)) == 0
  {
    if a != [] {
      NoRoleNodes(b, a[..|a| - 1], t, r);
      assert Hits(SideOf(b), |a| - 1, a[|a| - 1]);
    }
  }

  lemma {:induction false} NobodyBeyond(b: Problem, a: seq<nat>, t: nat)
    requires |b.caps| == |b.teams| && IsChoice(SideOf(b), a) && t >= |b.teams|
    ensures Count(TeamsOf(b, a), t) == 0
  {
    if a != [] {
      var n := |a| - 1;
      NobodyBeyond(b, a[..n], t);
      assert TeamsOf(b, a)[..n] == TeamsOf(b, a[..n]);
    }
  }

  // ----- every flow is the flow of an assignment within the quotas -----

  /** A flow falls apart into team counts and a flow on the player arcs, which balance at every node. */
  lemma SplitFlow(b: Problem, net: Net, f: seq<int>) returns (counts: seq<int>, pf: seq<int>)
    requires WellFormed(b) && IsNetwork(b, net) && IsFlow(net, f)
    ensures |counts| == |b.teams| && f == TeamFlow(b, counts, |b.teams|) + pf
    ensures forall t :: 0 <= t < |b.teams| && b.caps[t] > 0 ==> b.fills[t] <= counts[t] <= b.caps[t]
    ensures WithinCapacity(PlayerArcs(SideOf(b), |b.players|), pf)
    ensures forall node: Node ::
      TeamBalanceAt(b, counts, |b.teams|, node) + NetOut(PlayerArcs(SideOf(b), |b.players|), pf, node)
      == SupplyAt(b, node)
  {
    var k := |b.teams|;
    var ta, pa := TeamArcs(b, k), PlayerArcs(SideOf(b), |b.players|);
    var tf := f[..|ta|];
    pf := f[|ta|..];
    assert f == tf + pf;
    CapacityAppend(ta, pa, tf, pf);
    counts := ReadTeamFlow(b, tf, k);
    forall node: Node
      ensures TeamBalanceAt(b, counts, k, node) + NetOut(pa, pf, node) == SupplyAt(b, node)
    {
      TeamBalance(b, counts, k, node);
      NetOutAppend(ta, pa, tf, pf, node);
      assert NetOut(net.arcs, f, node) == Supply(net.supplies, node);
    }
  }

  /** At a team node the balance pins the number of placed players to the count of the team arc. */
  lemma CountFromBalance(b: Problem, counts: seq<int>, a: seq<nat>, t: nat)
    requires WellFormed(b) && |counts| == |b.teams| && t < |b.teams|
    requires |a| == |b.players| && IsChoice(SideOf(b), a)
    requires b.caps[t] > 0 ==> b.fills[t] <= counts[t] <= b.caps[t]
    requires TeamBalanceAt(b, counts, |b.teams|, TeamNode(t)) + ChoiceBalance(SideOf(b), a, TeamNode(t))
          == SupplyAt(b, TeamNode(t))
    ensures b.fills[t] <= Count(TeamsOf(b, a), t) <= b.caps[t]
    ensures b.caps[t] > 0 ==> counts[t] == TeamCounts(b, a)[t]
  {
    VisitsAreCounts(b, a, t);
    if b.caps[t] <= 0 {
      NobodyWithoutCapacity(b, a, t);
    }
  }

  /** The flow on the player arcs is that of one usable row per player. */
  lemma ChoiceOf(b: Problem, counts: seq<int>, pf: seq<int>) returns (a: seq<nat>)
    requires WellFormed(b) && |counts| == |b.teams| && WithinCapacity(PlayerArcs(SideOf(b), |b.players|), pf)
    requires forall node: Node ::
      TeamBalanceAt(b, counts, |b.teams|, node) + NetOut(PlayerArcs(SideOf(b), |b.players|), pf, node)
      == SupplyAt(b, node)
    ensures |a| == |b.players| && IsChoice(SideOf(b), a) && pf == ChoiceFlow(SideOf(b), a)
  {
    var n := |b.players|;
    var s := SideOf(b);
    forall q: nat | q < n ensures NetOut(PlayerArcs(s, n), pf, PlayerNode(q)) == 0 {
      assert SupplyAt(b, PlayerNode(q)) == 0;
    }
    assert SupplyAt(b, Source) == n;
    a := ReadPlayers(s, pf, n);
  }

  /** Soundness of the network: each flow is the flow of exactly such an assignment. */
  lemma FlowIsAssignment(b: Problem, net: Net, f: seq<int>) returns (a: seq<nat>)
    requires WellFormed(b) && IsNetwork(b, net) && IsFlow(net, f)
    ensures MeetsQuotas(b, a) && f == Encode(b, a)
  {
    var s := SideOf(b);
    var counts, pf := SplitFlow(b, net, f);
    a := ChoiceOf(b, counts, pf);
    forall t | 0 <= t < |b.teams|
      ensures b.fills[t] <= Count(TeamsOf(b, a), t) <= b.caps[t]
      ensures b.caps[t] > 0 ==> counts[t] == TeamCounts(b, a)[t]
    {
      ChoiceFlowBalance(s, a, TeamNode(t));
      CountFromBalance(b, counts, a, t);
    }
    TeamFlowDepends(b, counts, TeamCounts(b, a), |b.teams|);
  }

  lemma SameTail(x: seq<int>, y: seq<int>, s: Side, a: seq<nat>, c: seq<nat>)
    requires |x| == |y| && IsSide(s) && |a| == |c| && IsChoice(s, a) && IsChoice(s, c)
    requires x + ChoiceFlow(s, a) == y + ChoiceFlow(s, c)
    ensures a == c
  {
    ConcatInjective(x, ChoiceFlow(s, a), y, ChoiceFlow(s, c));
    ChoiceFlowInjective(s, a, c);
  }

  /** Different assignments have different flows. */
  lemma EncodeInjective(b: Problem, a: seq<nat>, c: seq<nat>)
    requires WellFormed(b) && MeetsQuotas(b, a) && MeetsQuotas(b, c) && Encode(b, a) == Encode(b, c)
    ensures a == c
  {
    var k := |b.teams|;
    SameTail(TeamFlow(b, TeamCounts(b, a), k), TeamFlow(b, TeamCounts(b, c), k), SideOf(b), a, c);
  }

  /** An optimal flow is the flow of a heaviest assignment within the quotas. */
  lemma OptimalFlowIsBest(b: Problem, net: Net, f: seq<int>) returns (a: seq<nat>)
    requires WellFormed(b) && IsNetwork(b, net) && IsOptimal(net, f)
    ensures MeetsQuotas(b, a) && f == Encode(b, a)
    ensures forall c :: MeetsQuotas(b, c) ==> AssignedWeight(b, c) <= AssignedWeight(b, a)
  {
    a := FlowIsAssignment(b, net, f);
    AssignmentIsFlow(b, net, a);
    forall c | MeetsQuotas(b, c) ensures AssignedWeight(b, c) <= AssignedWeight(b, a) {
      AssignmentIsFlow(b, net, c);
      assert IsFlow(net, Encode(b, c));
    }
  }
}
