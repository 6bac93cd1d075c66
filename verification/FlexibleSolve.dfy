/** Building the flexible network, asking the solver, and decoding its answer. */
module FlexibleSolve {
  import opened Optional
  import opened Sums
  import opened AmateurData
  import opened Placement
  import opened Network
  import opened PlayerSide
  import opened Decoding
  import opened TierScreen
  import opened TierScreenRun
  import opened FlexibleFlow

  function ClampedFills(teams: seq<Seat>, caps: seq<int>): (r: seq<int>)
    requires |teams| == |caps|
    ensures |r| == |teams| && forall t :: 0 <= t < |r| ==> r[t] == Max(0, Min(teams[t].minFill, caps[t]))
  {
    seq(|teams|, t requires 0 <= t < |teams| => Max(0, Min(teams[t].minFill, caps[t])))
  }

  function MakeProblem(players: seq<Player>, teams: seq<Seat>, gap: Option<int>, useIncoming: bool,
        incomingCap: int): (b: Problem)
    ensures WellFormed(b) && b.players == players && b.teams == teams && b.gap == gap
  {
    var caps := Capacities(teams, useIncoming, incomingCap);
    Problem(players, teams, caps, ClampedFills(teams, caps), gap)
  }

  // ----- assignments, told by rows and teams -----

  /** The capacity of a team under the cap in use. */
  ghost predicate HasCapacity(teams: seq<Seat>, useIncoming: bool, incomingCap: int, id: int) {
    exists t :: 0 <= t < |teams| && teams[t].id == id && (if useIncoming then incomingCap else teams[t].capacity) > 0
  }

  /** The chosen rows give the team at least its fill, as far as there is room, and at most its capacity. */
  ghost predicate Staffed(players: seq<Player>, team: Seat, useIncoming: bool, incomingCap: int, a: seq<nat>)
    requires RowsExist(players, a)
  {
    var capacity := if useIncoming then incomingCap else team.capacity;
    Min(team.minFill, capacity) <= ChosenAt(players, a, team.id) <= Max(0, capacity)
  }

  /** One admitted row per player, for a team with capacity. */
  ghost predicate Picks(players: seq<Player>, teams: seq<Seat>, gap: Option<int>, useIncoming: bool, incomingCap: int,
        a: seq<nat>)
  {
    && |a| == |players| && RowsExist(players, a)
    && forall p :: 0 <= p < |a| ==>
         && Admitted(players[p].rows[a[p]], gap)
         && HasCapacity(teams, useIncoming, incomingCap, players[p].rows[a[p]].teamId)
  }

  /** Such rows, and every team between its fill and its capacity. */
  ghost predicate Respects(players: seq<Player>, teams: seq<Seat>, gap: Option<int>, useIncoming: bool,
        incomingCap: int, a: seq<nat>)
  {
    && Picks(players, teams, gap, useIncoming, incomingCap, a)
    && forall t :: 0 <= t < |teams| ==> Staffed(players, teams[t], useIncoming, incomingCap, a)
  }

  lemma UsableMeans(players: seq<Player>, teams: seq<Seat>, gap: Option<int>, useIncoming: bool, incomingCap: int,
        row: Row)
    requires DistinctIds(teams)
    ensures Usable(MakeProblem(players, teams, gap, useIncoming, incomingCap), row)
       <==> Admitted(row, gap) && HasCapacity(teams, useIncoming, incomingCap, row.teamId)
  {
    if HasCapacity(teams, useIncoming, incomingCap, row.teamId) {
      var t :|
        0 <= t < |teams| && teams[t].id == row.teamId && (if useIncoming then incomingCap else teams[t].capacity) > 0;
      IndexOfId(teams, t);
    }
  }

  lemma {:induction false} CountsAreChosen(b: Problem, a: seq<nat>, t: nat)
    requires WellFormed(b) && DistinctIds(b.teams) && IsChoice(SideOf(b), a) && t < |b.teams|
    ensures RowsExist(b.players, a) && Count(TeamsOf(b, a), t) == ChosenAt(b.players, a, b.teams[t].id)
  {
    ChoiceRowsExist(b.players, SideOf(b), a);
    if a != [] {
      var n := |a| - 1;
      CountsAreChosen(b, a[..n], t);
      assert TeamsOf(b, a)[..n] == TeamsOf(b, a[..n]);
      var row := b.players[n].rows[a[n]];
      IndexOfId(b.teams, TeamOf(b, row));
      IndexOfId(b.teams, t);
    }
  }

  lemma ChoiceMeans(players: seq<Player>, teams: seq<Seat>, gap: Option<int>, useIncoming: bool, incomingCap: int,
        a: seq<nat>)
    requires DistinctIds(teams) && |a| == |players|
    ensures IsChoice(SideOf(MakeProblem(players, teams, gap, useIncoming, incomingCap)), a)
       <==> Picks(players, teams, gap, useIncoming, incomingCap, a)
  {
    var b := MakeProblem(players, teams, gap, useIncoming, incomingCap);
    var s := SideOf(b);
    forall p: nat | p < |a| && a[p] < |players[p].rows|
      ensures Hits(s, p, a[p])
         <==> Admitted(players[p].rows[a[p]], gap)
              && HasCapacity(teams, useIncoming, incomingCap, players[p].rows[a[p]].teamId)
    {
      UsableMeans(players, teams, gap, useIncoming, incomingCap, players[p].rows[a[p]]);
    }
    if IsChoice(s, a) {
      ChoiceRowsExist(players, s, a);
      assert forall p: nat :: p < |a| ==> Hits(s, p, a[p]);
    } else if RowsExist(players, a) {
      var p: nat :| p < |a| && !Hits(s, p, a[p]);
      assert a[p] < |players[p].rows|;
    }
  }

  lemma QuotaMeans(players: seq<Player>, teams: seq<Seat>, gap: Option<int>, useIncoming: bool, incomingCap: int,
        a: seq<nat>, t: nat)
    requires DistinctIds(teams) && t < |teams| && |a| == |players|
    requires IsChoice(SideOf(MakeProblem(players, teams, gap, useIncoming, incomingCap)), a)
    ensures RowsExist(players, a)
    ensures var b := MakeProblem(players, teams, gap, useIncoming, incomingCap);
      b.fills[t] <= Count(TeamsOf(b, a), t) <= b.caps[t] <==> Staffed(players, teams[t], useIncoming, incomingCap, a)
  {
    CountsAreChosen(MakeProblem(players, teams, gap, useIncoming, incomingCap), a, t);
  }

  /** The quotas of the network's assignments are exactly these. */
  lemma QuotasMean(players: seq<Player>, teams: seq<Seat>, gap: Option<int>, useIncoming: bool, incomingCap: int,
        a: seq<nat>)
    requires DistinctIds(teams)
    ensures MeetsQuotas(MakeProblem(players, teams, gap, useIncoming, incomingCap), a)
       <==> Respects(players, teams, gap, useIncoming, incomingCap, a)
  {
    var b := MakeProblem(players, teams, gap, useIncoming, incomingCap);
    if |a| == |players| {
      ChoiceMeans(players, teams, gap, useIncoming, incomingCap, a);
      if IsChoice(SideOf(b), a) {
        forall t: nat | t < |teams|
          ensures b.fills[t] <= Count(TeamsOf(b, a), t) <= b.caps[t]
             <==> Staffed(players, teams[t], useIncoming, incomingCap, a)
        {
          QuotaMeans(players, teams, gap, useIncoming, incomingCap, a, t);
        }
      }
    }
  }

  // ----- building -----

  /** The supplies after the first k teams: each fill is demanded at its team and granted at the sink. */
  ghost function PartialSupply(b: Problem, k: nat, node: Node): int
    requires k <= |b.teams| == |b.fills|
  {
    match node
    case Sink => Sum(b.fills[..k])
    case TeamNode(t) => if t < k then -b.fills[t] else 0
    case _ => 0
  }

  lemma PartialSupplyStep(b: Problem, t: nat, node: Node)
    requires t < |b.teams| == |b.fills|
    ensures PartialSupply(b, t + 1, node) == PartialSupply(b, t, node)
      + (if node == Sink then b.fills[t] else 0) - (if node == TeamNode(t) then b.fills[t] else 0)
  {
    SumPrefixStep(b.fills, t);
  }

  lemma QuotasNeedPlayers(b: Problem, a: seq<nat>, k: nat)
    requires WellFormed(b) && MeetsQuotas(b, a) && k <= |b.teams|
    ensures Sum(b.fills[..k]) <= |b.players|
  {
    SumLe(b.fills, TeamCounts(b, a));
    CountSum(TeamsOf(b, a), |b.teams|);
    SumOfPrefix(b.fills, k);
  }

  /** The team nodes; `ok` turns false when the fills alone need more players than there are. */
  method BuildTeams(b: Problem) returns (arcs: seq<Arc>, supplies: map<Node, int>, ok: bool)
    requires WellFormed(b)
    ensures ok ==> arcs == TeamArcs(b, |b.teams|)
    ensures ok ==> forall node: Node :: Supply(supplies, node) == PartialSupply(b, |b.teams|, node)
    ensures !ok ==> forall a :: !MeetsQuotas(b, a)
  {
    arcs, supplies := [], map[];
    var required := 0;
    for t := 0 to |b.teams|
      invariant arcs == TeamArcs(b, t)
      invariant required == Sum(b.fills[..t])
      invariant forall node: Node :: Supply(supplies, node) == PartialSupply(b, t, node)
    {
      SumPrefixStep(b.fills, t);
      forall node: Node
        ensures PartialSupply(b, t + 1, node) == PartialSupply(b, t, node)
          + (if node == Sink then b.fills[t] else 0) - (if node == TeamNode(t) then b.fills[t] else 0)
      {
        PartialSupplyStep(b, t, node);
      }
      if b.caps[t] <= 0 {
        continue;
      }
      if required + b.fills[t] > |b.players| {
        forall a ensures !MeetsQuotas(b, a) {
          if MeetsQuotas(b, a) {
            QuotasNeedPlayers(b, a, t + 1);
          }
        }
        ok := false;
        return;
      }
      if b.fills[t] > 0 {
        required := required + b.fills[t];
        supplies := AddSupply(supplies, TeamNode(t), -b.fills[t]);
        supplies := AddSupply(supplies, Sink, b.fills[t]);
      }
      arcs := arcs + [TeamArc(b, t)];
    }
    ok := true;
  }

  lemma NeedsUsableRow(b: Problem, a: seq<nat>)
    requires WellFormed(b) && b.players != [] && NothingUsable(SideOf(b), |b.players|)
    ensures !MeetsQuotas(b, a)
  {
    if a != [] && a[0] < |b.players[0].rows| {
      assert !Hits(SideOf(b), 0, a[0]);
    }
  }

  /** The arcs and supplies, or nothing when the batch is plainly infeasible. */
  method Build(b: Problem) returns (net: Option<Net>)
    requires WellFormed(b) && b.players != []
    ensures net.Some? ==> IsNetwork(b, net.value)
    ensures net.None? ==> forall a :: !MeetsQuotas(b, a)
  {
    var teamArcs, supplies, ok := BuildTeams(b);
    if !ok {
      return None;
    }
    var arcs, placing := BuildPlayers(SideOf(b), teamArcs);
    if !placing {
      forall a ensures !MeetsQuotas(b, a) {
        NeedsUsableRow(b, a);
      }
      return None;
    }
    ghost var fills := supplies;
    supplies := AddSupply(supplies, Source, |b.players|);
    supplies := AddSupply(supplies, Sink, -|b.players|);
    forall node: Node ensures Supply(supplies, node) == SupplyAt(b, node) {
      assert b.fills[..|b.teams|] == b.fills;
      assert Supply(fills, node) == PartialSupply(b, |b.teams|, node);
    }
    net := Some(Net(arcs, supplies));
  }

  // ----- decoding -----

  lemma {:induction false} TeamArcsPlain(b: Problem, k: nat)
    requires k <= |b.teams| == |b.caps| == |b.fills|
    ensures AllPlain(TeamArcs(b, k))
  {
    if k > 0 {
      TeamArcsPlain(b, k - 1);
    }
  }

  /** Decoding the flow of an assignment gives that assignment back. */
  lemma DecodeEncode(b: Problem, net: Net, a: seq<nat>, status: string)
    requires WellFormed(b) && IsNetwork(b, net) && MeetsQuotas(b, a)
    ensures RowsExist(b.players, a) && |net.arcs| == |Encode(b, a)|
    ensures Decoded(map[], b.players, net.arcs, Encode(b, a), status) == Result(b.players, a, status)
  {
    var arcs, flow := TeamArcs(b, |b.teams|), TeamFlow(b, TeamCounts(b, a), |b.teams|);
    TeamArcsPlain(b, |b.teams|);
    PlainArcsFirst(b.players, SideOf(b), a, arcs, flow, status);
  }

  // ----- the flexible solver -----

  /** The result comes from a quota-respecting assignment, a heaviest one if the solver optimises. */
  ghost predicate Correct(b: Problem, status: string, result: map<int, Assigned>, best: bool)
    requires WellFormed(b)
  {
    exists a :: MeetsQuotas(b, a) && RowsExist(b.players, a) && result == Result(b.players, a, status)
      && (best ==> forall c :: MeetsQuotas(b, c) ==> AssignedWeight(b, c) <= AssignedWeight(b, a))
  }

  lemma NoFlowNoAssignment(b: Problem, net: Net)
    requires WellFormed(b) && IsNetwork(b, net) && Honest(net, Infeasible)
    ensures forall a :: !MeetsQuotas(b, a)
  {
    forall a ensures !MeetsQuotas(b, a) {
      if MeetsQuotas(b, a) {
        AssignmentIsFlow(b, net, a);
      }
    }
  }

  /** Whatever flow the solver returns, its decoding is a correct result. */
  lemma AnswerDecodes(b: Problem, net: Net, answer: Answer, status: string, best: bool)
    requires WellFormed(b) && IsNetwork(b, net) && Honest(net, answer) && !answer.Infeasible?
    requires best ==> answer.Optimal?
    ensures |net.arcs| == |answer.flow|
    ensures Correct(b, status, Decoded(map[], b.players, net.arcs, answer.flow, status), best)
  {
    var a;
    if answer.Optimal? {
      a := OptimalFlowIsBest(b, net, answer.flow);
    } else {
      a := FlowIsAssignment(b, net, answer.flow);
    }
    DecodeEncode(b, net, a, status);
  }

  /** The result comes from an assignment that respects the teams, a heaviest one if the solver optimises. */
  ghost predicate Answers(players: seq<Player>, teams: seq<Seat>, gap: Option<int>, useIncoming: bool, incomingCap: int,
        status: string, result: map<int, Assigned>, best: bool)
  {
    exists a :: Respects(players, teams, gap, useIncoming, incomingCap, a) && result == Result(players, a, status)
      && (best ==> forall c :: Respects(players, teams, gap, useIncoming, incomingCap, c) ==>
            ChosenWeight(players, c) <= ChosenWeight(players, a))
  }

  /** Every entry comes from an admitted row of its player, for a team with capacity. */
  ghost predicate RowsBehind(players: seq<Player>, teams: seq<Seat>, gap: Option<int>, useIncoming: bool,
        incomingCap: int, status: string, result: map<int, Assigned>)
  {
    forall id :: id in result ==>
      FromRow(players, teams, gap, useIncoming, incomingCap, status, id, result[id])
  }

  ghost predicate FromRow(players: seq<Player>, teams: seq<Seat>, gap: Option<int>, useIncoming: bool,
        incomingCap: int, status: string, id: int, entry: Assigned)
  {
    exists p, r ::
      && 0 <= p < |players| && 0 <= r < |players[p].rows|
      && players[p].id == id && Admitted(players[p].rows[r], gap)
      && HasCapacity(teams, useIncoming, incomingCap, players[p].rows[r].teamId)
      && entry == Assigned(players[p].rows[r].teamId, players[p].rows[r].weight, status)
  }

  /** Everyone is listed, and every team has its fill, as far as there is room, and no more than its capacity. */
  ghost predicate Fills(players: seq<Player>, teams: seq<Seat>, useIncoming: bool, incomingCap: int,
        result: map<int, Assigned>)
  {
    && (forall p :: 0 <= p < |players| ==> players[p].id in result)
    && forall t :: 0 <= t < |teams| ==>
         var capacity := if useIncoming then incomingCap else teams[t].capacity;
         Min(teams[t].minFill, capacity) <= HeadCount(players, result, |players|, teams[t].id) <= Max(0, capacity)
  }

  lemma WeightMeans(players: seq<Player>, teams: seq<Seat>, gap: Option<int>, useIncoming: bool, incomingCap: int,
        a: seq<nat>)
    requires DistinctIds(teams)
    ensures var b := MakeProblem(players, teams, gap, useIncoming, incomingCap);
      && (MeetsQuotas(b, a) <==> Respects(players, teams, gap, useIncoming, incomingCap, a))
      && (MeetsQuotas(b, a) ==> AssignedWeight(b, a) == ChosenWeight(players, a))
  {
    var b := MakeProblem(players, teams, gap, useIncoming, incomingCap);
    QuotasMean(players, teams, gap, useIncoming, incomingCap, a);
    if MeetsQuotas(b, a) {
      WeightIsChosen(players, SideOf(b), a);
    }
  }

  lemma CorrectMeans(players: seq<Player>, teams: seq<Seat>, gap: Option<int>, useIncoming: bool, incomingCap: int,
        status: string, result: map<int, Assigned>, best: bool)
    requires DistinctIds(teams)
    requires Correct(MakeProblem(players, teams, gap, useIncoming, incomingCap), status, result, best)
    ensures Answers(players, teams, gap, useIncoming, incomingCap, status, result, best)
  {
    var b := MakeProblem(players, teams, gap, useIncoming, incomingCap);
    var a :| MeetsQuotas(b, a) && RowsExist(players, a) && result == Result(players, a, status)
      && (best ==> forall c :: MeetsQuotas(b, c) ==> AssignedWeight(b, c) <= AssignedWeight(b, a));
    WeightMeans(players, teams, gap, useIncoming, incomingCap, a);
    forall c | Respects(players, teams, gap, useIncoming, incomingCap, c)
      ensures MeetsQuotas(b, c) && AssignedWeight(b, c) == ChosenWeight(players, c)
    {
      WeightMeans(players, teams, gap, useIncoming, incomingCap, c);
    }
  }

  lemma AnswerMeans(players: seq<Player>, teams: seq<Seat>, gap: Option<int>, useIncoming: bool, incomingCap: int,
        status: string, result: map<int, Assigned>, best: bool)
    requires Answers(players, teams, gap, useIncoming, incomingCap, status, result, best)
    ensures RowsBehind(players, teams, gap, useIncoming, incomingCap, status, result)
    ensures DistinctPlayers(players) ==> Fills(players, teams, useIncoming, incomingCap, result)
  {
    var a :| Respects(players, teams, gap, useIncoming, incomingCap, a) && result == Result(players, a, status);
    forall id | id in result
      ensures FromRow(players, teams, gap, useIncoming, incomingCap, status, id, result[id])
    {
      var p := ResultFromRows(players, a, status, id);
      assert 0 <= a[p] < |players[p].rows|;
    }
    if DistinctPlayers(players) {
      EveryoneCounted(players, a, status, result);
      forall t | 0 <= t < |teams|
        ensures HeadCount(players, result, |players|, teams[t].id) == ChosenAt(players, a, teams[t].id)
      {
      }
    }
  }

  lemma NoQuotasNoRespects(players: seq<Player>, teams: seq<Seat>, gap: Option<int>, useIncoming: bool,
        incomingCap: int)
    requires DistinctIds(teams)
    requires forall a :: !MeetsQuotas(MakeProblem(players, teams, gap, useIncoming, incomingCap), a)
    ensures forall a :: !Respects(players, teams, gap, useIncoming, incomingCap, a)
  {
    forall a ensures !Respects(players, teams, gap, useIncoming, incomingCap, a) {
      QuotasMean(players, teams, gap, useIncoming, incomingCap, a);
    }
  }

  method SolveFlexible(players: seq<Player>, teams: seq<Seat>, gap: Option<int>, useIncoming: bool, incomingCap: int,
                       status: string, solve: Net -> Answer) returns (result: Option<map<int, Assigned>>)
    requires DistinctIds(teams) && HonestSolver(solve)
    ensures players == [] ==> result == Some(map[])
    ensures players != [] && result.Some? ==>
      Answers(players, teams, gap, useIncoming, incomingCap, status, result.value, AlwaysOptimal(solve))
    ensures players != [] && result.Some? ==>
      RowsBehind(players, teams, gap, useIncoming, incomingCap, status, result.value)
    ensures players != [] && result.Some? && DistinctPlayers(players) ==>
      Fills(players, teams, useIncoming, incomingCap, result.value)
    ensures result.None? ==>
      || (!Undecided(players, teams, gap)
          && !Passes(players, teams, gap.value, Capacities(teams, useIncoming, incomingCap)))
      || forall a :: !Respects(players, teams, gap, useIncoming, incomingCap, a)
  {
    if players == [] {
      return Some(map[]);
    }
    ghost var problem := MakeProblem(players, teams, gap, useIncoming, incomingCap);
    if teams == [] {
      forall a ensures !MeetsQuotas(problem, a) {
        NeedsUsableRow(problem, a);
      }
      NoQuotasNoRespects(players, teams, gap, useIncoming, incomingCap);
      return None;
    }
    var feasible := TierCapacityFeasible(players, teams, gap, useIncoming, incomingCap);
    if !feasible {
      return None;
    }
    var b := MakeProblem(players, teams, gap, useIncoming, incomingCap);
    var net := Build(b);
    if net.None? {
      NoQuotasNoRespects(players, teams, gap, useIncoming, incomingCap);
      return None;
    }
    var answer := solve(net.value);
    assert Honest(net.value, answer);
    if answer.Infeasible? {
      NoFlowNoAssignment(b, net.value);
      NoQuotasNoRespects(players, teams, gap, useIncoming, incomingCap);
      return None;
    }
    AnswerDecodes(b, net.value, answer, status, AlwaysOptimal(solve));
    var m := Decode(players, net.value, answer.flow, status);
    CorrectMeans(players, teams, gap, useIncoming, incomingCap, status, m, AlwaysOptimal(solve));
    AnswerMeans(players, teams, gap, useIncoming, incomingCap, status, m, AlwaysOptimal(solve));
    result := Some(m);
  }
}
