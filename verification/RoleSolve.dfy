/** One attempt of the detailed solver: bucket table, network, solver, decoding. */
module RoleSolve {
  import opened Optional
  import opened Sums
  import opened AmateurData
  import opened Network
  import opened PlayerSide
  import opened Decoding
  import opened RoleBuckets
  import opened RoleFlow
  import TeamTables

  // ----- bucket counts of the batch -----

  function BucketCounts(players: seq<Player>): (r: seq<int>)
    requires forall p :: 0 <= p < |players| ==> players[p].bucket < BUCKETS
    ensures |r| == BUCKETS && forall q :: 0 <= q < BUCKETS ==> 0 <= r[q]
  {
    if players == [] then seq(BUCKETS, _ => 0)
    else
      var front := BucketCounts(players[..|players| - 1]);
      var q := players[|players| - 1].bucket;
      front[q := front[q] + 1]
  }

  lemma {:induction false} BucketCountsTotal(players: seq<Player>)
    requires forall p :: 0 <= p < |players| ==> players[p].bucket < BUCKETS
    ensures Sum(BucketCounts(players)) == |players|
  {
    if players == [] {
      SumZero(BucketCounts(players));
    } else {
      var front := players[..|players| - 1];
      BucketCountsTotal(front);
      var q := players[|players| - 1].bucket;
      SumUpdate(BucketCounts(front), q, BucketCounts(front)[q] + 1);
    }
  }

  /** The players of a bucket. */
  ghost function InBucket(players: seq<Player>, q: nat): set<nat> {
    set p: nat | p < |players| && players[p].bucket == q
  }

  lemma InBucketNext(front: seq<Player>, last: Player, q: nat)
    ensures |InBucket(front + [last], q)| == |InBucket(front, q)| + if last.bucket == q then 1 else 0
  {
    var before, after := InBucket(front, q), InBucket(front + [last], q);
    if last.bucket == q {
      assert after == before + {|front|};
    } else {
      assert after == before;
    }
  }

  lemma {:induction false} BucketCountIs(players: seq<Player>, q: nat)
    requires forall p :: 0 <= p < |players| ==> players[p].bucket < BUCKETS
    requires q < BUCKETS
    ensures BucketCounts(players)[q] == |InBucket(players, q)|
  {
    if players == [] {
      assert InBucket(players, q) == {};
    } else {
      var front, last := players[..|players| - 1], players[|players| - 1];
      BucketCountIs(front, q);
      InBucketNext(front, last, q);
      assert players == front + [last];
    }
  }

  // ----- building -----

  /** The guard before the arcs of a team: its positive capacities must reach its target. */
  predicate Short(b: Problem, t: nat)
    requires Sized(b) && t < |b.teams|
  {
    Sum(TeamTables.Positive(b.caps[t])) < b.target[t]
  }

  /** With exact margins the guard never fires. */
  lemma NeverShort(b: Problem, t: nat)
    requires WellFormed(b) && t < |b.teams|
    ensures !Short(b, t)
  {
    SumLe(b.caps[t], TeamTables.Positive(b.caps[t]));
  }

  method BuildSeats(b: Problem) returns (arcs: seq<Arc>, short: bool)
    requires WellFormed(b)
    ensures arcs == SeatArcs(b, |b.teams|) && !short
  {
    arcs, short := [], false;
    for t := 0 to |b.teams|
      invariant arcs == SeatArcs(b, t) && !short
    {
      NeverShort(b, t);
      short := short || Short(b, t);
      for r := 0 to BUCKETS
        invariant arcs == SeatArcs(b, t) + RoleArcs(b, t, r)
      {
        if b.caps[t][r] > 0 {
          arcs := arcs + [Arc(RoleNode(t, r), TeamNode(t), b.caps[t][r], 0, Plain)];
        }
      }
      if b.target[t] > 0 {
        arcs := arcs + [Arc(TeamNode(t), Sink, b.target[t], 0, Plain)];
      }
    }
  }

  method Build(b: Problem) returns (net: Net, placing: bool, short: bool)
    requires WellFormed(b)
    ensures IsNetwork(b, net) && !short
    ensures placing <==> !NothingUsable(SideOf(b), |b.players|)
  {
    var seats;
    seats, short := BuildSeats(b);
    var arcs;
    arcs, placing := BuildPlayers(SideOf(b), seats);
    net := Net(arcs, AddSupply(AddSupply(map[], Source, |b.players|), Sink, -|b.players|));
  }

  // ----- decoding -----

  lemma {:induction false} RoleArcsPlain(b: Problem, t: nat, k: nat)
    requires Sized(b) && t < |b.teams| && k <= BUCKETS
    ensures AllPlain(RoleArcs(b, t, k))
  {
    if k > 0 {
      RoleArcsPlain(b, t, k - 1);
    }
  }

  lemma {:induction false} SeatArcsPlain(b: Problem, k: nat)
    requires Sized(b) && k <= |b.teams|
    ensures AllPlain(SeatArcs(b, k))
  {
    if k > 0 {
      SeatArcsPlain(b, k - 1);
      RoleArcsPlain(b, k - 1, BUCKETS);
    }
  }

  lemma DecodeEncode(b: Problem, net: Net, a: seq<nat>, status: string)
    requires WellFormed(b) && IsNetwork(b, net) && FillsTable(b, a)
    ensures RowsExist(b.players, a) && |net.arcs| == |Encode(b, a)|
    ensures Decoded(map[], b.players, net.arcs, Encode(b, a), status) == Result(b.players, a, status)
  {
    var arcs, flow := SeatArcs(b, |b.teams|), SeatFlow(b, b.caps, b.target, |b.teams|);
    SeatArcsPlain(b, |b.teams|);
    PlainArcsFirst(b.players, SideOf(b), a, arcs, flow, status);
  }

  // ----- assignments, told by rows and teams -----

  /** The table gives the team at least one seat of the bucket. */
  ghost predicate HasSeat(teams: seq<AmateurData.Seat>, caps: seq<seq<int>>, id: int, bucket: nat)
    requires |caps| == |teams| && IsMatrix(caps, BUCKETS)
  {
    bucket < BUCKETS && exists t :: 0 <= t < |teams| && teams[t].id == id && caps[t][bucket] > 0
  }

  /** A row that the attempt may use: admitted within the gap, for a team with a seat of the player's bucket. */
  ghost predicate RowOpen(player: Player, row: Row, teams: seq<AmateurData.Seat>, caps: seq<seq<int>>, gap: Option<int>)
    requires |caps| == |teams| && IsMatrix(caps, BUCKETS)
  {
    Admitted(row, gap) && HasSeat(teams, caps, row.teamId, player.bucket)
  }

  ghost predicate NoRowOpen(players: seq<Player>, teams: seq<AmateurData.Seat>, caps: seq<seq<int>>, gap: Option<int>)
    requires |caps| == |teams| && IsMatrix(caps, BUCKETS)
  {
    forall p, r :: 0 <= p < |players| && 0 <= r < |players[p].rows| ==>
      !RowOpen(players[p], players[p].rows[r], teams, caps, gap)
  }

  lemma DestinationMeans(b: Problem, player: Player, row: Row)
    requires WellFormed(b) && DistinctIds(b.teams)
    ensures Destination(b, player.bucket, row).Some? <==> RowOpen(player, row, b.teams, b.caps, b.gap)
    ensures forall t :: 0 <= t < |b.teams| && Destination(b, player.bucket, row).Some? ==>
      (b.teams[t].id == row.teamId <==> Destination(b, player.bucket, row).value == RoleNode(t, player.bucket))
  {
    forall t: nat | t < |b.teams| && b.teams[t].id == row.teamId ensures IndexOf(b.teams, row.teamId) == Some(t) {
      IndexOfId(b.teams, t);
    }
    if player.bucket < BUCKETS {
      forall t | 0 <= t < |b.teams| && b.caps[t][player.bucket] > 0 ensures b.target[t] > 0 {
        SumAtLeastEntry(b.caps[t], player.bucket);
      }
    }
  }

  lemma NothingUsableMeans(b: Problem)
    requires WellFormed(b) && DistinctIds(b.teams)
    ensures NothingUsable(SideOf(b), |b.players|) <==> NoRowOpen(b.players, b.teams, b.caps, b.gap)
  {
    forall p, r | 0 <= p < |b.players| && 0 <= r < |b.players[p].rows|
      ensures SideOf(b).dest[p][r].Some? <==> RowOpen(b.players[p], b.players[p].rows[r], b.teams, b.caps, b.gap)
    {
      DestinationMeans(b, b.players[p], b.players[p].rows[r]);
    }
  }

  /** How many players of the bucket are chosen for the team. */
  ghost function ChosenOf(players: seq<Player>, a: seq<nat>, id: int, bucket: nat): nat
    requires RowsExist(players, a)
  {
    if a == [] then 0
    else
      var n := |a| - 1;
      ChosenOf(players, a[..n], id, bucket)
      + if players[n].rows[a[n]].teamId == id && players[n].bucket == bucket then 1 else 0
  }

  /** An open row for everyone, and at every team exactly the seats of the table. */
  ghost predicate FillsExactly(players: seq<Player>, teams: seq<AmateurData.Seat>, caps: seq<seq<int>>,
        gap: Option<int>, a: seq<nat>)
    requires |caps| == |teams| && IsMatrix(caps, BUCKETS)
  {
    && PicksOpen(players, teams, caps, gap, a)
    && forall t, r :: 0 <= t < |teams| && 0 <= r < BUCKETS ==> ChosenOf(players, a, teams[t].id, r) == caps[t][r]
  }

  ghost predicate PicksOpen(players: seq<Player>, teams: seq<AmateurData.Seat>, caps: seq<seq<int>>, gap: Option<int>,
        a: seq<nat>)
    requires |caps| == |teams| && IsMatrix(caps, BUCKETS)
  {
    && |a| == |players| && RowsExist(players, a)
    && forall p :: 0 <= p < |a| ==> RowOpen(players[p], players[p].rows[a[p]], teams, caps, gap)
  }

  lemma ChoiceMeans(b: Problem, a: seq<nat>)
    requires WellFormed(b) && DistinctIds(b.teams) && |a| == |b.players|
    ensures IsChoice(SideOf(b), a) <==> PicksOpen(b.players, b.teams, b.caps, b.gap, a)
  {
    var s := SideOf(b);
    forall p: nat | p < |a| && a[p] < |b.players[p].rows|
      ensures Hits(s, p, a[p]) <==> RowOpen(b.players[p], b.players[p].rows[a[p]], b.teams, b.caps, b.gap)
    {
      DestinationMeans(b, b.players[p], b.players[p].rows[a[p]]);
    }
    if IsChoice(s, a) {
      ChoiceRowsExist(b.players, s, a);
      assert forall p: nat :: p < |a| ==> Hits(s, p, a[p]);
    } else if RowsExist(b.players, a) {
      var p: nat :| p < |a| && !Hits(s, p, a[p]);
      assert a[p] < |b.players[p].rows|;
    }
  }

  lemma {:induction false} VisitsAreChosen(b: Problem, a: seq<nat>, t: nat, r: nat)
    requires WellFormed(b) && DistinctIds(b.teams) && IsChoice(SideOf(b), a) && t < |b.teams|
    ensures RowsExist(b.players, a) && Visits(SideOf(b), a, RoleNode(t, r)) == ChosenOf(b.players, a, b.teams[t].id, r)
  {
    ChoiceRowsExist(b.players, SideOf(b), a);
    if a != [] {
      var n := |a| - 1;
      VisitsAreChosen(b, a[..n], t, r);
      assert Hits(SideOf(b), n, a[n]);
      DestinationMeans(b, b.players[n], b.players[n].rows[a[n]]);
    }
  }

  lemma {:induction false} TeamVisitsAreChosen(b: Problem, a: seq<nat>, t: nat)
    requires WellFormed(b) && DistinctIds(b.teams) && IsChoice(SideOf(b), a) && t < |b.teams|
    ensures RowsExist(b.players, a) && TeamVisits(b, a, t) == ChosenAt(b.players, a, b.teams[t].id)
  {
    ChoiceRowsExist(b.players, SideOf(b), a);
    if a != [] {
      var n := |a| - 1;
      TeamVisitsAreChosen(b, a[..n], t);
      assert Hits(SideOf(b), n, a[n]);
      DestinationMeans(b, b.players[n], b.players[n].rows[a[n]]);
    }
  }

  /** The assignments of the network are exactly these. */
  lemma FillsMeans(b: Problem, a: seq<nat>)
    requires WellFormed(b) && DistinctIds(b.teams)
    ensures FillsTable(b, a) <==> FillsExactly(b.players, b.teams, b.caps, b.gap, a)
  {
    if |a| == |b.players| {
      ChoiceMeans(b, a);
      if IsChoice(SideOf(b), a) {
        forall t, r | 0 <= t < |b.teams| && 0 <= r < BUCKETS
          ensures Visits(SideOf(b), a, RoleNode(t, r)) == ChosenOf(b.players, a, b.teams[t].id, r)
        {
          VisitsAreChosen(b, a, t, r);
        }
      }
    }
  }

  lemma FillsWeigh(b: Problem, a: seq<nat>)
    requires WellFormed(b) && DistinctIds(b.teams) && FillsTable(b, a)
    ensures FillsExactly(b.players, b.teams, b.caps, b.gap, a)
    ensures AssignedWeight(b, a) == ChosenWeight(b.players, a)
  {
    FillsMeans(b, a);
    WeightIsChosen(b.players, SideOf(b), a);
  }

  // ----- the attempt -----

  /** The result comes from an assignment that fills the table, a heaviest one if the solver optimises. */
  ghost predicate CorrectTable(b: Problem, status: string, result: map<int, Assigned>, best: bool)
    requires WellFormed(b)
  {
    exists a :: FillsTable(b, a) && RowsExist(b.players, a) && result == Result(b.players, a, status)
      && (best ==> forall c :: FillsTable(b, c) ==> AssignedWeight(b, c) <= AssignedWeight(b, a))
  }

  lemma AnswerDecodes(b: Problem, net: Net, answer: Answer, status: string, best: bool)
    requires WellFormed(b) && IsNetwork(b, net) && Honest(net, answer) && !answer.Infeasible?
    requires best ==> answer.Optimal?
    ensures |net.arcs| == |answer.flow|
    ensures CorrectTable(b, status, Decoded(map[], b.players, net.arcs, answer.flow, status), best)
  {
    var a;
    if answer.Optimal? {
      a := OptimalFlowIsBest(b, net, answer.flow);
    } else {
      a := FlowFillsTable(b, net, answer.flow);
    }
    DecodeEncode(b, net, a, status);
  }

  lemma NoFlowNoFilling(b: Problem, net: Net)
    requires WellFormed(b) && IsNetwork(b, net) && Honest(net, Infeasible)
    ensures forall a :: !FillsTable(b, a)
  {
    forall a ensures !FillsTable(b, a) {
      if FillsTable(b, a) {
        TableFillingIsFlow(b, net, a);
      }
    }
  }

  /** Solving a prepared table. When no row is usable the attempt returns an empty result, not a failure. */
  method SolveTable(b: Problem, status: string, solve: Net -> Answer) returns (result: Option<map<int, Assigned>>)
    requires WellFormed(b) && HonestSolver(solve)
    ensures NothingUsable(SideOf(b), |b.players|) ==> result == Some(map[])
    ensures !NothingUsable(SideOf(b), |b.players|) && result.Some? ==>
      CorrectTable(b, status, result.value, AlwaysOptimal(solve))
    ensures result.None? ==> forall a :: !FillsTable(b, a)
  {
    var net, placing, short := Build(b);
    result := None;
    if !short {
      if !placing {
        result := Some(map[]);
      } else {
        var answer := solve(net);
        assert Honest(net, answer);
        if answer.Infeasible? {
          NoFlowNoFilling(b, net);
        } else {
          AnswerDecodes(b, net, answer, status, AlwaysOptimal(solve));
          var m := Decode(b.players, net, answer.flow, status);
          result := Some(m);
        }
      }
    }
  }

  /** One pitcher whose only row, for a team with one open seat, is beyond the tier gap. */
  function BeyondGap(): (b: Problem)
    ensures Sized(b) && |b.players| == 1
  {
    var row := Row(7, false, Some(0), Some(5), 0);
    var caps := [seq(BUCKETS, _ => 0)[PITCHER := 1]];
    Problem([Player(1, PITCHER, [row])], [AmateurData.Seat(7, 1, 0)], [1], caps, Some(1))
  }

  /** A batch with exact margins and no usable row: no assignment fills its table, and yet it has a result. */
  lemma EmptyResultHappens()
    ensures var b := BeyondGap();
      && WellFormed(b) && NothingUsable(SideOf(b), 1)
      && (forall a :: !FillsTable(b, a))
  {
    var b := BeyondGap();
    var zeros := seq(BUCKETS, _ => 0);
    SumZero(zeros);
    SumUpdate(zeros, PITCHER, 1);
    assert Sum([1]) == 1 by {
      assert [1][..0] == [];
    }
    forall a ensures !FillsTable(b, a) {
      if a != [] && a[0] < 1 {
        assert !Hits(SideOf(b), 0, a[0]);
      }
    }
  }

  /** The result comes from an assignment that fills the table, a heaviest one if the solver optimises. */
  ghost predicate AnswersTable(players: seq<Player>, teams: seq<AmateurData.Seat>, caps: seq<seq<int>>,
        gap: Option<int>, status: string, result: map<int, Assigned>, best: bool)
    requires |caps| == |teams| && IsMatrix(caps, BUCKETS)
  {
    exists a :: FillsExactly(players, teams, caps, gap, a) && result == Result(players, a, status)
      && (best ==> forall c :: FillsExactly(players, teams, caps, gap, c) ==>
            ChosenWeight(players, c) <= ChosenWeight(players, a))
  }

  /** The entry comes from an open row of the player. */
  ghost predicate FromRow(players: seq<Player>, teams: seq<AmateurData.Seat>, caps: seq<seq<int>>, gap: Option<int>,
        status: string, id: int, entry: Assigned)
    requires |caps| == |teams| && IsMatrix(caps, BUCKETS)
  {
    exists p, r ::
      && 0 <= p < |players| && 0 <= r < |players[p].rows|
      && players[p].id == id && RowOpen(players[p], players[p].rows[r], teams, caps, gap)
      && entry == Assigned(players[p].rows[r].teamId, players[p].rows[r].weight, status)
  }

  ghost predicate RowsBehind(players: seq<Player>, teams: seq<AmateurData.Seat>, caps: seq<seq<int>>, gap: Option<int>,
        status: string, result: map<int, Assigned>)
    requires |caps| == |teams| && IsMatrix(caps, BUCKETS)
  {
    forall id :: id in result ==> FromRow(players, teams, caps, gap, status, id, result[id])
  }

  /** Everyone is listed, and every team has exactly its target. */
  ghost predicate MeetsTargets(players: seq<Player>, teams: seq<AmateurData.Seat>, target: seq<int>,
        result: map<int, Assigned>)
    requires |teams| == |target|
  {
    && (forall p :: 0 <= p < |players| ==> players[p].id in result)
    && (forall t :: 0 <= t < |teams| ==> HeadCount(players, result, |players|, teams[t].id) == target[t])
  }

  lemma CorrectMeans(b: Problem, status: string, result: map<int, Assigned>, best: bool)
    requires WellFormed(b) && DistinctIds(b.teams) && CorrectTable(b, status, result, best)
    ensures AnswersTable(b.players, b.teams, b.caps, b.gap, status, result, best)
  {
    var a :| FillsTable(b, a) && RowsExist(b.players, a) && result == Result(b.players, a, status)
      && (best ==> forall c :: FillsTable(b, c) ==> AssignedWeight(b, c) <= AssignedWeight(b, a));
    FillsWeigh(b, a);
    forall c | FillsExactly(b.players, b.teams, b.caps, b.gap, c)
      ensures FillsTable(b, c) && AssignedWeight(b, c) == ChosenWeight(b.players, c)
    {
      FillsMeans(b, c);
      FillsWeigh(b, c);
    }
  }

  lemma AnswerMeans(b: Problem, status: string, result: map<int, Assigned>, best: bool)
    requires WellFormed(b) && AnswersTable(b.players, b.teams, b.caps, b.gap, status, result, best)
    ensures RowsBehind(b.players, b.teams, b.caps, b.gap, status, result)
    ensures b.players != [] ==> result != map[]
  {
    var a :| FillsExactly(b.players, b.teams, b.caps, b.gap, a) && result == Result(b.players, a, status);
    forall id | id in result ensures FromRow(b.players, b.teams, b.caps, b.gap, status, id, result[id]) {
      var p := ResultFromRows(b.players, a, status, id);
      assert 0 <= a[p] < |b.players[p].rows|;
    }
    if b.players != [] {
      var n := |a| - 1;
      assert b.players[n].id in Result(b.players, a, status);
    }
  }

  lemma TargetsAreMet(b: Problem, status: string, result: map<int, Assigned>, best: bool)
    requires WellFormed(b) && DistinctIds(b.teams) && DistinctPlayers(b.players)
    requires CorrectTable(b, status, result, best)
    ensures MeetsTargets(b.players, b.teams, b.target, result)
  {
    var a :| FillsTable(b, a) && RowsExist(b.players, a) && result == Result(b.players, a, status);
    EveryoneCounted(b.players, a, status, result);
    forall t: nat | t < |b.teams|
      ensures HeadCount(b.players, result, |b.players|, b.teams[t].id) == b.target[t]
    {
      TeamVisitsAreChosen(b, a, t);
      FillingMeetsTargets(b, a, t);
    }
  }

  /** What an attempt on a table may return, told by rows, teams and head counts. */
  ghost predicate Returns(players: seq<Player>, teams: seq<AmateurData.Seat>, target: seq<int>, caps: seq<seq<int>>,
        gap: Option<int>, status: string, result: Option<map<int, Assigned>>, best: bool)
    requires |caps| == |teams| == |target| && IsMatrix(caps, BUCKETS)
  {
    && (result == Some(map[]) <==> NoRowOpen(players, teams, caps, gap))
    && (result.None? ==> forall a :: !FillsExactly(players, teams, caps, gap, a))
    && (result.Some? ==> RowsBehind(players, teams, caps, gap, status, result.value))
    && (result.Some? && result.value != map[] ==>
          && AnswersTable(players, teams, caps, gap, status, result.value, best)
          && (DistinctPlayers(players) ==> MeetsTargets(players, teams, target, result.value)))
  }

  lemma TableReturns(b: Problem, status: string, result: Option<map<int, Assigned>>, best: bool)
    requires WellFormed(b) && DistinctIds(b.teams) && b.players != []
    requires NothingUsable(SideOf(b), |b.players|) ==> result == Some(map[])
    requires !NothingUsable(SideOf(b), |b.players|) && result.Some? ==> CorrectTable(b, status, result.value, best)
    requires result.None? ==> forall a :: !FillsTable(b, a)
    ensures Returns(b.players, b.teams, b.target, b.caps, b.gap, status, result, best)
  {
    NothingUsableMeans(b);
    if result.None? {
      NoneFills(b);
    } else if !NothingUsable(SideOf(b), |b.players|) {
      CorrectMeans(b, status, result.value, best);
      AnswerMeans(b, status, result.value, best);
      if DistinctPlayers(b.players) {
        TargetsAreMet(b, status, result.value, best);
      }
    }
  }

  lemma NoneFills(b: Problem)
    requires WellFormed(b) && DistinctIds(b.teams) && forall a :: !FillsTable(b, a)
    ensures forall a :: !FillsExactly(b.players, b.teams, b.caps, b.gap, a)
  {
    forall a ensures !FillsExactly(b.players, b.teams, b.caps, b.gap, a) {
      FillsMeans(b, a);
    }
  }

  /**
   The attempt as a whole, for targets that cover the batch exactly. Its result is empty exactly when no row is
   open; any other result places everyone at an open row, and exactly the target at every team.
   */
  method SolveDetailed(players: seq<Player>, facts: seq<TeamTables.TeamFacts>, target: seq<int>, gap: Option<int>,
                       status: string, solve: Net -> Answer)
    returns (result: Option<map<int, Assigned>>, ghost caps: seq<seq<int>>, ghost afterPitchers: Moment,
      ghost afterHitters: Moment)
    requires HonestSolver(solve) && |facts| == |target| && Sum(target) == |players| && TeamTables.DistinctTeams(facts)
    requires forall t :: 0 <= t < |facts| ==> |facts[t].roleCounts| == BUCKETS && 0 <= target[t]
    requires forall p :: 0 <= p < |players| ==> players[p].bucket < BUCKETS
    ensures players == [] ==> result == None
    ensures players != [] ==>
      && ExactMargins(target, BucketCounts(players), caps) && Sum(BucketCounts(players)) > 0
      && Prepared(facts, target, BucketCounts(players), afterPitchers, afterHitters, caps)
    ensures players != [] ==>
      Returns(players, TeamTables.SeatsOf(facts, target), target, caps, gap, status, result, AlwaysOptimal(solve))
  {
    var counts := BucketCounts(players);
    BucketCountsTotal(players);
    var ok, table;
    ok, table, afterPitchers, afterHitters := PreparePositionBuckets(facts, target, counts);
    caps := table;
    if !ok {
      return None, caps, afterPitchers, afterHitters;
    }
    var b := Problem(players, TeamTables.SeatsOf(facts, target), target, table, gap);
    result := SolveTable(b, status, solve);
    TableReturns(b, status, result, AlwaysOptimal(solve));
  }

  /** Every player of a non-empty attempt sits at a team, and every team has exactly its target. */
  lemma DetailedResultIsComplete(b: Problem, a: seq<nat>, status: string, p: nat, t: nat)
    requires WellFormed(b) && FillsTable(b, a) && DistinctPlayers(b.players) && RowsExist(b.players, a)
    requires p < |b.players| && t < |b.teams|
    ensures b.players[p].id in Result(b.players, a, status)
    ensures Result(b.players, a, status)[b.players[p].id].teamId == b.players[p].rows[a[p]].teamId
    ensures TeamVisits(b, a, t) == b.target[t]
  {
    ResultPlacesEveryone(b.players, a, status, p);
    FillingMeetsTargets(b, a, t);
  }
}
