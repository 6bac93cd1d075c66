/** What tier screen, flexible network and retry ladder achieve together: when a batch can be placed. */
module FlexibleTheorems {
  import opened Optional
  import opened Sums
  import opened AmateurData
  import opened Transport
  import opened Placement
  import opened Network
  import opened TierScreen
  import opened TierScreenRun
  import opened FlexibleFlow
  import opened FlexibleSolve
  import opened Decoding
  import IncomingTargets
  import Ordering
  import Targets
  import TeamTables

  // ----- rows as a relation between players and teams -----

  ghost predicate Offers(b: Problem, p: nat, t: nat)
    requires |b.caps| == |b.teams| && p < |b.players|
  {
    exists r :: 0 <= r < |b.players[p].rows| && Usable(b, b.players[p].rows[r]) && TeamOf(b, b.players[p].rows[r]) == t
  }

  ghost function RowFor(b: Problem, p: nat, t: nat): (r: nat)
    requires |b.caps| == |b.teams| && p < |b.players| && Offers(b, p, t)
    ensures r < |b.players[p].rows| && Usable(b, b.players[p].rows[r]) && TeamOf(b, b.players[p].rows[r]) == t
  {
    var r :| 0 <= r < |b.players[p].rows| && Usable(b, b.players[p].rows[r]) && TeamOf(b, b.players[p].rows[r]) == t;
    r
  }

  /** A placement that uses only offered pairs picks one row per player. */
  lemma PlacementPicksRows(b: Problem, teams: seq<nat>) returns (a: seq<nat>)
    requires WellFormed(b) && |teams| == |b.players|
    requires forall p :: 0 <= p < |teams| ==> Offers(b, p, teams[p])
    requires forall t :: 0 <= t < |b.teams| ==> b.fills[t] <= Count(teams, t) <= b.caps[t]
    ensures MeetsQuotas(b, a)
  {
    a := seq(|teams|, p requires 0 <= p < |teams| => RowFor(b, p, teams[p]));
    assert TeamsOf(b, a) == teams;
  }

  lemma {:induction false} CountPositive(a: seq<nat>, p: nat)
    requires p < |a|
    ensures Count(a, a[p]) > 0
  {
    if p < |a| - 1 {
      CountPositive(a[..|a| - 1], p);
    }
  }

  lemma PlacedWhereOpen(a: seq<nat>, adj: seq<set<nat>>, m: seq<int>, c: seq<int>, p: nat)
    requires |m| == |c| && IsRelation(adj, |c|) && Placed(a, adj, m, c) && p < |a|
    ensures a[p] in adj[p] && a[p] < |c| && c[a[p]] > 0
  {
    CountPositive(a, p);
    assert a[p] in adj[p];
  }

  lemma PlacedCounts(a: seq<nat>, adj: seq<set<nat>>, m: seq<int>, c: seq<int>)
    requires |m| == |c| && Placed(a, adj, m, c)
    ensures |a| == |adj| && forall t :: 0 <= t < |c| ==> m[t] <= Count(a, t) <= c[t]
  {
  }

  // ----- the screen against the rows -----

  /** An accepted row agrees with the tier of its player and of the team it names. */
  ghost predicate RowTiered(rows: seq<Row>, player: Player, row: Row, team: Seat)
    requires player.rows != []
  {
    !row.rejected && row.teamId == team.id ==>
      ToInt(row.playerTier, 0) == PlayerTier(player) && ToInt(row.teamTier, 0) == TeamTier(rows, team.id)
  }

  /** Tiers are properties of players and teams, not of rows, and every player has a row. */
  ghost predicate WellTiered(players: seq<Player>, teams: seq<Seat>) {
    && (forall p :: 0 <= p < |players| ==> players[p].rows != [])
    && (forall p, r, t :: 0 <= p < |players| && 0 <= r < |players[p].rows| && 0 <= t < |teams| ==>
         RowTiered(AllRows(players), players[p], players[p].rows[r], teams[t]))
  }

  /** Every player has an acceptable row for every team that has capacity. */
  ghost predicate Complete(players: seq<Player>, teams: seq<Seat>, caps: seq<int>)
    requires |caps| == |teams|
  {
    forall p, t :: 0 <= p < |players| && 0 <= t < |teams| && caps[t] > 0 ==> Accepts(players[p], teams[t].id)
  }

  predicate Accepts(player: Player, id: int) {
    exists r :: 0 <= r < |player.rows| && player.rows[r].teamId == id && id != 0 && !player.rows[r].rejected
  }

  ghost predicate FillsFit(teams: seq<Seat>, caps: seq<int>)
    requires |caps| == |teams|
  {
    forall t :: 0 <= t < |teams| ==> teams[t].minFill <= caps[t]
  }

  /** The hypotheses under which the screen is compared with the rows. */
  ghost predicate Screened(b: Problem, gap: int) {
    && WellFormed(b) && b.fills == ClampedFills(b.teams, b.caps) && b.gap == Some(gap)
    && DistinctIds(b.teams) && WellTiered(b.players, b.teams) && !Undecided(b.players, b.teams, b.gap)
  }

  ghost function Tiers(b: Problem): (r: (seq<int>, seq<int>))
    requires forall p :: 0 <= p < |b.players| ==> b.players[p].rows != []
    ensures |r.0| == |b.players| && |r.1| == |b.teams|
  {
    (PlayerTiers(b.players), TeamTiers(AllRows(b.players), b.teams))
  }

  lemma PassesMeans(b: Problem, gap: int)
    requires Screened(b, gap)
    ensures Passes(b.players, b.teams, gap, b.caps)
      <==> ScreenPasses(Tiers(b).0, Tiers(b).1, ScreenedFills(b.teams, b.caps), b.caps, gap)
  {
    AllHaveRows(b.players);
  }

  /** A usable row stays inside the gap, measured with the tiers of its player and team. */
  lemma UsableWithinGap(b: Problem, gap: int, p: nat, r: nat)
    requires Screened(b, gap) && p < |b.players| && r < |b.players[p].rows| && Usable(b, b.players[p].rows[r])
    ensures TeamOf(b, b.players[p].rows[r]) in TierRelation(Tiers(b).0, Tiers(b).1, gap)[p]
  {
    var row := b.players[p].rows[r];
    var t := TeamOf(b, row);
    assert RowTiered(AllRows(b.players), b.players[p], row, b.teams[t]);
    assert TierGap(row) == Abs(Tiers(b).0[p] - Tiers(b).1[t]);
  }

  /** What the second loop of the screen asks: enough players near the unclamped fills of every set of tiers. */
  ghost predicate FillsReachable(b: Problem, gap: int)
    requires Screened(b, gap)
  {
    var adj := TierRelation(Tiers(b).0, Tiers(b).1, gap);
    Hall(Converse(adj, |b.teams|), ScreenedFills(b.teams, b.caps), Ones(|b.players|))
  }

  /** The teams of a quota-respecting assignment are a placement by tiers. */
  lemma AssignedByTiers(b: Problem, gap: int, a: seq<nat>)
    requires Screened(b, gap) && MeetsQuotas(b, a)
    ensures Placed(TeamsOf(b, a), TierRelation(Tiers(b).0, Tiers(b).1, gap), b.fills, b.caps)
  {
    var teams := TeamsOf(b, a);
    var adj := TierRelation(Tiers(b).0, Tiers(b).1, gap);
    forall p | 0 <= p < |teams| ensures teams[p] in adj[p] {
      UsableWithinGap(b, gap, p, a[p]);
    }
  }

  lemma FillsAreClamped(b: Problem, gap: int)
    requires Screened(b, gap)
    ensures Clamped(ScreenedFills(b.teams, b.caps), b.caps) == b.fills
    ensures FillsFit(b.teams, b.caps) ==> ScreenedFills(b.teams, b.caps) == b.fills
  {
  }

  /** A batch that can be placed passes exactly when its unclamped fills are within reach. */
  lemma PlaceablePasses(b: Problem, gap: int, a: seq<nat>)
    requires Screened(b, gap) && MeetsQuotas(b, a)
    ensures Passes(b.players, b.teams, gap, b.caps) <==> FillsReachable(b, gap)
  {
    AssignedByTiers(b, gap, a);
    FillsAreClamped(b, gap);
    ScreenAgainstClamped(Tiers(b).0, Tiers(b).1, ScreenedFills(b.teams, b.caps), b.caps, gap);
    PassesMeans(b, gap);
  }

  /** No false alarm: when no fill exceeds its capacity, a placeable batch passes the screen. */
  lemma NoFalseAlarm(b: Problem, gap: int, a: seq<nat>)
    requires Screened(b, gap) && FillsFit(b.teams, b.caps) && MeetsQuotas(b, a)
    ensures Passes(b.players, b.teams, gap, b.caps)
  {
    AssignedByTiers(b, gap, a);
    FillsAreClamped(b, gap);
    ScreenExact(Tiers(b).0, Tiers(b).1, b.fills, b.caps, gap);
    PassesMeans(b, gap);
  }

  /** A passed screen yields a placement by tiers, within the solver's clamped fills. */
  lemma PassedPlaces(b: Problem, gap: int) returns (teams: seq<nat>)
    requires Screened(b, gap) && Passes(b.players, b.teams, gap, b.caps)
    ensures Placed(teams, TierRelation(Tiers(b).0, Tiers(b).1, gap), b.fills, b.caps)
  {
    PassesMeans(b, gap);
    var fills := ScreenedFills(b.teams, b.caps);
    ScreenSound(Tiers(b).0, Tiers(b).1, fills, b.caps, gap);
    assert Clamped(fills, b.caps) == b.fills;
    teams :| Placed(teams, TierRelation(Tiers(b).0, Tiers(b).1, gap), b.fills, b.caps);
  }

  /** With complete rows a passed screen is enough: the batch can be placed within the gap. */
  lemma PassedIsPlaceable(b: Problem, gap: int) returns (a: seq<nat>)
    requires Screened(b, gap) && Complete(b.players, b.teams, b.caps)
    requires Passes(b.players, b.teams, gap, b.caps)
    ensures MeetsQuotas(b, a)
  {
    var teams := PassedPlaces(b, gap);
    var adj := TierRelation(Tiers(b).0, Tiers(b).1, gap);
    PlacedCounts(teams, adj, b.fills, b.caps);
    forall p | 0 <= p < |teams| ensures Offers(b, p, teams[p]) {
      PlacedWhereOpen(teams, adj, b.fills, b.caps, p);
      AcceptedIsUsable(b, p, teams[p], gap);
    }
    a := PlacementPicksRows(b, teams);
  }

  lemma AcceptedRow(b: Problem, p: nat, t: nat) returns (r: nat)
    requires |b.caps| == |b.teams| && DistinctIds(b.teams) && Complete(b.players, b.teams, b.caps)
    requires p < |b.players| && t < |b.teams| && b.caps[t] > 0
    ensures r < |b.players[p].rows| && b.players[p].rows[r].teamId == b.teams[t].id != 0
    ensures !b.players[p].rows[r].rejected && IndexOf(b.teams, b.players[p].rows[r].teamId) == Some(t)
  {
    assert Accepts(b.players[p], b.teams[t].id);
    r :| 0 <= r < |b.players[p].rows| && b.players[p].rows[r].teamId == b.teams[t].id && b.teams[t].id != 0
      && !b.players[p].rows[r].rejected;
    IndexOfId(b.teams, t);
  }

  lemma AcceptedIsUsable(b: Problem, p: nat, t: nat, gap: int)
    requires Screened(b, gap) && Complete(b.players, b.teams, b.caps)
    requires p < |b.players| && t < |b.teams| && b.caps[t] > 0 && Abs(Tiers(b).0[p] - Tiers(b).1[t]) <= gap
    ensures Offers(b, p, t)
  {
    var r := AcceptedRow(b, p, t);
    var row := b.players[p].rows[r];
    assert RowTiered(AllRows(b.players), b.players[p], row, b.teams[t]);
    assert TierGap(row) == Abs(Tiers(b).0[p] - Tiers(b).1[t]);
    assert Usable(b, row) && TeamOf(b, row) == t;
  }

  // ----- a rejected batch that could be placed -----

  /** Three empty teams that differ in their ids only. */
  function EmptyTeams(percentile: real): (r: seq<TeamTables.TeamFacts>)
    ensures |r| == 3 && TeamTables.DistinctTeams(r)
  {
    seq(3, i => TeamTables.TeamFacts(i + 1, 0, 0, 0, 0, 0, [], 0, percentile, 0, 15))
  }

  /**
   An incoming batch of fifteen players and three empty teams that each ask for fifteen: the repair gives all to
   the first team, whose cap is 14. With fourteen players at its tier, and one at the tier of the others, the
   screen rejects what the solver, which clamps the fill, can place.
   */
  lemma UnclampedFillRejects(percentile: real)
    ensures Targets.Repaired(EmptyTeams(percentile), [15, 15, 15], [15, 0, 0], 15)
    ensures IncomingTargets.IncomingTeamCap(15, 3) == 14
    ensures !ScreenPasses(FifteenTiers(), [0, 5, 5], [15, 0, 0], [14, 14, 14], 1)
    ensures Placeable(TierRelation(FifteenTiers(), [0, 5, 5], 1), Clamped([15, 0, 0], [14, 14, 14]), [14, 14, 14])
  {
    FirstTeamTakesAll(percentile);
    FifteenCap();
    ClampedFillsPlace();
    FirstTierOverfull();
  }

  lemma FifteenCap()
    ensures IncomingTargets.IncomingTeamCap(15, 3) == 14
  {
    assert 15.0 / 3.0 * IncomingTargets.MAX_AVERAGE_MULTIPLIER == 13.25;
  }

  lemma FirstTeamTakesAll(percentile: real)
    ensures Targets.Repaired(EmptyTeams(percentile), [15, 15, 15], [15, 0, 0], 15)
  {
    var facts, before := EmptyTeams(percentile), [15, 15, 15];
    var keys := Targets.NeedKeys(facts, before);
    ThreeSum(15, 15, 15);
    ThreeSum(15, 0, 0);
    assert TeamTables.Positive(before) == before;
    assert forall i, j :: 0 <= i < 3 && 0 <= j < 3 && Ordering.Before(keys, i, j) ==> keys[i].e <= keys[j].e;
    assert keys[0].e == 1.0 && keys[1].e == 2.0 && keys[2].e == 3.0;
  }

  lemma ThreeSum(a: int, b: int, c: int)
    ensures Sum([a, b, c]) == a + b + c
  {
    assert [a, b, c][..2] == [a, b] && [a, b][..1] == [a] && [a][..0] == [];
    assert Sum([a]) == a && Sum([a, b]) == a + b;
  }

  // ----- the fully relaxed attempt -----

  /** Everybody may go to every open team. */
  ghost function OpenEverywhere(n: nat, caps: seq<int>): (adj: seq<set<nat>>)
    ensures |adj| == n
  {
    seq(n, p => set t: nat | t in Range(|caps|) && caps[t] > 0)
  }

  lemma WeightOfOnes(n: nat)
    ensures Weight(Ones(n), Range(n)) == n
  {
    WeightAll(Ones(n), Range(n));
    SumConstant(n, 1);
    assert Ones(n) == seq(n, i => 1);
  }

  lemma RoomForAnyRows(n: nat, caps: seq<int>, rows: set<nat>)
    requires NonNegative(caps) && n <= Sum(caps)
    ensures Weight(Ones(n), rows) <= Weight(caps, Neighbours(OpenEverywhere(n, caps), rows))
  {
    var adj := OpenEverywhere(n, caps);
    if p :| p in rows && p < n {
      WeightMonotone(Ones(n), rows, Range(n));
      WeightOfOnes(n);
      WeightMonotone(caps, Range(|caps|), Neighbours(adj, rows));
      WeightAll(caps, Range(|caps|));
    } else {
      WeightNone(Ones(n), rows);
      WeightMonotone(caps, {}, Neighbours(adj, rows));
      WeightNone(caps, {});
    }
  }

  lemma PlayersForAnyTeams(n: nat, fills: seq<int>, caps: seq<int>, columns: set<nat>)
    requires |fills| == |caps| && NonNegative(fills) && Sum(fills) <= n
    requires forall t :: 0 <= t < |caps| && caps[t] <= 0 ==> fills[t] == 0
    ensures Weight(fills, columns) <= Weight(Ones(n), Neighbours(Converse(OpenEverywhere(n, caps), |caps|), columns))
  {
    var back := Converse(OpenEverywhere(n, caps), |caps|);
    if t :| t in columns && t < |caps| && caps[t] > 0 {
      WeightMonotone(fills, columns, Range(|fills|));
      WeightAll(fills, Range(|fills|));
      WeightMonotone(Ones(n), Range(n), Neighbours(back, columns));
      WeightOfOnes(n);
    } else {
      WeightNone(fills, columns);
      WeightMonotone(Ones(n), {}, Neighbours(back, columns));
      WeightNone(Ones(n), {});
    }
  }

  /** With any tier allowed, complete rows, enough capacity and affordable fills always suffice. */
  lemma RelaxedIsPlaceable(b: Problem) returns (a: seq<nat>)
    requires WellFormed(b) && b.gap == None && DistinctIds(b.teams)
    requires Complete(b.players, b.teams, b.caps)
    requires Sum(b.fills) <= |b.players| <= Sum(b.caps)
    ensures MeetsQuotas(b, a)
  {
    var n := |b.players|;
    var adj := OpenEverywhere(n, b.caps);
    forall rows: set<nat> ensures Weight(Ones(n), rows) <= Weight(b.caps, Neighbours(adj, rows)) {
      RoomForAnyRows(n, b.caps, rows);
    }
    var back := Converse(adj, |b.teams|);
    forall columns: set<nat> ensures Weight(b.fills, columns) <= Weight(Ones(n), Neighbours(back, columns)) {
      PlayersForAnyTeams(n, b.fills, b.caps, columns);
    }
    PlacementIffHall(adj, b.fills, b.caps);
    var teams :| Placed(teams, adj, b.fills, b.caps);
    forall p | 0 <= p < |teams| ensures Offers(b, p, teams[p]) {
      var r := AcceptedRow(b, p, teams[p]);
      assert Usable(b, b.players[p].rows[r]) && TeamOf(b, b.players[p].rows[r]) == teams[p];
    }
    a := PlacementPicksRows(b, teams);
  }

  // ----- contexts and the retry ladder -----

  /** What `_prepare_flexible_assignment_context` fixes for all attempts. */
  datatype Context = Context(teams: seq<Seat>, useIncoming: bool, incomingCap: int)

  /** Affordable fills, and capacity for everyone under whichever cap is in use. */
  ghost predicate Roomy(c: Context, players: nat) {
    && DistinctIds(c.teams)
    && Sum(ClampedFills(c.teams, Capacities(c.teams, c.useIncoming, c.incomingCap))) <= players
    && players <= Sum(Capacities(c.teams, c.useIncoming, c.incomingCap))
  }

  function ContextOf(facts: seq<TeamTables.TeamFacts>, fills: seq<int>, players: nat, incomingBatch: bool): Context
    requires |facts| == |fills|
  {
    var normal := Sum(TeamTables.Positive(TeamTables.CapacityColumn(facts)));
    Context(TeamTables.SeatsOf(facts, fills), incomingBatch || normal < players,
      IncomingTargets.IncomingTeamCap(players, |facts|))
  }

  lemma ContextIsRoomy(facts: seq<TeamTables.TeamFacts>, fills: seq<int>, players: nat, incomingBatch: bool)
    requires facts != [] && |facts| == |fills| && TeamTables.DistinctTeams(facts)
    requires Sum(TeamTables.Positive(fills)) <= players
    ensures Roomy(ContextOf(facts, fills, players, incomingBatch), players)
  {
    var c := ContextOf(facts, fills, players, incomingBatch);
    var caps := Capacities(c.teams, c.useIncoming, c.incomingCap);
    SumLe(ClampedFills(c.teams, caps), TeamTables.Positive(fills));
    if c.useIncoming {
      IncomingTargets.FullTableCovers(|facts|, c.incomingCap, players);
      assert caps == seq(|facts|, i => c.incomingCap);
    } else {
      assert caps == TeamTables.Positive(TeamTables.CapacityColumn(facts));
    }
  }

  /**
   An empty batch has no teams; otherwise the teams keep their facts and get the repaired fills. A roster batch
   whose open places suffice keeps every team's own capacity; every other batch uses the same cap for all teams,
   2.65 times the average, rounded up. With any team there is room for everyone.
   */
  method PrepareContext(t: TeamTables.TeamTable, players: nat, incomingBatch: bool) returns (c: Context)
    requires t.Valid()
    modifies t`minFill
    ensures t.Valid()
    ensures players == 0 ==> c.teams == [] && t.minFill == old(t.minFill)
    ensures players > 0 ==> Targets.Repaired(t.facts, old(t.minFill), t.minFill, players)
    ensures players > 0 ==> |c.teams| == |t.facts|
    ensures players > 0 ==> forall i :: 0 <= i < |t.facts| ==>
      c.teams[i].id == t.facts[i].id && c.teams[i].capacity == t.facts[i].capacity && c.teams[i].minFill == t.minFill[i]
    ensures players > 0 ==>
      (c.useIncoming <==> incomingBatch || Sum(TeamTables.Positive(TeamTables.CapacityColumn(t.facts))) < players)
    ensures players > 0 && t.facts != [] ==>
      var average := (players as real) / (|t.facts| as real);
      2.65 * average <= c.incomingCap as real < 2.65 * average + 1.0
    ensures c.teams != [] ==> Roomy(c, players)
  {
    if players == 0 {
      return Context([], false, 0);
    }
    ghost var before := t.minFill;
    Targets.MakeMinFillsFeasible(t, players);
    Targets.RepairSettles(t.facts, before, t.minFill, t.minFill, players);
    var normal := Sum(TeamTables.Positive(TeamTables.CapacityColumn(t.facts)));
    var useIncoming := incomingBatch || normal < players;
    c := Context(TeamTables.SeatsOf(t.facts, t.minFill), useIncoming,
      IncomingTargets.IncomingTeamCap(players, |t.facts|));
    if |t.facts| > 0 {
      ContextIsRoomy(t.facts, t.minFill, players, incomingBatch);
      IncomingTargets.CapIsRounded(players, |t.facts|);
    }
  }

  /** The context has teams, and every player has an acceptable row for each one with capacity. */
  ghost predicate CompleteFor(players: seq<Player>, c: Context) {
    c.teams != [] && Complete(players, c.teams, Capacities(c.teams, c.useIncoming, c.incomingCap))
  }

  /** The relaxed attempt on a prepared context has a solution whenever the rows are complete. */
  lemma RelaxedAttemptFeasible(players: seq<Player>, c: Context) returns (a: seq<nat>)
    requires Roomy(c, |players|) && CompleteFor(players, c)
    ensures Respects(players, c.teams, None, c.useIncoming, c.incomingCap, a)
  {
    a := RelaxedIsPlaceable(MakeProblem(players, c.teams, None, c.useIncoming, c.incomingCap));
    QuotasMean(players, c.teams, None, c.useIncoming, c.incomingCap, a);
  }

  const GAPS: seq<Option<int>> := [Some(1), Some(2), None]
  const LABELS: seq<string> := ["ok", "ok_relaxed_tier2", "ok_relaxed"]

  /** An attempt: its screen rejects the batch, or no assignment respects the teams within the gap. */
  ghost predicate Fails(players: seq<Player>, c: Context, gap: Option<int>) {
    || (!Undecided(players, c.teams, gap)
        && !Passes(players, c.teams, gap.value, Capacities(c.teams, c.useIncoming, c.incomingCap)))
    || forall a :: !Respects(players, c.teams, gap, c.useIncoming, c.incomingCap, a)
  }

  ghost predicate FailsBelow(players: seq<Player>, contexts: seq<Context>, gap: Option<int>, k: nat)
    requires k <= |contexts|
  {
    forall i :: 0 <= i < k ==> Fails(players, contexts[i], gap)
  }

  ghost predicate AllFail(players: seq<Player>, contexts: seq<Context>, gap: Option<int>) {
    FailsBelow(players, contexts, gap, |contexts|)
  }

  /** What one attempt may return: every entry from a row within the gap, and every team within its bounds. */
  ghost predicate Returns(players: seq<Player>, c: Context, gap: Option<int>, status: string,
        result: map<int, Assigned>, best: bool)
  {
    && Answers(players, c.teams, gap, c.useIncoming, c.incomingCap, status, result, best)
    && RowsBehind(players, c.teams, gap, c.useIncoming, c.incomingCap, status, result)
    && (DistinctPlayers(players) ==> Fills(players, c.teams, c.useIncoming, c.incomingCap, result))
  }

  /** The result of the first context whose attempt at this gap does not fail. */
  ghost predicate FirstAt(players: seq<Player>, contexts: seq<Context>, gap: Option<int>, status: string,
        result: map<int, Assigned>, best: bool)
  {
    exists k :: 0 <= k < |contexts| && FailsBelow(players, contexts, gap, k)
      && Returns(players, contexts[k], gap, status, result, best)
  }

  /** The result of the first attempt that does not fail: gap 1, then gap 2, then any gap, each under its own label. */
  ghost predicate FromFirst(players: seq<Player>, contexts: seq<Context>, result: map<int, Assigned>, best: bool) {
    || FirstAt(players, contexts, Some(1), "ok", result, best)
    || (AllFail(players, contexts, Some(1)) && FirstAt(players, contexts, Some(2), "ok_relaxed_tier2", result, best))
    || (AllFail(players, contexts, Some(1)) && AllFail(players, contexts, Some(2))
        && FirstAt(players, contexts, None, "ok_relaxed", result, best))
  }

  /** The relaxed attempt of a context with complete rows does not fail. */
  lemma RelaxedNeverFails(players: seq<Player>, contexts: seq<Context>, k: nat)
    requires k < |contexts| && Roomy(contexts[k], |players|) && CompleteFor(players, contexts[k])
    ensures !AllFail(players, contexts, None)
  {
    var a := RelaxedAttemptFeasible(players, contexts[k]);
    assert !Fails(players, contexts[k], None);
  }

  /** All attempts at the first g gaps fail. */
  ghost predicate FailUpTo(players: seq<Player>, contexts: seq<Context>, g: nat) {
    g <= 3 && forall h :: 0 <= h < g ==> AllFail(players, contexts, GAPS[h])
  }

  lemma FailsOn(players: seq<Player>, contexts: seq<Context>, g: nat)
    requires g < 3 && FailUpTo(players, contexts, g) && FailsBelow(players, contexts, GAPS[g], |contexts|)
    ensures FailUpTo(players, contexts, g + 1)
  {
  }

  lemma FromAttempt(players: seq<Player>, contexts: seq<Context>, g: nat, k: nat, result: map<int, Assigned>,
        best: bool)
    requires g < 3 && k < |contexts| && FailsBelow(players, contexts, GAPS[g], k)
    requires FailUpTo(players, contexts, g)
    requires Returns(players, contexts[k], GAPS[g], LABELS[g], result, best)
    ensures FromFirst(players, contexts, result, best)
  {
    assert FirstAt(players, contexts, GAPS[g], LABELS[g], result, best);
    assert g > 0 ==> AllFail(players, contexts, GAPS[0]);
    assert g > 1 ==> AllFail(players, contexts, GAPS[1]);
  }

  lemma FailsNext(players: seq<Player>, contexts: seq<Context>, gap: Option<int>, k: nat)
    requires k < |contexts| && FailsBelow(players, contexts, gap, k) && Fails(players, contexts[k], gap)
    ensures FailsBelow(players, contexts, gap, k + 1)
  {
  }

  lemma NoAttempt(players: seq<Player>, contexts: seq<Context>)
    requires FailUpTo(players, contexts, 3)
    ensures AllFail(players, contexts, Some(1)) && AllFail(players, contexts, Some(2))
    ensures AllFail(players, contexts, None)
  {
    assert AllFail(players, contexts, GAPS[0]) && AllFail(players, contexts, GAPS[1]);
    assert AllFail(players, contexts, GAPS[2]);
  }

  method SolveAttempt(players: seq<Player>, c: Context, g: nat, solve: Net -> Answer)
    returns (result: Option<map<int, Assigned>>)
    requires players != [] && HonestSolver(solve) && DistinctIds(c.teams) && g < 3
    ensures result.Some? ==> Returns(players, c, GAPS[g], LABELS[g], result.value, AlwaysOptimal(solve))
    ensures result.None? ==> Fails(players, c, GAPS[g])
  {
    result := SolveFlexible(players, c.teams, GAPS[g], c.useIncoming, c.incomingCap, LABELS[g], solve);
  }

  /** The flexible part of the ladder: tighter gaps first, and within a gap each context in turn. */
  method FlexibleLadder(players: seq<Player>, contexts: seq<Context>, solve: Net -> Answer)
    returns (result: Option<map<int, Assigned>>)
    requires players != [] && HonestSolver(solve)
    requires forall k :: 0 <= k < |contexts| ==> DistinctIds(contexts[k].teams)
    requires forall k :: 0 <= k < |contexts| ==> contexts[k].teams == [] || Roomy(contexts[k], |players|)
    ensures result.Some? ==> FromFirst(players, contexts, result.value, AlwaysOptimal(solve))
    ensures result.None? ==>
      AllFail(players, contexts, Some(1)) && AllFail(players, contexts, Some(2)) && AllFail(players, contexts, None)
    ensures (exists k :: 0 <= k < |contexts| && CompleteFor(players, contexts[k])) ==> result.Some?
  {
    for g := 0 to 3
      invariant FailUpTo(players, contexts, g)
    {
      for k := 0 to |contexts|
        invariant FailsBelow(players, contexts, GAPS[g], k)
      {
        result := SolveAttempt(players, contexts[k], g, solve);
        if result.Some? {
          FromAttempt(players, contexts, g, k, result.value, AlwaysOptimal(solve));
          return;
        }
        FailsNext(players, contexts, GAPS[g], k);
      }
      FailsOn(players, contexts, g);
    }
    NoAttempt(players, contexts);
    result := None;
    if k :| 0 <= k < |contexts| && CompleteFor(players, contexts[k]) {
      RelaxedNeverFails(players, contexts, k);
    }
  }
}
