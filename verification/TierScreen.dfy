/** What the tier screen decides, as conditions on sets of tiers and on sets of players and teams. */
module TierScreen {
  import opened Sums
  import opened AmateurData
  import opened Transport
  import opened Placement

  // ----- tiers -----

  function PlayerTier(player: Player): int
    requires player.rows != []
  {
    ToInt(player.rows[0].playerTier, -1)
  }

  /** The tier of the first acceptable row naming the team; -1 when there is none. */
  function TeamTier(rows: seq<Row>, id: int): int {
    if rows == [] then -1
    else
      var front := rows[..|rows| - 1];
      var row := rows[|rows| - 1];
      if Named(front, id) || row.teamId != id || row.rejected then TeamTier(front, id)
      else ToInt(row.teamTier, -1)
  }

  predicate Named(rows: seq<Row>, id: int) {
    exists i :: 0 <= i < |rows| && rows[i].teamId == id && !rows[i].rejected
  }

  function WithRows(players: seq<Player>): (r: seq<Player>)
    ensures forall i :: 0 <= i < |r| ==> r[i].rows != [] && r[i] in players
  {
    if players == [] then []
    else
      var last := players[|players| - 1];
      WithRows(players[..|players| - 1]) + (if last.rows == [] then [] else [last])
  }

  lemma {:induction false} AllHaveRows(players: seq<Player>)
    requires forall p :: 0 <= p < |players| ==> players[p].rows != []
    ensures WithRows(players) == players
  {
    if players != [] {
      var front, last := players[..|players| - 1], players[|players| - 1];
      AllHaveRows(front);
      assert players == front + [last];
    }
  }

  function PlayerTiers(players: seq<Player>): (r: seq<int>)
    requires forall i :: 0 <= i < |players| ==> players[i].rows != []
    ensures |r| == |players|
    ensures forall i :: 0 <= i < |r| ==> r[i] == PlayerTier(players[i])
  {
    seq(|players|, i requires 0 <= i < |players| => PlayerTier(players[i]))
  }

  function TeamTiers(rows: seq<Row>, teams: seq<Seat>): (r: seq<int>)
    ensures |r| == |teams|
    ensures forall i :: 0 <= i < |r| ==> r[i] == TeamTier(rows, teams[i].id)
  {
    seq(|teams|, i requires 0 <= i < |teams| => TeamTier(rows, teams[i].id))
  }

  function Capacities(teams: seq<Seat>, useIncoming: bool, incomingCap: int): (r: seq<int>)
    ensures |r| == |teams|
    ensures forall i :: 0 <= i < |r| ==> r[i] == Max(0, if useIncoming then incomingCap else teams[i].capacity)
  {
    seq(|teams|, i requires 0 <= i < |teams| => Max(0, Capacity(teams[i], useIncoming, incomingCap)))
  }

  /** The minimum fills the screen counts: unclamped, but only for teams with capacity. */
  function ScreenedFills(teams: seq<Seat>, caps: seq<int>): (r: seq<int>)
    requires |caps| == |teams|
    ensures |r| == |teams|
    ensures forall i :: 0 <= i < |r| ==> r[i] == if caps[i] > 0 then Max(0, teams[i].minFill) else 0
  {
    seq(|teams|, i requires 0 <= i < |teams| => if caps[i] > 0 then Max(0, teams[i].minFill) else 0)
  }

  // ----- the meaning of the screen, over sets of tiers -----

  predicate Near(tier: int, chosen: set<int>, gap: int) {
    exists t :: t in chosen && Abs(t - tier) <= gap
  }

  ghost function AtTiers(tiers: seq<int>, chosen: set<int>): (r: set<nat>)
    ensures forall i: nat :: i in r <==> i < |tiers| && tiers[i] in chosen
  {
    set i: nat | i in Range(|tiers|) && tiers[i] in chosen
  }

  ghost function NearTiers(tiers: seq<int>, chosen: set<int>, gap: int): (r: set<nat>)
    ensures forall i: nat :: i in r <==> i < |tiers| && Near(tiers[i], chosen, gap)
  {
    set i: nat | i in Range(|tiers|) && Near(tiers[i], chosen, gap)
  }

  /** The weight at the chosen tiers fits into the weight within reach on the other side. */
  ghost predicate Fits(w: seq<int>, tiers: seq<int>, v: seq<int>, others: seq<int>, gap: int, chosen: set<int>) {
    Weight(w, AtTiers(tiers, chosen)) <= Weight(v, NearTiers(others, chosen, gap))
  }

  ghost predicate ScreenPasses(pt: seq<int>, tt: seq<int>, fills: seq<int>, caps: seq<int>, gap: int) {
    && (forall chosen: set<int> :: Fits(Ones(|pt|), pt, caps, tt, gap, chosen))
    && (forall chosen: set<int> :: Fits(fills, tt, Ones(|pt|), pt, gap, chosen))
  }

  ghost function TierRelation(pt: seq<int>, tt: seq<int>, gap: int): (r: seq<set<nat>>)
    ensures |r| == |pt| && IsRelation(r, |tt|)
    ensures forall p, t: nat :: 0 <= p < |pt| ==> (t in r[p] <==> t < |tt| && Abs(pt[p] - tt[t]) <= gap)
  {
    seq(|pt|, p requires 0 <= p < |pt| => NearTiers(tt, {pt[p]}, gap))
  }

  ghost function TiersOf(tiers: seq<int>, rows: set<nat>): (r: set<int>)
    ensures forall k :: k in r <==> exists i :: i in rows && i < |tiers| && tiers[i] == k
  {
    set i | i in rows && i < |tiers| :: tiers[i]
  }

  /** Tests over sets of tiers decide the tests over sets of individuals. */
  lemma TiersDecide(w: seq<int>, tiers: seq<int>, v: seq<int>, others: seq<int>, gap: int, adj: seq<set<nat>>)
    requires |w| == |tiers| == |adj| && |v| == |others|
    requires NonNegative(w) && NonNegative(v)
    requires forall p, t: nat :: 0 <= p < |adj| ==> (t in adj[p] <==> t < |others| && Abs(tiers[p] - others[t]) <= gap)
    ensures (forall chosen: set<int> :: Fits(w, tiers, v, others, gap, chosen)) <==> Hall(adj, w, v)
  {
    if forall chosen: set<int> :: Fits(w, tiers, v, others, gap, chosen) {
      forall rows: set<nat> ensures Weight(w, rows) <= Weight(v, Neighbours(adj, rows)) {
        var chosen := TiersOf(tiers, rows);
        assert Fits(w, tiers, v, others, gap, chosen);
        WeightMonotone(w, rows, AtTiers(tiers, chosen));
        WeightMonotone(v, NearTiers(others, chosen, gap), Neighbours(adj, rows));
      }
    }
    if Hall(adj, w, v) {
      forall chosen: set<int> ensures Fits(w, tiers, v, others, gap, chosen) {
        var rows := AtTiers(tiers, chosen);
        assert Weight(w, rows) <= Weight(v, Neighbours(adj, rows));
        WeightMonotone(v, Neighbours(adj, rows), NearTiers(others, chosen, gap));
      }
    }
  }

  /** For all inputs: the screen is the conjunction of the two one-sided tests on individuals. */
  lemma ScreenIsTwoSided(pt: seq<int>, tt: seq<int>, fills: seq<int>, caps: seq<int>, gap: int)
    requires |fills| == |caps| == |tt| && NonNegative(fills) && NonNegative(caps)
    ensures var adj := TierRelation(pt, tt, gap);
      ScreenPasses(pt, tt, fills, caps, gap)
      <==> Hall(adj, Ones(|pt|), caps) && Hall(Converse(adj, |tt|), fills, Ones(|pt|))
  {
    var adj := TierRelation(pt, tt, gap);
    TiersDecide(Ones(|pt|), pt, caps, tt, gap, adj);
    TiersDecide(fills, tt, Ones(|pt|), pt, gap, Converse(adj, |tt|));
  }

  /** The fills the solver uses: clamped to the team's capacity. */
  function Clamped(fills: seq<int>, caps: seq<int>): (r: seq<int>)
    requires |fills| == |caps|
    ensures |r| == |fills|
    ensures forall i :: 0 <= i < |r| ==> r[i] == Min(fills[i], caps[i])
  {
    seq(|fills|, i requires 0 <= i < |fills| => Min(fills[i], caps[i]))
  }

  ghost predicate Placeable(adj: seq<set<nat>>, m: seq<int>, c: seq<int>)
    requires |m| == |c|
  {
    exists a :: Placed(a, adj, m, c)
  }

  /** With no fill above its capacity, the screen passes exactly when a placement exists. */
  lemma ScreenExact(pt: seq<int>, tt: seq<int>, fills: seq<int>, caps: seq<int>, gap: int)
    requires |fills| == |caps| == |tt| && NonNegative(fills) && NonNegative(caps)
    requires forall t :: 0 <= t < |tt| ==> fills[t] <= caps[t]
    ensures ScreenPasses(pt, tt, fills, caps, gap) <==> Placeable(TierRelation(pt, tt, gap), fills, caps)
  {
    ScreenIsTwoSided(pt, tt, fills, caps, gap);
    PlacementIffHall(TierRelation(pt, tt, gap), fills, caps);
  }

  /** For all inputs, a passed screen leaves the solver's clamped problem feasible. */
  lemma ScreenSound(pt: seq<int>, tt: seq<int>, fills: seq<int>, caps: seq<int>, gap: int)
    requires |fills| == |caps| == |tt| && NonNegative(fills) && NonNegative(caps)
    requires ScreenPasses(pt, tt, fills, caps, gap)
    ensures Placeable(TierRelation(pt, tt, gap), Clamped(fills, caps), caps)
  {
    var adj := TierRelation(pt, tt, gap);
    var m := Clamped(fills, caps);
    ScreenIsTwoSided(pt, tt, fills, caps, gap);
    forall columns: set<nat>
      ensures Weight(m, columns) <= Weight(Ones(|pt|), Neighbours(Converse(adj, |tt|), columns))
    {
      WeightLe(m, fills, columns);
    }
    PlacementIffHall(adj, m, caps);
  }

  /** A rejection is final: no placement within the unclamped fills uses only rows inside the gap. */
  lemma RejectionIsFinal(
    pt: seq<int>, tt: seq<int>, fills: seq<int>, caps: seq<int>, gap: int, adj: seq<set<nat>>, a: seq<nat>)
    requires |fills| == |caps| == |tt| && |adj| == |pt| && NonNegative(fills) && NonNegative(caps)
    requires forall p :: 0 <= p < |adj| ==> adj[p] <= TierRelation(pt, tt, gap)[p]
    requires Placed(a, adj, fills, caps)
    ensures ScreenPasses(pt, tt, fills, caps, gap)
  {
    var wide := TierRelation(pt, tt, gap);
    forall p | 0 <= p < |a| ensures a[p] in wide[p] {
      assert a[p] in adj[p];
    }
    assert Placed(a, wide, fills, caps);
    ScreenExact(pt, tt, fills, caps, gap);
  }

  /**
   For all inputs: the screen agrees with the clamped problem except that it also asks the unclamped fills of
   every set of tiers to be within reach of enough players, which is what its second loop tests.
   */
  lemma ScreenAgainstClamped(pt: seq<int>, tt: seq<int>, fills: seq<int>, caps: seq<int>, gap: int)
    requires |fills| == |caps| == |tt| && NonNegative(fills) && NonNegative(caps)
    ensures var adj := TierRelation(pt, tt, gap);
      ScreenPasses(pt, tt, fills, caps, gap)
      <==> Placeable(adj, Clamped(fills, caps), caps) && Hall(Converse(adj, |tt|), fills, Ones(|pt|))
  {
    ScreenIsTwoSided(pt, tt, fills, caps, gap);
    PlacementIffHall(TierRelation(pt, tt, gap), Clamped(fills, caps), caps);
    if ScreenPasses(pt, tt, fills, caps, gap) {
      ScreenSound(pt, tt, fills, caps, gap);
    }
  }

  // ----- a fill above the capacity -----

  /** Fourteen players at tier 0 and one at tier 5. */
  function FifteenTiers(): (r: seq<int>)
    ensures |r| == 15 && r[14] == 5 && forall p :: 0 <= p < 14 ==> r[p] == 0
  {
    seq(14, p => 0) + [5]
  }

  lemma {:induction false} CountRepeated(n: nat, x: nat, t: nat)
    ensures Count(seq(n, p => x), t) == if t == x then n else 0
  {
    if n > 0 {
      CountRepeated(n - 1, x, t);
      assert seq(n, p => x)[..n - 1] == seq(n - 1, p => x);
    }
  }

  /** Three teams with 14 seats each have room for fifteen players, fourteen of them at the tier of the first. */
  lemma ClampedFillsPlace()
    ensures Placeable(TierRelation(FifteenTiers(), [0, 5, 5], 1), Clamped([15, 0, 0], [14, 14, 14]), [14, 14, 14])
  {
    var front: seq<nat> := seq(14, p => 0);
    var a := front + [1];
    assert a[..14] == front;
    forall t: nat ensures Count(a, t) == if t == 0 then 14 else if t == 1 then 1 else 0 {
      CountRepeated(14, 0, t);
    }
    assert Placed(a, TierRelation(FifteenTiers(), [0, 5, 5], 1), Clamped([15, 0, 0], [14, 14, 14]), [14, 14, 14]);
  }

  /** A first team that claims all fifteen is rejected, since only fourteen are at its tier. */
  lemma FirstTierOverfull()
    ensures !ScreenPasses(FifteenTiers(), [0, 5, 5], [15, 0, 0], [14, 14, 14], 1)
  {
    var pt, tt, fills := FifteenTiers(), [0, 5, 5], [15, 0, 0];
    WeightUpdate(fills, AtTiers(tt, {0}), 0, 0);
    WeightNone(fills[0 := 0], AtTiers(tt, {0}));
    var near, others := NearTiers(pt, {0}, 1), Ones(15)[14 := 0];
    WeightUpdate(Ones(15), near, 14, 0);
    WeightMonotone(others, near, Range(15));
    WeightAll(others, Range(15));
    SumUpdate(Ones(15), 14, 0);
    SumConstant(15, 1);
    assert Ones(15) == seq(15, i => 1);
    assert !Fits(fills, tt, Ones(15), pt, 1, {0});
  }
}
