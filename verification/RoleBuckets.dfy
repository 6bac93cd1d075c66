/** The position-bucket table: every target split into bucket capacities, with the batch's counts as totals. */
module RoleBuckets {
  import opened Sums
  import opened Ordering
  import opened TeamTables

  /** Pitchers, the eight fielding buckets in order, and last the players without a bucket. */
  const BUCKETS: nat := 10
  const PITCHER: nat := 0

  datatype Group = Pitchers | Hitters

  predicate InGroup(role: nat, group: Group) {
    role < BUCKETS && (role == PITCHER <==> group == Pitchers)
  }

  // ----- the margins of the table -----

  /**
   The running balance: what a team already holds and its open slots make up its target, and what a
   bucket has handed out and still has left makes up its count.
   */
  ghost predicate Margins(target: seq<int>, counts: seq<int>, caps: seq<seq<int>>, slots: seq<int>, left: seq<int>) {
    && |caps| == |target| == |slots| && |counts| == |left| == BUCKETS && IsMatrix(caps, BUCKETS)
    && (forall t, r :: 0 <= t < |caps| && 0 <= r < BUCKETS ==> 0 <= caps[t][r])
    && (forall t :: 0 <= t < |caps| ==> 0 <= slots[t] && Sum(caps[t]) + slots[t] == target[t])
    && (forall r :: 0 <= r < BUCKETS ==> 0 <= left[r] && ColumnSums(caps, BUCKETS)[r] + left[r] == counts[r])
  }

  /** The finished table: exact targets, exact bucket counts. */
  ghost predicate ExactMargins(target: seq<int>, counts: seq<int>, caps: seq<seq<int>>) {
    && |caps| == |target| && |counts| == BUCKETS && IsMatrix(caps, BUCKETS)
    && (forall t, r :: 0 <= t < |caps| && 0 <= r < BUCKETS ==> 0 <= caps[t][r])
    && (forall t :: 0 <= t < |caps| ==> Sum(caps[t]) == target[t])
    && ColumnSums(caps, BUCKETS) == counts
  }

  /** One more seat of bucket r at team t. */
  function Seat(caps: seq<seq<int>>, t: nat, r: nat): seq<seq<int>>
    requires t < |caps| && r < |caps[t]|
  {
    caps[t := caps[t][r := caps[t][r] + 1]]
  }

  function Less(s: seq<int>, i: nat): seq<int>
    requires i < |s|
  {
    s[i := s[i] - 1]
  }

  lemma MarginsStep(target: seq<int>, counts: seq<int>, caps: seq<seq<int>>, slots: seq<int>, left: seq<int>, t: nat,
        r: nat)
    requires Margins(target, counts, caps, slots, left)
    requires t < |slots| && r < BUCKETS && slots[t] > 0 && left[r] > 0
    ensures Margins(target, counts, Seat(caps, t, r), Less(slots, t), Less(left, r))
  {
    SumUpdate(caps[t], r, caps[t][r] + 1);
    ColumnUpdate(caps, BUCKETS, t, r, caps[t][r] + 1);
    var caps' := Seat(caps, t, r);
    forall u, q | 0 <= u < |caps'| && 0 <= q < BUCKETS ensures 0 <= caps'[u][q] {
      assert u != t ==> caps'[u] == caps[u];
    }
  }

  /** Open slots and players left always agree in total. */
  lemma MarginsAgree(target: seq<int>, counts: seq<int>, caps: seq<seq<int>>, slots: seq<int>, left: seq<int>)
    requires Margins(target, counts, caps, slots, left) && Sum(target) == Sum(counts)
    ensures Sum(slots) == Sum(left)
  {
    DoubleCount(caps, BUCKETS);
    var rows, columns := RowSums(caps), ColumnSums(caps, BUCKETS);
    SumsSplit(rows, slots, target);
    SumsSplit(columns, left, counts);
  }

  lemma SlotForLeftPlayer(target: seq<int>, counts: seq<int>, caps: seq<seq<int>>, slots: seq<int>, left: seq<int>,
        r: nat)
    requires Margins(target, counts, caps, slots, left) && Sum(target) == Sum(counts)
    requires r < BUCKETS && left[r] > 0
    ensures exists t :: 0 <= t < |slots| && slots[t] > 0
  {
    MarginsAgree(target, counts, caps, slots, left);
    SumAtLeastEntry(left, r);
    if forall t :: 0 <= t < |slots| ==> slots[t] == 0 {
      SumZero(slots);
    }
  }

  lemma NothingLeft(target: seq<int>, counts: seq<int>, caps: seq<seq<int>>, slots: seq<int>, left: seq<int>)
    requires Margins(target, counts, caps, slots, left) && Sum(target) == Sum(counts)
    requires forall r :: 0 <= r < BUCKETS ==> left[r] == 0
    ensures ExactMargins(target, counts, caps) && forall t :: 0 <= t < |slots| ==> slots[t] == 0
  {
    MarginsAgree(target, counts, caps, slots, left);
    SumZero(left);
    forall t | 0 <= t < |slots| ensures slots[t] == 0 {
      SumAtLeastEntry(slots, t);
    }
    assert ColumnSums(caps, BUCKETS) == counts;
  }

  // ----- needs -----

  /** How far a team is below its share of a bucket, if it is given `held` capacity there. */
  function RoleNeed(team: TeamFacts, target: int, r: nat, share: real, held: int): real
    requires r < |team.roleCounts|
  {
    var finalTotal := team.playerCount + target;
    if finalTotal <= 0 then 0.0 else share - ((team.roleCounts[r] + held) as real) / (finalTotal as real)
  }

  lemma NeedFalls(team: TeamFacts, target: int, r: nat, share: real, a: int, b: int)
    requires r < |team.roleCounts| && a <= b
    ensures RoleNeed(team, target, r, share, b) <= RoleNeed(team, target, r, share, a)
  {
    var finalTotal := team.playerCount + target;
    if finalTotal > 0 {
      QuotientGrows((team.roleCounts[r] + a) as real, (team.roleCounts[r] + b) as real, finalTotal as real);
    }
  }

  lemma QuotientGrows(a: real, b: real, d: real)
    requires a <= b && d > 0.0
    ensures a / d <= b / d
  {
  }

  function HitterCapacity(row: seq<int>): int
    requires |row| == BUCKETS
  {
    Sum(row) - row[PITCHER]
  }

  /** How many seats of the group the team still lacks to reach its floor. */
  function FloorDeficit(team: TeamFacts, row: seq<int>, group: Group): (d: int)
    requires |row| == BUCKETS == |team.roleCounts|
    ensures d >= 0
  {
    if group == Pitchers then Max(0, team.minPitchers - team.roleCounts[PITCHER] - row[PITCHER])
    else Max(0, team.minHitters - team.hitterCount - HitterCapacity(row))
  }

  /** A seat in the group lowers a positive deficit by one. */
  lemma DeficitFalls(team: TeamFacts, row: seq<int>, group: Group, r: nat)
    requires |row| == BUCKETS == |team.roleCounts| && InGroup(r, group)
    ensures FloorDeficit(team, row[r := row[r] + 1], group) == Max(0, FloorDeficit(team, row, group) - 1)
         || FloorDeficit(team, row, group) == 0
    ensures FloorDeficit(team, row, group) == 0 ==> FloorDeficit(team, row[r := row[r] + 1], group) == 0
  {
    SumUpdate(row, r, row[r] + 1);
  }

  ghost predicate Tabular(facts: seq<TeamFacts>, caps: seq<seq<int>>) {
    && |caps| == |facts| && IsMatrix(caps, BUCKETS)
    && forall t :: 0 <= t < |facts| ==> |facts[t].roleCounts| == BUCKETS
  }

  function Deficit(facts: seq<TeamFacts>, caps: seq<seq<int>>, t: nat, group: Group): (d: int)
    requires Tabular(facts, caps) && t < |facts|
    ensures d >= 0
  {
    FloorDeficit(facts[t], caps[t], group)
  }

  /** A team below its floor with an open slot. */
  predicate Wanting(facts: seq<TeamFacts>, caps: seq<seq<int>>, slots: seq<int>, t: nat, group: Group)
    requires Tabular(facts, caps) && t < |facts| == |slots|
  {
    slots[t] > 0 && Deficit(facts, caps, t, group) > 0
  }

  ghost predicate IsWorst(facts: seq<TeamFacts>, caps: seq<seq<int>>, slots: seq<int>, group: Group, worst: nat)
    requires Tabular(facts, caps) && |facts| == |slots|
  {
    && worst < |facts| && Wanting(facts, caps, slots, worst, group)
    && forall t :: 0 <= t < |facts| && Wanting(facts, caps, slots, t, group) ==>
         Deficit(facts, caps, t, group) <= Deficit(facts, caps, worst, group)
  }

  /** On a tie: fewer players, then the better percentile, the better reputation and the greater id. */
  ghost predicate FloorTie(best: TeamFacts, other: TeamFacts) {
    || best.playerCount < other.playerCount
    || (best.playerCount == other.playerCount
        && (|| best.percentile > other.percentile
            || (best.percentile == other.percentile
                && (best.reputation > other.reputation
                    || (best.reputation == other.reputation && best.id >= other.id)))))
  }

  function FloorKeys(facts: seq<TeamFacts>, caps: seq<seq<int>>, group: Group): (r: seq<Key>)
    requires Tabular(facts, caps)
    ensures |r| == |facts| && forall t :: 0 <= t < |r| ==> r[t].a == Deficit(facts, caps, t, group) as real
  {
    seq(|facts|, t requires 0 <= t < |facts| =>
      Key(Deficit(facts, caps, t, group) as real, -(facts[t].playerCount as real), facts[t].percentile,
          facts[t].reputation as real, facts[t].id as real))
  }

  /** Levelling: a team that was served is at most one seat better off than the worst team still waiting. */
  ghost predicate Fair(facts: seq<TeamFacts>, caps: seq<seq<int>>, before: seq<int>, slots: seq<int>, group: Group)
    requires Tabular(facts, caps) && |facts| == |slots| == |before|
  {
    forall s, u ::
      0 <= s < |facts| && 0 <= u < |facts| && slots[s] < before[s] && Wanting(facts, caps, slots, u, group) ==>
        Deficit(facts, caps, u, group) <= Deficit(facts, caps, s, group) + 1
  }

  lemma FairStep(facts: seq<TeamFacts>, caps: seq<seq<int>>, before: seq<int>, slots: seq<int>, group: Group,
        worst: nat, r: nat)
    requires Tabular(facts, caps) && |facts| == |slots| == |before|
    requires Fair(facts, caps, before, slots, group) && IsWorst(facts, caps, slots, group, worst) && InGroup(r, group)
    requires forall t :: 0 <= t < |slots| ==> slots[t] <= before[t]
    ensures Tabular(facts, Seat(caps, worst, r))
    ensures Fair(facts, Seat(caps, worst, r), before, Less(slots, worst), group)
  {
    var caps', slots' := Seat(caps, worst, r), Less(slots, worst);
    DeficitFalls(facts[worst], caps[worst], group, r);
    forall t | 0 <= t < |facts| && t != worst
      ensures |caps'[t]| == BUCKETS && caps'[t] == caps[t] && slots'[t] == slots[t]
    {
    }
    assert |caps'[worst]| == BUCKETS;
    forall s, u |
      0 <= s < |facts| && 0 <= u < |facts| && slots'[s] < before[s] && Wanting(facts, caps', slots', u, group)
      ensures Deficit(facts, caps', u, group) <= Deficit(facts, caps', s, group) + 1
    {
      assert Wanting(facts, caps, slots, u, group);
    }
  }

  /** Seats of the other group are not touched. */
  ghost predicate OnlyGroup(a: seq<seq<int>>, b: seq<seq<int>>, l: seq<int>, m: seq<int>, group: Group) {
    && |a| == |b| && IsMatrix(a, BUCKETS) && IsMatrix(b, BUCKETS) && |l| == |m| == BUCKETS
    && (forall t, r :: 0 <= t < |a| && 0 <= r < BUCKETS && !InGroup(r, group) ==> a[t][r] == b[t][r])
    && (forall r :: 0 <= r < BUCKETS && !InGroup(r, group) ==> l[r] == m[r])
  }

  lemma OnlyGroupStep(a: seq<seq<int>>, b: seq<seq<int>>, l: seq<int>, m: seq<int>, group: Group, t: nat, r: nat)
    requires OnlyGroup(a, b, l, m, group) && t < |b| && r < BUCKETS && InGroup(r, group)
    ensures OnlyGroup(a, Seat(b, t, r), l, Less(m, r), group)
  {
    var c := Seat(b, t, r);
    forall u | 0 <= u < |c| ensures |c[u]| == BUCKETS {
    }
    forall u, q | 0 <= u < |a| && 0 <= q < BUCKETS && !InGroup(q, group) ensures a[u][q] == c[u][q] {
      assert a[u][q] == b[u][q];
    }
  }

  /** What seeding keeps: the margins, the other group, and the levelling. */
  ghost predicate SeededTo(
    facts: seq<TeamFacts>, target: seq<int>, counts: seq<int>,
    caps0: seq<seq<int>>, slots0: seq<int>, left0: seq<int>,
    caps: seq<seq<int>>, slots: seq<int>, left: seq<int>, group: Group)
  {
    && Margins(target, counts, caps, slots, left) && Tabular(facts, caps) && |facts| == |target|
    && OnlyGroup(caps0, caps, left0, left, group)
    && |slots0| == |slots| && (forall t :: 0 <= t < |slots| ==> slots[t] <= slots0[t])
    && Fair(facts, caps, slots0, slots, group)
  }

  lemma SeedStep(
    facts: seq<TeamFacts>, target: seq<int>, counts: seq<int>,
    caps0: seq<seq<int>>, slots0: seq<int>, left0: seq<int>,
    caps: seq<seq<int>>, slots: seq<int>, left: seq<int>, group: Group, worst: nat, r: nat)
    requires SeededTo(facts, target, counts, caps0, slots0, left0, caps, slots, left, group)
    requires IsWorst(facts, caps, slots, group, worst) && InGroup(r, group) && r < BUCKETS && left[r] > 0
    ensures SeededTo(facts, target, counts, caps0, slots0, left0,
      Seat(caps, worst, r), Less(slots, worst), Less(left, r), group)
    ensures 0 <= Sum(Less(slots, worst)) < Sum(slots)
  {
    MarginsStep(target, counts, caps, slots, left, worst, r);
    FairStep(facts, caps, slots0, slots, group, worst, r);
    OnlyGroupStep(caps0, caps, left0, left, group, worst, r);
    SumUpdate(slots, worst, slots[worst] - 1);
    SumNonNegative(Less(slots, worst));
  }

  /** The buckets of a group that still have players, in bucket order. */
  function OpenRoles(left: seq<int>, group: Group, k: nat): (roles: seq<nat>)
    requires |left| == BUCKETS && k <= BUCKETS
    ensures forall r: nat :: r in roles <==> r < k && InGroup(r, group) && left[r] > 0
  {
    if k == 0 then []
    else
      var front := OpenRoles(left, group, k - 1);
      if InGroup(k - 1, group) && left[k - 1] > 0 then front + [k - 1] else front
  }

  function NeedKeys(team: TeamFacts, target: int, shares: seq<real>, row: seq<int>): (r: seq<Key>)
    requires |shares| == |row| == |team.roleCounts| == BUCKETS
    ensures |r| == BUCKETS
    ensures forall q :: 0 <= q < BUCKETS ==> r[q].a == RoleNeed(team, target, q, shares[q], row[q])
  {
    seq(BUCKETS, q requires 0 <= q < BUCKETS => Key(RoleNeed(team, target, q, shares[q], row[q]), 0.0, 0.0, 0.0, 0.0))
  }

  /** Need is what a team lacks to its share of the bucket, as a part of its final size. */
  lemma RoleNeedIs(team: TeamFacts, target: int, r: nat, share: real, held: int)
    requires r < |team.roleCounts| && team.playerCount + target > 0
    ensures RoleNeed(team, target, r, share, held) * ((team.playerCount + target) as real)
         == share * ((team.playerCount + target) as real) - ((team.roleCounts[r] + held) as real)
  {
    var d := (team.playerCount + target) as real;
    var q := ((team.roleCounts[r] + held) as real) / d;
    assert q * d == (team.roleCounts[r] + held) as real;
    assert (share - q) * d == share * d - q * d;
  }

  /** How many more players are left in the bucket than the team has of it. */
  function Surplus(team: TeamFacts, left: seq<int>, row: seq<int>, r: nat): int
    requires |left| == |row| == |team.roleCounts| == BUCKETS && r < BUCKETS
  {
    left[r] - team.roleCounts[r] - row[r]
  }

  lemma NeedIsSurplus(team: TeamFacts, target: int, left: seq<int>, row: seq<int>, r: nat)
    requires |left| == |row| == |team.roleCounts| == BUCKETS && r < BUCKETS && team.playerCount + target > 0
    ensures var d := (team.playerCount + target) as real;
      RoleNeed(team, target, r, (left[r] as real) / d, row[r]) == (Surplus(team, left, row, r) as real) / d
  {
    var d := (team.playerCount + target) as real;
    var a, b := left[r] as real, (team.roleCounts[r] + row[r]) as real;
    assert a / d - b / d == (a - b) / d;
  }

  lemma SurplusDecides(team: TeamFacts, target: int, left: seq<int>, row: seq<int>, roles: seq<nat>, best: nat)
    requires |left| == |row| == |team.roleCounts| == BUCKETS && team.playerCount + target > 0
    requires best < BUCKETS && forall r: nat :: r in roles ==> r < BUCKETS
    requires forall k :: 0 <= k < |roles| ==> var r := roles[k]; r in roles
    requires var d := (team.playerCount + target) as real;
      forall k :: 0 <= k < |roles| ==>
        RoleNeed(team, target, roles[k], (left[roles[k]] as real) / d, row[roles[k]])
        <= RoleNeed(team, target, best, (left[best] as real) / d, row[best])
    ensures forall r :: r in roles ==> Surplus(team, left, row, r) <= Surplus(team, left, row, best)
  {
    var d := (team.playerCount + target) as real;
    NeedIsSurplus(team, target, left, row, best);
    forall r | r in roles ensures Surplus(team, left, row, r) <= Surplus(team, left, row, best) {
      var k :| 0 <= k < |roles| && roles[k] == r;
      NeedIsSurplus(team, target, left, row, r);
      var a, b := Surplus(team, left, row, r) as real, Surplus(team, left, row, best) as real;
      assert a / d <= b / d;
      assert (a / d) * d == a && (b / d) * d == b;
    }
  }

  /** The open bucket the team needs most, measured against what is left of each bucket. */
  function NeediestRole(team: TeamFacts, target: int, left: seq<int>, row: seq<int>, roles: seq<nat>): (best: nat)
    requires |left| == |row| == |team.roleCounts| == BUCKETS
    requires roles != [] && forall r: nat :: r in roles ==> r < BUCKETS
    ensures best in roles
    ensures team.playerCount + target > 0 ==>
      forall r :: r in roles ==> Surplus(team, left, row, r) <= Surplus(team, left, row, best)
  {
    var d := Max(1, team.playerCount + target) as real;
    var shares := seq(BUCKETS, q requires 0 <= q < BUCKETS => (left[q] as real) / d);
    assert forall k :: 0 <= k < |roles| ==> var r := roles[k]; r in roles;
    var keys := NeedKeys(team, target, shares, row);
    var best := FirstMax(roles, keys);
    if team.playerCount + target > 0 then
      assert forall k :: 0 <= k < |roles| ==> !Below(keys[best], keys[roles[k]]);
      SurplusDecides(team, target, left, row, roles, best);
      best
    else best
  }

  // ----- placing one bucket -----

  /** The team's need of bucket r when it holds `held` seats of it. */
  function NeedOf(facts: seq<TeamFacts>, target: seq<int>, t: nat, r: nat, share: real, held: int): real
    requires t < |facts| == |target| && r < |facts[t].roleCounts|
  {
    RoleNeed(facts[t], target[t], r, share, held)
  }

  /**
   Within one bucket: whoever received a seat needed it, when it was given, at least as much as any
   team with an open slot would need its next one.
   */
  ghost predicate ByNeed(facts: seq<TeamFacts>, target: seq<int>, r: nat, share: real,
                         before: seq<seq<int>>, caps: seq<seq<int>>, slots: seq<int>)
    requires Tabular(facts, before) && Tabular(facts, caps) && r < BUCKETS && |facts| == |target| == |slots|
  {
    forall i, j :: 0 <= i < |facts| && 0 <= j < |facts| && before[i][r] < caps[i][r] && slots[j] > 0 ==>
      NeedOf(facts, target, j, r, share, caps[j][r]) <= NeedOf(facts, target, i, r, share, caps[i][r] - 1)
  }

  ghost predicate Neediest(facts: seq<TeamFacts>, target: seq<int>, r: nat, share: real,
                           caps: seq<seq<int>>, slots: seq<int>, best: nat)
    requires Tabular(facts, caps) && r < BUCKETS && |facts| == |target| == |slots|
  {
    && best < |facts| && slots[best] > 0
    && forall j :: 0 <= j < |facts| && slots[j] > 0 ==>
         NeedOf(facts, target, j, r, share, caps[j][r]) <= NeedOf(facts, target, best, r, share, caps[best][r])
  }

  lemma ByNeedStep(facts: seq<TeamFacts>, target: seq<int>, r: nat, share: real,
                   before: seq<seq<int>>, caps: seq<seq<int>>, slots: seq<int>, best: nat)
    requires Tabular(facts, before) && Tabular(facts, caps) && r < BUCKETS && |facts| == |target| == |slots|
    requires ByNeed(facts, target, r, share, before, caps, slots)
    requires Neediest(facts, target, r, share, caps, slots, best)
    ensures Tabular(facts, Seat(caps, best, r))
    ensures ByNeed(facts, target, r, share, before, Seat(caps, best, r), Less(slots, best))
  {
    var caps', slots' := Seat(caps, best, r), Less(slots, best);
    forall t | 0 <= t < |facts| && t != best
      ensures |caps'[t]| == BUCKETS && caps'[t] == caps[t] && slots'[t] == slots[t]
    {
    }
    assert |caps'[best]| == BUCKETS && caps'[best][r] == caps[best][r] + 1;
    forall i, j | 0 <= i < |facts| && 0 <= j < |facts| && before[i][r] < caps'[i][r] && slots'[j] > 0
      ensures NeedOf(facts, target, j, r, share, caps'[j][r]) <= NeedOf(facts, target, i, r, share, caps'[i][r] - 1)
    {
      NeedFalls(facts[j], target[j], r, share, caps[j][r], caps'[j][r]);
      assert NeedOf(facts, target, j, r, share, caps[j][r]) <= NeedOf(facts, target, best, r, share, caps[best][r]);
    }
  }

  /** On a tie: the better percentile, then the better reputation, fewer seats in the bucket and the greater id. */
  ghost predicate PlaceTie(best: TeamFacts, held: int, other: TeamFacts, heldByOther: int) {
    || best.percentile > other.percentile
    || (best.percentile == other.percentile
        && (|| best.reputation > other.reputation
            || (best.reputation == other.reputation
                && (held < heldByOther || (held == heldByOther && best.id >= other.id)))))
  }

  function PlaceKeys(facts: seq<TeamFacts>, target: seq<int>, r: nat, share: real, caps: seq<seq<int>>): (ks: seq<Key>)
    requires Tabular(facts, caps) && r < BUCKETS && |facts| == |target|
    ensures |ks| == |facts| && forall t :: 0 <= t < |ks| ==> ks[t].a == NeedOf(facts, target, t, r, share, caps[t][r])
  {
    seq(|facts|, t requires 0 <= t < |facts| =>
      Key(NeedOf(facts, target, t, r, share, caps[t][r]), facts[t].percentile, facts[t].reputation as real,
          -(caps[t][r] as real), facts[t].id as real))
  }

  /** Only bucket r grew, and only bucket r has fewer players left. */
  ghost predicate OnlyBucket(a: seq<seq<int>>, b: seq<seq<int>>, l: seq<int>, m: seq<int>, r: nat) {
    && |a| == |b| && IsMatrix(a, BUCKETS) && IsMatrix(b, BUCKETS) && |l| == |m| == BUCKETS
    && (forall t, q :: 0 <= t < |a| && 0 <= q < BUCKETS && q != r ==> a[t][q] == b[t][q])
    && (forall q :: 0 <= q < BUCKETS && q != r ==> l[q] == m[q])
  }

  // ----- placing all buckets -----

  /** A team's row when the first k buckets of the order are placed, and the others hold what they started with. */
  ghost function Stage(order: seq<nat>, k: nat, row0: seq<int>, row: seq<int>): (r: seq<int>)
    requires |row0| == |row| == BUCKETS && k <= |order|
    ensures |r| == BUCKETS
  {
    seq(BUCKETS, q requires 0 <= q < BUCKETS => if q in order[..k] then row[q] else row0[q])
  }

  /** The slots that are open then. */
  ghost function OpenAfter(target: seq<int>, order: seq<nat>, k: nat, caps0: seq<seq<int>>, caps: seq<seq<int>>)
    : (r: seq<int>)
    requires |caps0| == |caps| == |target| && IsMatrix(caps0, BUCKETS) && IsMatrix(caps, BUCKETS) && k <= |order|
    ensures |r| == |target|
    ensures forall t :: 0 <= t < |r| ==> r[t] == target[t] - Sum(Stage(order, k, caps0[t], caps[t]))
  {
    seq(|target|, t requires 0 <= t < |target| => target[t] - Sum(Stage(order, k, caps0[t], caps[t])))
  }

  ghost predicate Tables(facts: seq<TeamFacts>, target: seq<int>, left0: seq<int>, caps0: seq<seq<int>>,
        caps: seq<seq<int>>, order: seq<nat>) {
    && Tabular(facts, caps0) && Tabular(facts, caps) && |target| == |facts|
    && |left0| == BUCKETS && Indices(order, BUCKETS)
  }

  /** In a later table, the seats of the k-th bucket of the order still went to the neediest open teams of its time. */
  ghost predicate BucketByNeed(facts: seq<TeamFacts>, target: seq<int>, left0: seq<int>, total: nat,
        caps0: seq<seq<int>>, caps: seq<seq<int>>, order: seq<nat>, k: nat)
    requires Tables(facts, target, left0, caps0, caps, order) && k < |order| && total > 0
  {
    ByNeed(facts, target, order[k], (left0[order[k]] as real) / (total as real), caps0, caps,
      OpenAfter(target, order, k + 1, caps0, caps))
  }

  /** So far the first k buckets are placed by need, and the others are untouched. */
  ghost predicate PlacedBelow(facts: seq<TeamFacts>, target: seq<int>, left0: seq<int>, total: nat,
        caps0: seq<seq<int>>, caps: seq<seq<int>>, left: seq<int>, order: seq<nat>, k: nat)
    requires total > 0
  {
    && Tables(facts, target, left0, caps0, caps, order) && k <= |order| && |left| == BUCKETS
    && (forall j :: 0 <= j < k ==> BucketByNeed(facts, target, left0, total, caps0, caps, order, j))
    && (forall t, q :: 0 <= t < |caps| && 0 <= q < BUCKETS && q !in order[..k] ==> caps[t][q] == caps0[t][q])
    && (forall q :: 0 <= q < BUCKETS && q !in order[..k] ==> left[q] == left0[q])
  }

  lemma LaterBucket(facts: seq<TeamFacts>, target: seq<int>, left0: seq<int>, total: nat, caps0: seq<seq<int>>,
        caps: seq<seq<int>>, next: seq<seq<int>>, order: seq<nat>, j: nat, r: nat)
    requires Tables(facts, target, left0, caps0, caps, order) && Tabular(facts, next) && total > 0
    requires j < |order| && r !in order[..j + 1]
    requires forall t, q :: 0 <= t < |caps| && 0 <= q < BUCKETS && q != r ==> caps[t][q] == next[t][q]
    requires BucketByNeed(facts, target, left0, total, caps0, caps, order, j)
    ensures BucketByNeed(facts, target, left0, total, caps0, next, order, j)
  {
    var slots, slots' := OpenAfter(target, order, j + 1, caps0, caps), OpenAfter(target, order, j + 1, caps0, next);
    forall t | 0 <= t < |target| ensures slots[t] == slots'[t] {
      assert Stage(order, j + 1, caps0[t], caps[t]) == Stage(order, j + 1, caps0[t], next[t]);
    }
    assert slots == slots';
    assert order[j] == order[..j + 1][j];
    assert forall t :: 0 <= t < |caps| ==> caps[t][order[j]] == next[t][order[j]];
  }

  /** Right after its pass, the open slots of the k-th bucket are the slots of the table. */
  lemma ThisBucket(facts: seq<TeamFacts>, target: seq<int>, counts: seq<int>, left0: seq<int>, total: nat,
        caps0: seq<seq<int>>, caps: seq<seq<int>>, next: seq<seq<int>>, slots: seq<int>, left: seq<int>,
        order: seq<nat>, k: nat)
    requires Tables(facts, target, left0, caps0, caps, order) && Tabular(facts, next) && total > 0 && k < |order|
    requires Margins(target, counts, next, slots, left)
    requires forall t, q :: 0 <= t < |caps| && 0 <= q < BUCKETS && q !in order[..k + 1] ==> next[t][q] == caps0[t][q]
    requires forall t :: 0 <= t < |caps| ==> caps[t][order[k]] == caps0[t][order[k]]
    requires ByNeed(facts, target, order[k], (left0[order[k]] as real) / (total as real), caps, next, slots)
    ensures BucketByNeed(facts, target, left0, total, caps0, next, order, k)
  {
    var open := OpenAfter(target, order, k + 1, caps0, next);
    forall t | 0 <= t < |target| ensures open[t] == slots[t] {
      assert Stage(order, k + 1, caps0[t], next[t]) == next[t];
    }
    assert open == slots;
  }

  lemma PlacedNext(facts: seq<TeamFacts>, target: seq<int>, counts: seq<int>, left0: seq<int>, total: nat,
        caps0: seq<seq<int>>, caps: seq<seq<int>>, left: seq<int>, next: seq<seq<int>>, slots: seq<int>,
        left': seq<int>, order: seq<nat>, k: nat)
    requires total > 0 && PlacedBelow(facts, target, left0, total, caps0, caps, left, order, k) && k < |order|
    requires order[k] !in order[..k] && Margins(target, counts, next, slots, left')
    requires Tabular(facts, next) && OnlyBucket(caps, next, left, left', order[k])
    requires ByNeed(facts, target, order[k], (left[order[k]] as real) / (total as real), caps, next, slots)
    ensures PlacedBelow(facts, target, left0, total, caps0, next, left', order, k + 1)
  {
    var r := order[k];
    assert order[..k + 1] == order[..k] + [r];
    forall j | 0 <= j < k ensures BucketByNeed(facts, target, left0, total, caps0, next, order, j) {
      assert BucketByNeed(facts, target, left0, total, caps0, caps, order, j);
      assert order[..j + 1] <= order[..k];
      LaterBucket(facts, target, left0, total, caps0, caps, next, order, j, r);
    }
    ThisBucket(facts, target, counts, left0, total, caps0, caps, next, slots, left', order, k);
  }

  /** The order of the buckets, and every bucket placed by need in that order. */
  ghost predicate PlacedByNeed(facts: seq<TeamFacts>, target: seq<int>, left0: seq<int>, total: nat,
        caps0: seq<seq<int>>, caps: seq<seq<int>>)
    requires total > 0
  {
    && |left0| == BUCKETS
    && var order := SortedOrder(OrderKeys(left0, total));
       && Tables(facts, target, left0, caps0, caps, order)
       && forall k :: 0 <= k < |order| ==> BucketByNeed(facts, target, left0, total, caps0, caps, order, k)
  }

  lemma NotEarlier(order: seq<nat>, keys: seq<Key>, k: nat)
    requires IsSorted(order, keys) && k < |order|
    ensures order[k] !in order[..k]
  {
    forall j | 0 <= j < k ensures order[..k][j] != order[k] {
      SortedDistinct(order, keys, j, k);
    }
  }

  /** Nobody is left in the first k buckets of the order. */
  ghost predicate EmptyBelow(left: seq<int>, order: seq<nat>, k: nat) {
    |left| == BUCKETS && Indices(order, BUCKETS) && k <= |order| && forall j :: 0 <= j < k ==> left[order[j]] == 0
  }

  lemma StillEmpty(rest: seq<int>, left: seq<int>, order: seq<nat>, k: nat)
    requires EmptyBelow(rest, order, k) && k < |order| && |left| == BUCKETS && order[k] !in order[..k]
    requires forall q :: 0 <= q < BUCKETS && q != order[k] ==> rest[q] == left[q]
    ensures left[order[k]] == 0 ==> EmptyBelow(left, order, k + 1)
  {
    forall j | 0 <= j < k ensures left[order[j]] == 0 {
      assert order[j] == order[..k][j];
    }
  }

  lemma AllBuckets(facts: seq<TeamFacts>, target: seq<int>, left0: seq<int>, total: nat,
        caps0: seq<seq<int>>, caps: seq<seq<int>>, left: seq<int>)
    requires total > 0 && |left0| == BUCKETS
    requires var order := SortedOrder(OrderKeys(left0, total));
      PlacedBelow(facts, target, left0, total, caps0, caps, left, order, |order|)
      && forall j :: 0 <= j < |order| ==> left[order[j]] == 0
    ensures PlacedByNeed(facts, target, left0, total, caps0, caps)
    ensures forall r :: 0 <= r < BUCKETS ==> left[r] == 0
  {
    var order := SortedOrder(OrderKeys(left0, total));
    forall r | 0 <= r < BUCKETS ensures left[r] == 0 {
      assert r in order;
    }
  }

  /** A floor seat of the bucket in which the most players are left, over what the team has already. */
  ghost predicate SeatOfMostNeeded(team: TeamFacts, target: int, left: seq<int>, caps: seq<seq<int>>, roles: seq<nat>,
        t: nat, r: nat, after: seq<seq<int>>)
  {
    && t < |caps| && |left| == |caps[t]| == |team.roleCounts| == BUCKETS && r in roles && r < BUCKETS
    && after == Seat(caps, t, r)
    && (team.playerCount + target > 0 ==>
          forall q :: q in roles && q < BUCKETS ==> Surplus(team, left, caps[t], q) <= Surplus(team, left, caps[t], r))
  }

  /** The scarcer bucket first, on a tie in bucket order; pitchers come last. */
  lemma BucketOrder(left: seq<int>, total: nat, j: nat, k: nat)
    requires |left| == BUCKETS && j < k < BUCKETS && forall r :: 0 <= r < BUCKETS ==> 0 <= left[r] <= total
    ensures var order := SortedOrder(OrderKeys(left, total));
      && |order| == BUCKETS && Indices(order, BUCKETS)
      && (order[j] != PITCHER && order[k] != PITCHER ==>
            left[order[j]] < left[order[k]] || (left[order[j]] == left[order[k]] && order[j] < order[k]))
      && (order[j] == PITCHER ==> left[PITCHER] == 0 && left[order[k]] == total)
  {
    var keys := OrderKeys(left, total);
    var order := SortedOrder(keys);
    assert Before(keys, order[j], order[k]);
    SortedDistinct(order, keys, j, k);
  }

  /** What a team lacks to its floor, seats of the table included. */
  lemma FloorDeficitIs(team: TeamFacts, row: seq<int>)
    requires |row| == BUCKETS == |team.roleCounts|
    ensures var d := FloorDeficit(team, row, Pitchers);
      if team.roleCounts[PITCHER] + row[PITCHER] >= team.minPitchers then d == 0
      else team.roleCounts[PITCHER] + row[PITCHER] + d == team.minPitchers
    ensures var d := FloorDeficit(team, row, Hitters);
      if team.hitterCount + Sum(row[1..]) >= team.minHitters then d == 0
      else team.hitterCount + Sum(row[1..]) + d == team.minHitters
  {
    assert row == [row[0]] + row[1..];
    SumAppend([row[0]], row[1..]);
    assert [row[0]][..0] == [];
    assert Sum([row[0]]) == row[0];
  }

  // ----- the table -----

  /** Scarce buckets first and pitchers last; ties in bucket order. */
  function OrderKeys(left: seq<int>, total: nat): (r: seq<Key>)
    requires |left| == BUCKETS
    ensures |r| == BUCKETS
  {
    seq(BUCKETS, q requires 0 <= q < BUCKETS && |left| == BUCKETS =>
      Key((if q == PITCHER then total + left[q] else left[q]) as real, q as real, 0.0, 0.0, 0.0))
  }

  class BucketTable {
    const facts: seq<TeamFacts>
    const target: seq<int>
    const counts: seq<int>
    var caps: seq<seq<int>>
    var slots: seq<int>
    var left: seq<int>

    ghost predicate Shape() {
      && |facts| == |target| && |counts| == BUCKETS
      && forall t :: 0 <= t < |facts| ==> |facts[t].roleCounts| == BUCKETS
    }

    ghost predicate Valid()
      reads this
    {
      Shape() && Margins(target, counts, caps, slots, left)
    }

    constructor (facts: seq<TeamFacts>, target: seq<int>, counts: seq<int>)
      requires |facts| == |target| && |counts| == BUCKETS
      requires forall t :: 0 <= t < |facts| ==> |facts[t].roleCounts| == BUCKETS && 0 <= target[t]
      requires forall r :: 0 <= r < BUCKETS ==> 0 <= counts[r]
      ensures Valid() && this.facts == facts && this.target == target && this.counts == counts
      ensures slots == target && left == counts && caps == seq(|facts|, _ => seq(BUCKETS, _ => 0))
    {
      this.facts, this.target, this.counts := facts, target, counts;
      this.caps := seq(|facts|, _ => seq(BUCKETS, _ => 0));
      this.slots, this.left := target, counts;
      new;
      EmptyTable(|facts|);
    }

    /** One seat of bucket r goes to team t. */
    method GiveSeat(t: nat, r: nat)
      requires Valid() && t < |slots| && r < BUCKETS && slots[t] > 0 && left[r] > 0
      modifies this
      ensures Valid()
      ensures caps == Seat(old(caps), t, r) && slots == Less(old(slots), t) && left == Less(old(left), r)
    {
      MarginsStep(target, counts, caps, slots, left, t, r);
      caps := Seat(caps, t, r);
      slots := Less(slots, t);
      left := Less(left, r);
    }

    /** The wanting team with the worst deficit, if any team is wanting. */
    method WorstTeam(group: Group) returns (found: bool, worst: nat)
      requires Valid()
      ensures found <==> exists t :: 0 <= t < |facts| && Wanting(facts, caps, slots, t, group)
      ensures found ==> IsWorst(facts, caps, slots, group, worst)
      ensures found ==> forall t: nat :: t < |facts| && Wanting(facts, caps, slots, t, group) ==>
        Deficit(facts, caps, t, group) < Deficit(facts, caps, worst, group) || FloorTie(facts[worst], facts[t])
    {
      var candidates: seq<nat> := [];
      for t := 0 to |facts|
        invariant forall c :: c in candidates ==> c < |facts| && Wanting(facts, caps, slots, c, group)
        invariant forall u :: 0 <= u < t && Wanting(facts, caps, slots, u, group) ==> u in candidates
      {
        if slots[t] > 0 && Deficit(facts, caps, t, group) > 0 {
          candidates := candidates + [t];
        }
      }
      found := candidates != [];
      worst := 0;
      if found {
        var keys := FloorKeys(facts, caps, group);
        forall k | 0 <= k < |candidates| ensures candidates[k] < |keys| {
          var c := candidates[k];
          assert c in candidates;
        }
        worst := FirstMax(candidates, keys);
        forall t: nat | t < |facts| && Wanting(facts, caps, slots, t, group)
          ensures Deficit(facts, caps, t, group) <= Deficit(facts, caps, worst, group)
          ensures Deficit(facts, caps, t, group) == Deficit(facts, caps, worst, group) ==>
            FloorTie(facts[worst], facts[t])
        {
          assert t in candidates;
          var k :| 0 <= k < |candidates| && candidates[k] == t;
          assert !Below(keys[worst], keys[candidates[k]]);
        }
      } else {
        assert forall u :: 0 <= u < |facts| ==> u !in candidates;
      }
    }

    /** What seeding has kept so far, against the state it started from. */
    ghost predicate Seeded(caps0: seq<seq<int>>, slots0: seq<int>, left0: seq<int>, group: Group)
      reads this
    {
      Shape() && SeededTo(facts, target, counts, caps0, slots0, left0, caps, slots, left, group)
    }

    /** One seeding step: the worst-off team gets a seat of the bucket it needs most. */
    method SeedOne(group: Group, roles: seq<nat>, worst: nat,
                   ghost caps0: seq<seq<int>>, ghost slots0: seq<int>, ghost left0: seq<int>)
      requires Seeded(caps0, slots0, left0, group) && IsWorst(facts, caps, slots, group, worst)
      requires roles != [] && roles == OpenRoles(left, group, BUCKETS)
      modifies this
      ensures Seeded(caps0, slots0, left0, group)
      ensures 0 <= Sum(slots) < Sum(old(slots))
      ensures exists r :: SeatOfMostNeeded(facts[worst], target[worst], old(left), old(caps), roles, worst, r, caps)
    {
      var r := NeediestRole(facts[worst], target[worst], left, caps[worst], roles);
      SeedStep(facts, target, counts, caps0, slots0, left0, caps, slots, left, group, worst, r);
      ghost var before, rest := caps, left;
      GiveSeat(worst, r);
      assert SeatOfMostNeeded(facts[worst], target[worst], rest, before, roles, worst, r, caps);
    }

    /** First pass: seats go, one by one, to the team furthest below its floor for the group. */
    method SeedFloors(group: Group)
      requires Valid()
      modifies this
      ensures Seeded(old(caps), old(slots), old(left), group)
      ensures (forall r :: 0 <= r < BUCKETS && InGroup(r, group) ==> left[r] == 0)
           || (forall t :: 0 <= t < |facts| ==> !Wanting(facts, caps, slots, t, group))
    {
      var roles := OpenRoles(left, group, BUCKETS);
      while roles != []
        invariant Seeded(old(caps), old(slots), old(left), group)
        invariant roles == OpenRoles(left, group, BUCKETS)
        decreases Sum(slots)
      {
        var found, worst := WorstTeam(group);
        if !found {
          return;
        }
        SeedOne(group, roles, worst, old(caps), old(slots), old(left));
        roles := OpenRoles(left, group, BUCKETS);
      }
      forall r | 0 <= r < BUCKETS && InGroup(r, group) ensures left[r] == 0 {
        assert r !in roles;
      }
    }

    /** The open team with the greatest need of bucket r. */
    method NeediestTeam(r: nat, share: real) returns (found: bool, best: nat)
      requires Valid() && r < BUCKETS
      ensures found <==> exists t :: 0 <= t < |slots| && slots[t] > 0
      ensures found ==> Neediest(facts, target, r, share, caps, slots, best)
      ensures found ==> forall t: nat :: t < |facts| && slots[t] > 0 ==>
        || NeedOf(facts, target, t, r, share, caps[t][r]) < NeedOf(facts, target, best, r, share, caps[best][r])
        || PlaceTie(facts[best], caps[best][r], facts[t], caps[t][r])
    {
      var candidates: seq<nat> := [];
      for t := 0 to |facts|
        invariant forall c :: c in candidates ==> c < |facts| && slots[c] > 0
        invariant forall u :: 0 <= u < t && slots[u] > 0 ==> u in candidates
      {
        if slots[t] > 0 {
          candidates := candidates + [t];
        }
      }
      found := candidates != [];
      best := 0;
      if found {
        var keys := PlaceKeys(facts, target, r, share, caps);
        forall k | 0 <= k < |candidates| ensures candidates[k] < |keys| {
          var c := candidates[k];
          assert c in candidates;
        }
        best := FirstMax(candidates, keys);
        forall t: nat | t < |facts| && slots[t] > 0
          ensures keys[t].a <= keys[best].a
          ensures keys[t].a == keys[best].a ==> PlaceTie(facts[best], caps[best][r], facts[t], caps[t][r])
        {
          assert t in candidates;
          var k :| 0 <= k < |candidates| && candidates[k] == t;
          assert !Below(keys[best], keys[candidates[k]]);
        }
      } else {
        assert forall u :: 0 <= u < |facts| ==> u !in candidates;
      }
    }

    /** What placing bucket r has kept so far, against the state it started from. */
    ghost predicate Placing(r: nat, share: real, caps0: seq<seq<int>>, left0: seq<int>)
      reads this
    {
      && Valid() && r < BUCKETS && OnlyBucket(caps0, caps, left0, left, r)
      && ByNeed(facts, target, r, share, caps0, caps, slots)
    }

    method PlaceOne(r: nat, share: real, best: nat, ghost caps0: seq<seq<int>>, ghost left0: seq<int>)
      requires Placing(r, share, caps0, left0) && left[r] > 0
      requires Neediest(facts, target, r, share, caps, slots, best)
      modifies this
      ensures Placing(r, share, caps0, left0) && left[r] == old(left)[r] - 1
    {
      ByNeedStep(facts, target, r, share, caps0, caps, slots, best);
      GiveSeat(best, r);
    }

    /** All players left in bucket r get a seat; it fails only when every team is full. */
    method PlaceAtShare(r: nat, share: real) returns (ok: bool)
      requires Valid() && r < BUCKETS
      modifies this
      ensures Placing(r, share, old(caps), old(left))
      ensures ok ==> left[r] == 0
      ensures !ok ==> left[r] > 0 && forall t :: 0 <= t < |slots| ==> slots[t] <= 0
    {
      ok := true;
      var players := left[r];
      var given := 0;
      while given < players && ok
        invariant 0 <= given <= players
        invariant Placing(r, share, old(caps), old(left)) && left[r] == players - given
        invariant !ok ==> given < players && forall t :: 0 <= t < |slots| ==> slots[t] <= 0
        decreases players - given, ok
      {
        var found, best := NeediestTeam(r, share);
        if found {
          PlaceOne(r, share, best, old(caps), old(left));
          given := given + 1;
        } else {
          ok := false;
        }
      }
    }

    method PlaceBucket(r: nat, total: nat) returns (ok: bool)
      requires Valid() && r < BUCKETS && total > 0
      modifies this
      ensures Placing(r, (old(left)[r] as real) / (total as real), old(caps), old(left))
      ensures ok ==> left[r] == 0
      ensures Sum(target) == Sum(counts) ==> ok
    {
      ok := PlaceAtShare(r, (left[r] as real) / (total as real));
      if !ok && Sum(target) == Sum(counts) {
        SlotForLeftPlayer(target, counts, caps, slots, left, r);
      }
    }

    /** The k-th bucket of the order. */
    method PlaceNext(order: seq<nat>, k: nat, total: nat, ghost keys: seq<Key>, ghost caps0: seq<seq<int>>,
        ghost left0: seq<int>)
      returns (ok: bool)
      requires Valid() && total > 0 && IsSorted(order, keys) && k < |order|
      requires PlacedBelow(facts, target, left0, total, caps0, caps, left, order, k) && EmptyBelow(left, order, k)
      modifies this
      ensures Valid() && PlacedBelow(facts, target, left0, total, caps0, caps, left, order, k + 1)
      ensures ok ==> EmptyBelow(left, order, k + 1)
      ensures Sum(target) == Sum(counts) ==> ok
    {
      ghost var before, rest := caps, left;
      NotEarlier(order, keys, k);
      ok := PlaceBucket(order[k], total);
      PlacedNext(facts, target, counts, left0, total, caps0, before, rest, caps, slots, left, order, k);
      StillEmpty(rest, left, order, k);
    }

    /** The main loop over the buckets. */
    method PlaceAll(total: nat) returns (ok: bool)
      requires Valid() && total > 0
      modifies this
      ensures Valid()
      ensures ok ==> forall r :: 0 <= r < BUCKETS ==> left[r] == 0
      ensures ok ==> PlacedByNeed(facts, target, old(left), total, old(caps), caps)
      ensures Sum(target) == Sum(counts) ==> ok
    {
      var keys := OrderKeys(left, total);
      var order := SortedOrder(keys);
      ok := true;
      var k := 0;
      while k < |order| && ok
        invariant Valid() && 0 <= k <= |order|
        invariant PlacedBelow(facts, target, old(left), total, old(caps), caps, left, order, k)
        invariant ok ==> EmptyBelow(left, order, k)
        invariant Sum(target) == Sum(counts) ==> ok
        decreases |order| - k
      {
        ok := PlaceNext(order, k, total, keys, old(caps), old(left));
        k := k + 1;
      }
      if ok {
        AllBuckets(facts, target, old(left), total, old(caps), caps, left);
      }
    }
  }

  /** The seats given, the open slots and the players left at some moment. */
  datatype Moment = Moment(caps: seq<seq<int>>, slots: seq<int>, left: seq<int>)

  /** From one moment to the next a group was seeded: levelled, and until its players or the wanting teams ran out. */
  ghost predicate GroupSeeded(facts: seq<TeamFacts>, target: seq<int>, counts: seq<int>, a: Moment, b: Moment,
        group: Group) {
    && SeededTo(facts, target, counts, a.caps, a.slots, a.left, b.caps, b.slots, b.left, group)
    && ((forall r :: 0 <= r < BUCKETS && InGroup(r, group) ==> b.left[r] == 0)
        || (forall t :: 0 <= t < |facts| ==> !Wanting(facts, b.caps, b.slots, t, group)))
  }

  /** The whole preparation: pitcher floors, hitter floors, and then every bucket by need. */
  ghost predicate Prepared(facts: seq<TeamFacts>, target: seq<int>, counts: seq<int>, a: Moment, b: Moment,
        caps: seq<seq<int>>)
    requires Sum(counts) > 0
  {
    var empty := Moment(seq(|facts|, _ => seq(BUCKETS, _ => 0)), target, counts);
    && GroupSeeded(facts, target, counts, empty, a, Pitchers)
    && GroupSeeded(facts, target, counts, a, b, Hitters)
    && PlacedByNeed(facts, target, b.left, Sum(counts), b.caps, caps)
  }

  /** Success is decided before the table is filled; a filled table has exact margins and is filled by need. */
  method PreparePositionBuckets(facts: seq<TeamFacts>, target: seq<int>, counts: seq<int>)
    returns (ok: bool, caps: seq<seq<int>>, ghost afterPitchers: Moment, ghost afterHitters: Moment)
    requires |facts| == |target| && |counts| == BUCKETS
    requires forall t :: 0 <= t < |facts| ==> |facts[t].roleCounts| == BUCKETS && 0 <= target[t]
    requires forall r :: 0 <= r < BUCKETS ==> 0 <= counts[r]
    ensures ok <==> Sum(counts) > 0 && Sum(target) == Sum(counts)
    ensures ok ==> ExactMargins(target, counts, caps)
    ensures ok ==> Prepared(facts, target, counts, afterPitchers, afterHitters, caps)
  {
    caps := [];
    afterPitchers, afterHitters := Moment([], [], []), Moment([], [], []);
    var total := Sum(Positive(counts));
    assert Positive(counts) == counts;
    if total <= 0 {
      return false, caps, afterPitchers, afterHitters;
    }
    if Sum(target) != total {
      return false, caps, afterPitchers, afterHitters;
    }
    var table := new BucketTable(facts, target, counts);
    table.SeedFloors(Pitchers);
    afterPitchers := Moment(table.caps, table.slots, table.left);
    table.SeedFloors(Hitters);
    afterHitters := Moment(table.caps, table.slots, table.left);
    ok := table.PlaceAll(total);
    NothingLeft(target, counts, table.caps, table.slots, table.left);
    caps := table.caps;
    ok := ok && forall t :: 0 <= t < |table.slots| ==> table.slots[t] == 0;
  }

  lemma {:induction false} EmptyTable(n: nat)
    ensures var caps := seq(n, _ => seq(BUCKETS, _ => 0));
      (forall t :: 0 <= t < n ==> Sum(caps[t]) == 0) && ColumnSums(caps, BUCKETS) == seq(BUCKETS, _ => 0)
  {
    var caps := seq(n, _ => seq(BUCKETS, _ => 0));
    forall t | 0 <= t < n ensures Sum(caps[t]) == 0 {
      SumZero(caps[t]);
    }
    if n > 0 {
      EmptyTable(n - 1);
      assert caps[..n - 1] == seq(n - 1, _ => seq(BUCKETS, _ => 0));
    }
  }
}
