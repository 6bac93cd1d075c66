/** Minimum-fill repair and the seat targets of an existing batch. */
module Targets {
  import opened Sums
  import opened Ordering
  import opened TeamTables

  // ----- minimum fills -----

  /** The order in which short-handed teams keep their minimum fill. */
  function NeedKeys(facts: seq<TeamFacts>, fills: seq<int>): (r: seq<Key>)
    requires |facts| == |fills|
    ensures |r| == |facts|
  {
    seq(|facts|, i requires 0 <= i < |facts| =>
      Key(facts[i].playerCount as real, facts[i].hitterCount as real, facts[i].pitcherCount as real,
          -(fills[i] as real), facts[i].id as real))
  }

  /**
   Seats handed out in the order of the keys: nobody gets less than `low` or more than `high`, and a
   team that is not full leaves only `low` to every team behind it.
   */
  ghost predicate HandedOut(keys: seq<Key>, low: seq<int>, high: seq<int>, x: seq<int>)
    requires |keys| == |low| == |high| == |x|
  {
    && (forall i :: 0 <= i < |x| ==> low[i] <= x[i] <= high[i])
    && forall i, j :: 0 <= i < |x| && 0 <= j < |x| && Before(keys, i, j) && x[i] < high[i] ==> x[j] == low[j]
  }

  /** The order and the total leave no choice. */
  lemma HandedOutUnique(keys: seq<Key>, low: seq<int>, high: seq<int>, x: seq<int>, y: seq<int>)
    requires |keys| == |low| == |high| == |x| == |y|
    requires HandedOut(keys, low, high, x) && HandedOut(keys, low, high, y)
    requires Sum(x) == Sum(y)
    ensures x == y
  {
    if i :| 0 <= i < |x| && y[i] < x[i] {
      forall j | 0 <= j < |x| ensures y[j] <= x[j] {
        NoCrossing(keys, low, high, x, y, i, j);
      }
      SumTight(y, x);
    } else {
      SumTight(x, y);
    }
  }

  /** Two hand-outs never lead each other at two teams. */
  lemma NoCrossing(keys: seq<Key>, low: seq<int>, high: seq<int>, x: seq<int>, y: seq<int>, i: nat, j: nat)
    requires |keys| == |low| == |high| == |x| == |y| && i < |x| && j < |x|
    requires HandedOut(keys, low, high, x) && HandedOut(keys, low, high, y)
    ensures y[i] < x[i] ==> y[j] <= x[j]
  {
    assert i == j || Before(keys, i, j) || Before(keys, j, i);
  }

  ghost function Zeros(n: nat): (r: seq<int>)
    ensures |r| == n && forall i :: 0 <= i < n ==> r[i] == 0
  {
    seq(n, _ => 0)
  }

  /** What repair does to the fills: nothing when they fit, a hand-out of exactly `total` otherwise. */
  ghost predicate Repaired(facts: seq<TeamFacts>, before: seq<int>, after: seq<int>, total: nat) {
    && |facts| == |before| == |after|
    && (Sum(Positive(before)) <= total ==> after == before)
    && (Sum(Positive(before)) > total ==>
          Sum(after) == total
          && HandedOut(NeedKeys(facts, before), Zeros(|before|), Positive(before), after))
  }

  /** Repair never raises a fill, leaves a feasible total, and does nothing the second time. */
  lemma RepairSettles(facts: seq<TeamFacts>, before: seq<int>, after: seq<int>, again: seq<int>, total: nat)
    requires Repaired(facts, before, after, total) && Repaired(facts, after, again, total)
    ensures forall i :: 0 <= i < |after| ==> after[i] <= Max(0, before[i])
    ensures Sum(Positive(after)) == Min(total, Sum(Positive(before)))
    ensures again == after
  {
    if Sum(Positive(before)) > total {
      assert Positive(after) == after;
    }
  }

  /** The second loop of the repair: players still unclaimed raise fills towards capacity. */
  method SpreadRemaining(t: TeamTable, ordered: seq<nat>, players: nat)
    requires t.Valid() && Indices(ordered, |t.facts|)
    modifies t`minFill
    ensures t.Valid()
    ensures forall i :: 0 <= i < |t.facts| ==>
      old(t.minFill)[i] <= t.minFill[i] <= Max(old(t.minFill)[i], t.facts[i].capacity)
    ensures Sum(t.minFill) <= Sum(old(t.minFill)) + players
    ensures players == 0 ==> t.minFill == old(t.minFill)
  {
    var remaining := players;
    for k := 0 to |ordered|
      invariant t.Valid() && 0 <= remaining <= players
      invariant forall i :: 0 <= i < |t.facts| ==>
        old(t.minFill)[i] <= t.minFill[i] <= Max(old(t.minFill)[i], t.facts[i].capacity)
      invariant Sum(t.minFill) == Sum(old(t.minFill)) + players - remaining
      invariant players == 0 ==> t.minFill == old(t.minFill)
    {
      if remaining <= 0 {
        break;
      }
      var i := ordered[k];
      var granted := Min(Max(0, t.facts[i].capacity - t.minFill[i]), remaining);
      SumUpdate(t.minFill, i, t.minFill[i] + granted);
      t.minFill := t.minFill[i := t.minFill[i] + granted];
      remaining := remaining - granted;
    }
  }

  /** The state of a greedy hand-out after the first k teams of the sorted list. */
  ghost predicate Greedy(ordered: seq<nat>, k: nat, low: seq<int>, high: seq<int>, x: seq<int>, total: int,
        remaining: int) {
    && |ordered| == |low| == |high| == |x| && k <= |ordered| && Indices(ordered, |x|)
    && 0 <= remaining && Sum(x) == total - remaining
    && (forall i :: 0 <= i < |x| ==> low[i] <= x[i] <= high[i])
    && (forall j :: k <= j < |ordered| ==> x[ordered[j]] == low[ordered[j]])
    && (remaining > 0 ==> forall j :: 0 <= j < k ==> x[ordered[j]] == high[ordered[j]])
    && (forall i, j :: 0 <= i < j < k && x[ordered[i]] < high[ordered[i]] ==> x[ordered[j]] == low[ordered[j]])
  }

  lemma GreedyStep(ordered: seq<nat>, keys: seq<Key>, k: nat, low: seq<int>, high: seq<int>, x: seq<int>, total: int,
        remaining: int)
    returns (next: seq<int>)
    requires IsSorted(ordered, keys) && Greedy(ordered, k, low, high, x, total, remaining) && k < |ordered|
    ensures var i := ordered[k];
      var granted := Min(high[i] - x[i], remaining);
      next == x[i := x[i] + granted] && (granted == 0 ==> next == x)
      && Greedy(ordered, k + 1, low, high, next, total, remaining - granted)
  {
    var i := ordered[k];
    forall j | 0 <= j < |ordered| && j != k ensures ordered[j] != i {
      SortedDistinct(ordered, keys, j, k);
    }
    next := x[i := x[i] + Min(high[i] - x[i], remaining)];
    SumUpdate(x, i, x[i] + Min(high[i] - x[i], remaining));
  }

  /** A finished hand-out is one in the order of the keys and as large as the room allows. */
  lemma GreedyTotal(ordered: seq<nat>, keys: seq<Key>, k: nat, low: seq<int>, high: seq<int>, x: seq<int>,
        total: int, remaining: int)
    requires IsSorted(ordered, keys) && Greedy(ordered, k, low, high, x, total, remaining)
    requires k == |ordered| || remaining == 0
    ensures HandedOut(keys, low, high, x)
    ensures Sum(x) == Min(total, Sum(high)) && (remaining == 0 <==> total <= Sum(high))
  {
    SumLe(x, high);
    GreedyDone(ordered, keys, k, low, high, x, total, remaining);
  }

  /** The order of a finished hand-out; players are left over only if all are full. */
  lemma GreedyDone(ordered: seq<nat>, keys: seq<Key>, k: nat, low: seq<int>, high: seq<int>, x: seq<int>, total: int,
        remaining: int)
    requires IsSorted(ordered, keys) && Greedy(ordered, k, low, high, x, total, remaining)
    requires k == |ordered| || remaining == 0
    ensures HandedOut(keys, low, high, x)
    ensures remaining > 0 ==> x == high
  {
    forall i, j | 0 <= i < |x| && 0 <= j < |x| && Before(keys, i, j) && x[i] < high[i] ensures x[j] == low[j] {
      var pi, pj := EarlierPosition(ordered, keys, i, j);
    }
    if remaining > 0 {
      forall i | 0 <= i < |x| ensures x[i] == high[i] {
        assert i in ordered;
      }
    }
  }

  /** Fewer players, then fewer hitters, then fewer pitchers, then the greater fill, then the smaller id. */
  ghost predicate NeedsMore(x: TeamFacts, fillOfX: int, y: TeamFacts, fillOfY: int) {
    || x.playerCount < y.playerCount
    || (x.playerCount == y.playerCount
        && (|| x.hitterCount < y.hitterCount
            || (x.hitterCount == y.hitterCount
                && (|| x.pitcherCount < y.pitcherCount
                    || (x.pitcherCount == y.pitcherCount
                        && (fillOfX > fillOfY || (fillOfX == fillOfY && x.id < y.id)))))))
  }

  /** While a team that needs more is below its fill, a team that needs less keeps none. */
  lemma NeediestKeepFills(facts: seq<TeamFacts>, before: seq<int>, after: seq<int>, total: nat, i: nat, j: nat)
    requires Repaired(facts, before, after, total) && Sum(Positive(before)) > total
    requires i < |facts| && j < |facts| && NeedsMore(facts[i], before[i], facts[j], before[j])
    ensures after[i] == Max(0, before[i]) || after[j] == 0
  {
    assert Before(NeedKeys(facts, before), i, j);
  }

  method MakeMinFillsFeasible(t: TeamTable, total: nat)
    requires t.Valid()
    modifies t`minFill
    ensures t.Valid() && Repaired(t.facts, old(t.minFill), t.minFill, total)
  {
    ghost var before := t.minFill;
    ghost var n := |t.facts|;
    if Sum(Positive(t.minFill)) <= total {
      return;
    }
    var remaining := total;
    var keys := NeedKeys(t.facts, t.minFill);
    var ordered := SortedOrder(keys);
    ghost var high := Positive(before);
    ghost var done := Zeros(n);
    SumZero(done);
    for k := 0 to |ordered|
      invariant t.Valid() && Greedy(ordered, k, Zeros(n), high, done, total, remaining)
      invariant forall j :: 0 <= j < k ==> t.minFill[ordered[j]] == done[ordered[j]]
      invariant forall j :: k <= j < n ==> t.minFill[ordered[j]] == before[ordered[j]]
    {
      var i := ordered[k];
      forall j | 0 <= j < n && j != k ensures ordered[j] != i {
        SortedDistinct(ordered, keys, j, k);
      }
      var requested := Max(0, t.minFill[i]);
      var granted := Min(requested, remaining);
      done := GreedyStep(ordered, keys, k, Zeros(n), high, done, total, remaining);
      t.minFill := t.minFill[i := granted];
      remaining := remaining - granted;
    }
    GreedyDone(ordered, keys, n, Zeros(n), high, done, total, remaining);
    forall i | 0 <= i < n ensures t.minFill[i] == done[i] {
      assert i in ordered;
    }
    assert t.minFill == done;
    SpreadRemaining(t, ordered, remaining);
  }

  // ----- targets of an existing batch -----

  /** Best team first: percentile, then reputation, then id, all descending. */
  function RankKeys(facts: seq<TeamFacts>): (r: seq<Key>)
    ensures |r| == |facts|
  {
    seq(|facts|, i requires 0 <= i < |facts| =>
      Key(-facts[i].percentile, -(facts[i].reputation as real), -(facts[i].id as real), 0.0, 0.0))
  }

  /** The better percentile, then the better reputation, then the greater id. */
  ghost predicate RanksHigher(x: TeamFacts, y: TeamFacts) {
    || x.percentile > y.percentile
    || (x.percentile == y.percentile
        && (x.reputation > y.reputation || (x.reputation == y.reputation && x.id > y.id)))
  }

  /** While a team that ranks higher has room, a team that ranks lower has no more than it started with. */
  lemma HigherRanksFirst(facts: seq<TeamFacts>, low: seq<int>, high: seq<int>, x: seq<int>, i: nat, j: nat)
    requires |facts| == |low| == |high| == |x| && HandedOut(RankKeys(facts), low, high, x)
    requires i < |x| && j < |x| && RanksHigher(facts[i], facts[j])
    ensures x[i] == high[i] || x[j] == low[j]
  {
    assert Before(RankKeys(facts), i, j);
  }

  /** The rank loop: further players fill the teams up, best team first. */
  method FillTeams(t: TeamTable, keys: seq<Key>, ordered: seq<nat>, capacities: seq<int>, players: nat)
    returns (k: nat, remaining: int)
    requires t.Valid() && IsSorted(ordered, keys)
    requires Greedy(ordered, 0, t.target, capacities, t.target, Sum(t.target) + players, players)
    modifies t`target
    ensures t.Valid() && (k == |ordered| || remaining == 0)
    ensures Greedy(ordered, k, old(t.target), capacities, t.target, Sum(old(t.target)) + players, remaining)
  {
    remaining := players;
    ghost var low := t.target;
    ghost var total := Sum(low) + players;
    k := 0;
    while k < |ordered| && remaining > 0
      invariant t.Valid() && k <= |ordered| && Greedy(ordered, k, low, capacities, t.target, total, remaining)
    {
      var i := ordered[k];
      ghost var next := GreedyStep(ordered, keys, k, low, capacities, t.target, total, remaining);
      k := k + 1;
      var open := capacities[i] - t.target[i];
      if open > 0 {
        var added := Min(open, remaining);
        t.target := t.target[i := t.target[i] + added];
        remaining := remaining - added;
      }
      assert t.target == next;
    }
  }

  method FillByRank(t: TeamTable, players: nat) returns (ok: bool)
    requires t.Valid()
    requires forall i :: 0 <= i < |t.facts| ==> t.target[i] <= t.facts[i].capacity
    modifies t`target
    ensures t.Valid() && HandedOut(RankKeys(t.facts), old(t.target), CapacityColumn(t.facts), t.target)
    ensures Sum(t.target) == Min(Sum(old(t.target)) + players, Sum(CapacityColumn(t.facts)))
    ensures ok <==> Sum(old(t.target)) + players <= Sum(CapacityColumn(t.facts))
  {
    var capacities := CapacityColumn(t.facts);
    var keys := RankKeys(t.facts);
    var ordered := SortedOrder(keys);
    ghost var low := t.target;
    var k, remaining := FillTeams(t, keys, ordered, capacities, players);
    GreedyTotal(ordered, keys, k, low, capacities, t.target, Sum(low) + players, remaining);
    ok := remaining <= 0;
  }

  /** Success, exactness, bounds, and rank order of the existing-batch targets. */
  method AllocateExistingTargets(t: TeamTable, total: nat) returns (ok: bool)
    requires t.Valid()
    requires forall i :: 0 <= i < |t.facts| ==> 0 <= t.minFill[i] <= t.facts[i].capacity
    modifies t`minFill, t`target
    ensures t.Valid()
    ensures ok <==> t.facts != [] && total <= Sum(CapacityColumn(t.facts))
    ensures ok ==> Repaired(t.facts, old(t.minFill), t.minFill, total)
    ensures ok ==> Sum(t.target) == total && HandedOut(RankKeys(t.facts), t.minFill, CapacityColumn(t.facts), t.target)
    ensures ok ==> forall i, j :: 0 <= i < |t.facts| && 0 <= j < |t.facts| && RanksHigher(t.facts[i], t.facts[j]) ==>
      t.target[i] == t.facts[i].capacity || t.target[j] == t.minFill[j]
    ensures !ok ==> t.minFill == old(t.minFill) && t.target == old(t.target)
  {
    if |t.facts| == 0 {
      return false;
    }
    if Sum(CapacityColumn(t.facts)) < total {
      return false;
    }
    ghost var before := t.minFill;
    assert Positive(before) == before;
    MakeMinFillsFeasible(t, total);
    t.target := seq(|t.facts|, _ => 0);
    var minTotal := Sum(t.minFill);
    var remaining := total;
    if minTotal <= total {
      t.target := t.minFill;
      remaining := total - minTotal;
    }
    var filled := FillByRank(t, remaining);
    ok := filled && Sum(t.target) == total;
    forall i, j | 0 <= i < |t.facts| && 0 <= j < |t.facts| && RanksHigher(t.facts[i], t.facts[j])
      ensures t.target[i] == t.facts[i].capacity || t.target[j] == t.minFill[j]
    {
      HigherRanksFirst(t.facts, t.minFill, CapacityColumn(t.facts), t.target, i, j);
    }
  }
}
