/** Splitting team targets into hitters and pitchers when the batch has no detailed buckets. */
module RoleSplit {
  import opened Sums
  import opened Ordering
  import opened TeamTables
  import opened Targets
  import IncomingTargets

  // ----- per-team bounds and priorities -----

  function RealMax(a: real, b: real): real {
    if a >= b then a else b
  }

  function RealMin(a: real, b: real): real {
    if a <= b then a else b
  }

  function FloorShare(total: int, share: real): int {
    ((total as real) * share).Floor
  }

  function CeilShare(total: int, share: real): int {
    IncomingTargets.Ceil((total as real) * share)
  }

  /** The fewest hitters on the finished team, and the most. */
  function LeastHitters(finalTotal: int, share: real, tolerance: real): int {
    FloorShare(finalTotal, RealMax(0.0, share - tolerance))
  }

  function MostHitters(finalTotal: int, share: real, tolerance: real): int {
    CeilShare(finalTotal, RealMin(1.0, share + tolerance))
  }

  /** How many of a team's new players must, and may, be hitters. */
  function RoleBounds(team: TeamFacts, target: int, share: real, tolerance: real): (r: (int, int))
    ensures 0 <= r.0 <= r.1 <= Max(0, target)
  {
    if target <= 0 then (0, 0)
    else
      var finalTotal := team.playerCount + target;
      var low := Min(target, Max(0, LeastHitters(finalTotal, share, tolerance) - team.hitterCount));
      var high := Min(target, Max(0, MostHitters(finalTotal, share, tolerance) - team.hitterCount));
      (low, if high < low then low else high)
  }

  lemma Product(total: real, a: real, b: real)
    requires total >= 0.0 && a <= b
    ensures total * a <= total * b
  {
    assert total * (b - a) >= 0.0;
  }

  lemma FloorsOrdered(x: real, y: real)
    requires x <= y
    ensures x.Floor <= y.Floor && IncomingTargets.Ceil(x) <= IncomingTargets.Ceil(y)
    ensures x.Floor <= IncomingTargets.Ceil(y)
  {
  }

  lemma SharesOrdered(total: int, a: real, b: real)
    requires total >= 0 && a <= b
    ensures FloorShare(total, a) <= FloorShare(total, b)
    ensures CeilShare(total, a) <= CeilShare(total, b)
    ensures FloorShare(total, a) <= CeilShare(total, b)
  {
    Product(total as real, a, b);
    FloorsOrdered((total as real) * a, (total as real) * b);
  }

  lemma LeastFalls(finalTotal: int, share: real, narrow: real, wide: real)
    requires finalTotal >= 0 && narrow <= wide
    ensures LeastHitters(finalTotal, share, wide) <= LeastHitters(finalTotal, share, narrow)
  {
    SharesOrdered(finalTotal, RealMax(0.0, share - wide), RealMax(0.0, share - narrow));
  }

  lemma MostRises(finalTotal: int, share: real, narrow: real, wide: real)
    requires finalTotal >= 0 && narrow <= wide
    ensures MostHitters(finalTotal, share, narrow) <= MostHitters(finalTotal, share, wide)
  {
    SharesOrdered(finalTotal, RealMin(1.0, share + narrow), RealMin(1.0, share + wide));
  }

  lemma LeastBelowMost(finalTotal: int, share: real, tolerance: real)
    requires finalTotal >= 0 && tolerance >= 0.0 && 0.0 <= share <= 1.0
    ensures LeastHitters(finalTotal, share, tolerance) <= MostHitters(finalTotal, share, tolerance)
  {
    SharesOrdered(finalTotal, RealMax(0.0, share - tolerance), RealMin(1.0, share + tolerance));
  }

  /** Each step of the tolerance ladder only widens the bounds. */
  lemma ToleranceWidens(team: TeamFacts, target: int, share: real, narrow: real, wide: real)
    requires team.playerCount + target >= 0 && 0.0 <= narrow <= wide && 0.0 <= share <= 1.0
    ensures RoleBounds(team, target, share, wide).0 <= RoleBounds(team, target, share, narrow).0
    ensures RoleBounds(team, target, share, narrow).1 <= RoleBounds(team, target, share, wide).1
  {
    if target > 0 {
      LeastFalls(team.playerCount + target, share, narrow, wide);
      MostRises(team.playerCount + target, share, narrow, wide);
      LeastBelowMost(team.playerCount + target, share, narrow);
    }
  }

  function NeedPriority(team: TeamFacts, target: int, share: real): real {
    var finalTotal := team.playerCount + target;
    if finalTotal <= 0 then 0.0 else share - (team.hitterCount as real) / (finalTotal as real)
  }

  /** Need is what the team's present hitters lack to the share, as a part of its final size. */
  lemma NeedPriorityIs(team: TeamFacts, target: int, share: real)
    ensures team.playerCount + target <= 0 ==> NeedPriority(team, target, share) == 0.0
    ensures team.playerCount + target > 0 ==>
      NeedPriority(team, target, share) * ((team.playerCount + target) as real)
      == share * ((team.playerCount + target) as real) - (team.hitterCount as real)
  {
    if team.playerCount + target > 0 {
      var d := (team.playerCount + target) as real;
      var q := (team.hitterCount as real) / d;
      assert q * d == team.hitterCount as real;
      assert (share - q) * d == share * d - q * d;
    }
  }

  /**
   What the bounds mean for the finished team: the minimum never asks for more than the whole hitters of the lower
   share, and asks for all of them if the target allows; the maximum allows the upper share rounded up.
   */
  lemma RoleBoundsMean(team: TeamFacts, target: int, share: real, tolerance: real)
    requires target > 0
    ensures var size := (team.playerCount + target) as real;
      var lowest := if share - tolerance > 0.0 then share - tolerance else 0.0;
      var low := RoleBounds(team, target, share, tolerance).0;
      && (low > 0 ==> (team.hitterCount + low) as real <= size * lowest)
      && (low < target ==> size * lowest < (team.hitterCount + low + 1) as real)
    ensures var size := (team.playerCount + target) as real;
      var highest := if share + tolerance < 1.0 then share + tolerance else 1.0;
      var low, high := RoleBounds(team, target, share, tolerance).0, RoleBounds(team, target, share, tolerance).1;
      && (high > low ==> (team.hitterCount + high) as real < size * highest + 1.0)
      && (high < target ==> size * highest <= (team.hitterCount + high) as real)
  {
  }

  // ----- sorted lists of team entries -----

  predicate Ascending(list: seq<nat>, keys: seq<Key>) {
    && Indices(list, |keys|)
    && forall j, k :: 0 <= j < k < |list| ==> !Below(keys[list[k]], keys[list[j]])
  }

  lemma AscendingSnoc(list: seq<nat>, keys: seq<Key>, last: nat)
    requires Ascending(list, keys) && last < |keys|
    requires forall x :: x in list ==> x < |keys| && !Below(keys[last], keys[x])
    ensures Ascending(list + [last], keys)
  {
    var r := list + [last];
    forall j, k | 0 <= j < k < |r| ensures !Below(keys[r[k]], keys[r[j]]) {
      var x := list[j];
      assert x in list;
    }
  }

  lemma LastIsGreatest(list: seq<nat>, keys: seq<Key>, x: nat)
    requires Ascending(list, keys) && list != [] && x in list
    ensures x < |keys| && !Below(keys[list[|list| - 1]], keys[x])
  {
    var j :| 0 <= j < |list| && list[j] == x;
  }

  lemma InsertBefore(list: seq<nat>, keys: seq<Key>, i: nat, r: seq<nat>)
    requires Ascending(list, keys) && i < |keys| && list != [] && Below(keys[i], keys[list[|list| - 1]])
    requires Ascending(r, keys) && forall x :: x in r ==> x == i || x in list[..|list| - 1]
    ensures Ascending(r + [list[|list| - 1]], keys)
  {
    var last := list[|list| - 1];
    forall x | x in r ensures x < |keys| && !Below(keys[last], keys[x]) {
      if x in list[..|list| - 1] {
        LastIsGreatest(list, keys, x);
      }
    }
    AscendingSnoc(r, keys, last);
  }

  lemma InsertAfter(list: seq<nat>, keys: seq<Key>, i: nat)
    requires Ascending(list, keys) && i < |keys| && list != [] && !Below(keys[i], keys[list[|list| - 1]])
    ensures Ascending(list + [i], keys)
  {
    forall x | x in list ensures x < |keys| && !Below(keys[i], keys[x]) {
      LastIsGreatest(list, keys, x);
    }
    AscendingSnoc(list, keys, i);
  }

  function InsertEntry(list: seq<nat>, keys: seq<Key>, i: nat): (r: seq<nat>)
    requires Ascending(list, keys) && i < |keys|
    ensures Ascending(r, keys) && multiset(r) == multiset(list) + multiset{i}
    ensures forall x :: x in r ==> x == i || x in list
  {
    if list == [] then [i]
    else
      var front, last := list[..|list| - 1], list[|list| - 1];
      assert list == front + [last];
      if Below(keys[i], keys[last]) then
        var r := InsertEntry(front, keys, i);
        InsertBefore(list, keys, i, r);
        r + [last]
      else
        InsertAfter(list, keys, i);
        list + [i]
  }

  /** The entries in ascending order of their teams' keys. */
  function SortedEntries(entries: seq<nat>, keys: seq<Key>): (r: seq<nat>)
    requires Indices(entries, |keys|)
    ensures Ascending(r, keys) && multiset(r) == multiset(entries)
  {
    if entries == [] then []
    else
      assert entries == entries[..|entries| - 1] + [entries[|entries| - 1]];
      InsertEntry(SortedEntries(entries[..|entries| - 1], keys), keys, entries[|entries| - 1])
  }

  function Repeat(i: nat, n: nat): (r: seq<nat>)
    ensures |r| == n && multiset(r)[i] == n
    ensures forall j: nat :: j != i ==> multiset(r)[j] == 0
    ensures forall k :: 0 <= k < |r| ==> r[k] == i
  {
    if n == 0 then [] else Repeat(i, n - 1) + [i]
  }

  /** Team i listed as often as its amount says. */
  function Expanded(amounts: seq<int>): (r: seq<nat>)
    ensures Indices(r, |amounts|)
    ensures forall i: nat :: multiset(r)[i] == if i < |amounts| then Max(0, amounts[i]) else 0
    ensures |r| == Sum(Positive(amounts))
  {
    if amounts == [] then []
    else
      var n := |amounts| - 1;
      assert Positive(amounts)[..n] == Positive(amounts[..n]);
      Expanded(amounts[..n]) + Repeat(n, Max(0, amounts[n]))
  }

  /** How often team i is still listed from position k on. */
  ghost function Rest(list: seq<nat>, k: nat, i: nat): nat
    requires k <= |list|
  {
    multiset(list[k..])[i]
  }

  lemma RestStep(list: seq<nat>, k: nat, i: nat)
    requires k < |list|
    ensures Rest(list, k, i) == Rest(list, k + 1, i) + (if list[k] == i then 1 else 0)
  {
    assert list[k..] == [list[k]] + list[k + 1..];
  }

  /** Once entries of i are used up to k while j still has some behind k, j does not come before i. */
  lemma UsedInOrder(list: seq<nat>, keys: seq<Key>, k: nat, i: nat, j: nat)
    requires Ascending(list, keys) && k <= |list| && i < |keys| && j < |keys|
    requires Rest(list, k, i) < Rest(list, 0, i) && 0 < Rest(list, k, j)
    ensures !Below(keys[j], keys[i])
  {
    assert list[0..] == list[..k] + list[k..];
    assert i in multiset(list[..k]) && j in multiset(list[k..]);
    assert i in list[..k] && j in list[k..];
    var pi :| 0 <= pi < k && list[..k][pi] == i;
    var pj :| 0 <= pj < |list| - k && list[k..][pj] == j;
    assert list[pi] == i && list[k + pj] == j;
  }

  // ----- the repair loops -----

  function Negated(keys: seq<Key>): (r: seq<Key>)
    ensures |r| == |keys|
    ensures forall i :: 0 <= i < |r| ==> r[i] == Key(-keys[i].a, -keys[i].b, -keys[i].c, -keys[i].d, -keys[i].e)
  {
    seq(|keys|, i requires 0 <= i < |keys| => Key(-keys[i].a, -keys[i].b, -keys[i].c, -keys[i].d, -keys[i].e))
  }

  predicate DistinctKeys(keys: seq<Key>) {
    forall i, j :: 0 <= i < j < |keys| ==> keys[i] != keys[j]
  }

  /** The amounts still listed from position k on. */
  ghost predicate Listed(list: seq<nat>, k: nat, amounts: seq<int>) {
    && k <= |list| && Indices(list, |amounts|)
    && forall i :: 0 <= i < |amounts| ==> amounts[i] == Rest(list, k, i)
  }

  lemma ListedStep(list: seq<nat>, k: nat, amounts: seq<int>)
    requires Listed(list, k, amounts) && k < |list|
    ensures amounts[list[k]] > 0
    ensures Listed(list, k + 1, amounts[list[k] := amounts[list[k]] - 1])
  {
    var t := list[k];
    forall i | 0 <= i < |amounts|
      ensures Rest(list, k, i) == Rest(list, k + 1, i) + (if t == i then 1 else 0)
    {
      RestStep(list, k, i);
    }
  }

  lemma ListedStart(amounts: seq<int>, keys: seq<Key>)
    requires |amounts| == |keys| && forall i :: 0 <= i < |amounts| ==> 0 <= amounts[i]
    ensures var list := SortedEntries(Expanded(amounts), keys);
      Listed(list, 0, amounts) && |list| == Sum(amounts)
  {
    var entries := Expanded(amounts);
    var list := SortedEntries(entries, keys);
    assert Positive(amounts) == amounts;
    assert |list| == |multiset(list)| == |multiset(entries)| == |entries|;
    assert list[0..] == list;
    assert forall k :: 0 <= k < |list| ==> list[k] < |keys|;
  }

  /** Each team listed as often as its amount says, in ascending order of the keys. */
  method SortedList(amounts: seq<int>, keys: seq<Key>) returns (list: seq<nat>)
    requires |amounts| == |keys| && forall i :: 0 <= i < |amounts| ==> 0 <= amounts[i]
    ensures Ascending(list, keys) && Listed(list, 0, amounts) && |list| == Sum(amounts)
  {
    list := SortedEntries(Expanded(amounts), keys);
    ListedStart(amounts, keys);
  }

  /** Working through a sorted list up to k hands its amounts out in the order of the keys. */
  lemma ListedOrder(list: seq<nat>, keys: seq<Key>, k: nat, all: seq<int>, rest: seq<int>, i: nat, j: nat)
    requires Ascending(list, keys) && |all| == |keys| == |rest|
    requires Listed(list, 0, all) && Listed(list, k, rest) && i < |keys| && j < |keys|
    requires rest[i] < all[i] && 0 < rest[j]
    ensures !Below(keys[j], keys[i])
  {
    UsedInOrder(list, keys, k, i, j);
  }

  lemma {:induction false} RestShrinks(list: seq<nat>, k: nat, all: seq<int>, rest: seq<int>)
    requires Listed(list, 0, all) && Listed(list, k, rest) && |all| == |rest|
    ensures forall i :: 0 <= i < |all| ==> 0 <= rest[i] <= all[i]
  {
    assert list[0..] == list[..k] + list[k..];
  }

  /** The first repair after k hitters given up. */
  ghost predicate Shrinking(list: seq<nat>, k: nat, low: seq<int>, r: seq<int>) {
    |r| == |low| && Listed(list, k, r) && Sum(r) == Sum(low) - k
  }

  lemma ShrinkingStep(list: seq<nat>, k: nat, low: seq<int>, r: seq<int>, next: seq<int>)
    requires k < |list| && Shrinking(list, k, low, r) && list[k] < |r|
    requires next == r[list[k] := r[list[k]] - 1]
    ensures r[list[k]] > 0 && Shrinking(list, k + 1, low, next)
  {
    ListedStep(list, k, r);
    SumUpdate(r, list[k], r[list[k]] - 1);
  }

  /** Works through the listed minimums in order until the excess is gone or the list ends. */
  method ShrinkInOrder(low: seq<int>, reducible: seq<nat>, excess: nat) returns (r: seq<int>)
    requires Shrinking(reducible, 0, low, low)
    ensures Shrinking(reducible, Min(excess, |reducible|), low, r)
  {
    r := low;
    var left, i := excess, 0;
    while i < |reducible| && left > 0
      invariant i <= |reducible| && left == excess - i
      invariant Shrinking(reducible, i, low, r)
    {
      var t := reducible[i];
      var next := r[t := r[t] - 1];
      ShrinkingStep(reducible, i, low, r, next);
      if r[t] > 0 {
        r := next;
        left := left - 1;
      }
      i := i + 1;
    }
  }

  /** The first repair: minimums give up hitters, lowest priority first, until `hitters` remain. */
  method ShrinkMinimums(low: seq<int>, keys: seq<Key>, hitters: nat) returns (r: seq<int>)
    requires |low| == |keys| && DistinctKeys(keys)
    requires forall i :: 0 <= i < |low| ==> 0 <= low[i]
    requires hitters < Sum(low)
    ensures |r| == |low| && Sum(r) == hitters
    ensures HandedOut(Negated(keys), Zeros(|low|), low, r)
  {
    var reducible := SortedList(low, keys);
    r := ShrinkInOrder(low, reducible, Sum(low) - hitters);
    Shrunk(reducible, keys, Min(Sum(low) - hitters, |reducible|), low, r);
  }

  lemma Shrunk(list: seq<nat>, keys: seq<Key>, k: nat, low: seq<int>, r: seq<int>)
    requires Ascending(list, keys) && |low| == |keys| == |r| && DistinctKeys(keys)
    requires Listed(list, 0, low) && Listed(list, k, r)
    ensures HandedOut(Negated(keys), Zeros(|low|), low, r)
  {
    var order := Negated(keys);
    RestShrinks(list, k, low, r);
    forall i, j | 0 <= i < |r| && 0 <= j < |r| && Before(order, i, j) && r[i] < low[i] ensures r[j] == 0 {
      if r[j] > 0 {
        ListedOrder(list, keys, k, low, r, i, j);
      }
    }
  }

  /** The second repair after k further hitters, with `rest` slots still open. */
  ghost predicate Growing(list: seq<nat>, k: nat, high: seq<int>, target: seq<int>, rest: seq<int>, r: seq<int>) {
    && |r| == |high| == |target| == |rest| && Listed(list, k, rest)
    && Sum(r) == Sum(high) + k
    && forall i :: 0 <= i < |r| ==> r[i] == target[i] - rest[i]
  }

  lemma GrowingStep(list: seq<nat>, k: nat, high: seq<int>, target: seq<int>, rest: seq<int>, r: seq<int>,
        next: seq<int>)
    requires k < |list| && Growing(list, k, high, target, rest, r) && list[k] < |r|
    requires next == r[list[k] := r[list[k]] + 1]
    ensures r[list[k]] < target[list[k]]
    ensures Growing(list, k + 1, high, target, rest[list[k] := rest[list[k]] - 1], next)
  {
    ListedStep(list, k, rest);
    SumUpdate(r, list[k], r[list[k]] + 1);
  }

  /** Works through the open slots in order until the shortage is gone or the list ends. */
  method GrowInOrder(high: seq<int>, target: seq<int>, expandable: seq<nat>, shortage: nat)
    returns (r: seq<int>)
    requires |high| == |target| && Growing(expandable, 0, high, target, Minus(target, high), high)
    ensures |r| == |target| && Growing(expandable, Min(shortage, |expandable|), high, target, Minus(target, r), r)
  {
    r := high;
    ghost var rest := Minus(target, high);
    var left, i := shortage, 0;
    while i < |expandable| && left > 0
      invariant i <= |expandable| && left == shortage - i
      invariant Growing(expandable, i, high, target, rest, r)
    {
      var t := expandable[i];
      var next := r[t := r[t] + 1];
      GrowingStep(expandable, i, high, target, rest, r, next);
      if r[t] < target[t] {
        r := next;
        left := left - 1;
      }
      rest := rest[t := rest[t] - 1];
      i := i + 1;
    }
    assert rest == Minus(target, r);
  }

  lemma GrowStart(list: seq<nat>, high: seq<int>, target: seq<int>, open: seq<int>)
    requires |high| == |target| == |open| && Listed(list, 0, open) && open == Minus(target, high)
    ensures Growing(list, 0, high, target, Minus(target, high), high)
  {
  }

  /** The second repair: maximums take further hitters, highest priority first, while slots are open. */
  method GrowMaximums(high: seq<int>, target: seq<int>, keys: seq<Key>, hitters: nat) returns (r: seq<int>)
    requires |high| == |target| == |keys| && DistinctKeys(keys)
    requires forall i :: 0 <= i < |high| ==> 0 <= high[i] <= target[i]
    requires Sum(high) < hitters
    ensures |r| == |high| && Sum(r) == Min(hitters, Sum(target))
    ensures HandedOut(keys, high, target, r)
  {
    var open := Minus(target, high);
    SumMinus(target, high);
    var expandable := SortedList(open, keys);
    GrowStart(expandable, high, target, open);
    r := GrowInOrder(high, target, expandable, hitters - Sum(high));
    Grown(expandable, keys, Min(hitters - Sum(high), |expandable|), high, target, open, Minus(target, r), r);
  }

  function Minus(a: seq<int>, b: seq<int>): (r: seq<int>)
    requires |a| == |b|
    ensures |r| == |a| && forall i :: 0 <= i < |r| ==> r[i] == a[i] - b[i]
  {
    seq(|a|, i requires 0 <= i < |a| => a[i] - b[i])
  }

  lemma SumMinus(a: seq<int>, b: seq<int>)
    requires |a| == |b|
    ensures Sum(Minus(a, b)) == Sum(a) - Sum(b)
  {
    SumsSplit(Minus(a, b), b, a);
  }

  lemma Grown(list: seq<nat>, keys: seq<Key>, k: nat, high: seq<int>, target: seq<int>, open: seq<int>,
        rest: seq<int>, r: seq<int>)
    requires Ascending(list, keys) && |high| == |target| == |keys| == |open| == |rest| && DistinctKeys(keys)
    requires |r| == |rest| && forall i :: 0 <= i < |r| ==> open[i] == target[i] - high[i] && r[i] == target[i] - rest[i]
    requires Listed(list, 0, open) && Listed(list, k, rest)
    ensures HandedOut(keys, high, target, r)
  {
    RestShrinks(list, k, open, rest);
    forall i, j | 0 <= i < |r| && 0 <= j < |r| && Before(keys, i, j) && r[i] < target[i] ensures r[j] == high[j] {
      if rest[j] < open[j] {
        ListedOrder(list, keys, k, open, rest, j, i);
      }
    }
  }

  // ----- the split of an existing batch -----

  /** The mutable entries of a split: hitter minimum, hitter maximum, and the incoming hitter target. */
  class HitterSplit {
    const facts: seq<TeamFacts>
    const target: seq<int>
    var low: seq<int>
    var high: seq<int>
    var incoming: seq<int>

    ghost predicate Valid()
      reads this
    {
      && |facts| == |target| == |low| == |high| == |incoming| && DistinctTeams(facts)
      && forall i :: 0 <= i < |target| ==> 0 <= target[i]
    }

    constructor (facts: seq<TeamFacts>, target: seq<int>)
      requires |facts| == |target| && DistinctTeams(facts) && forall i :: 0 <= i < |target| ==> 0 <= target[i]
      ensures Valid() && this.facts == facts && this.target == target
    {
      this.facts, this.target := facts, target;
      this.low, this.high, this.incoming := target, target, target;
    }
  }

  function Lows(facts: seq<TeamFacts>, target: seq<int>, share: real, tolerance: real): (r: seq<int>)
    requires |facts| == |target|
    ensures |r| == |facts| && forall i :: 0 <= i < |r| ==> r[i] == RoleBounds(facts[i], target[i], share, tolerance).0
  {
    seq(|facts|, i requires 0 <= i < |facts| => RoleBounds(facts[i], target[i], share, tolerance).0)
  }

  function Highs(facts: seq<TeamFacts>, target: seq<int>, share: real, tolerance: real): (r: seq<int>)
    requires |facts| == |target|
    ensures |r| == |facts| && forall i :: 0 <= i < |r| ==> r[i] == RoleBounds(facts[i], target[i], share, tolerance).1
  {
    seq(|facts|, i requires 0 <= i < |facts| => RoleBounds(facts[i], target[i], share, tolerance).1)
  }

  /** Lowest need first, for taking; the grow order below puts highest need first, for giving. */
  function TakeKeys(facts: seq<TeamFacts>, target: seq<int>, share: real): (r: seq<Key>)
    requires |facts| == |target| && DistinctTeams(facts)
    ensures |r| == |facts| && DistinctKeys(r)
  {
    var r := seq(|facts|, i requires 0 <= i < |facts| =>
      Key(NeedPriority(facts[i], target[i], share), facts[i].percentile, facts[i].id as real, 0.0, 0.0));
    assert forall i :: 0 <= i < |r| ==> r[i].c == facts[i].id as real;
    r
  }

  /** The smaller need, then the worse percentile, then the smaller id, gives up hitters first. */
  lemma TakeOrder(facts: seq<TeamFacts>, target: seq<int>, share: real, i: nat, j: nat)
    requires |facts| == |target| && DistinctTeams(facts) && i < |facts| && j < |facts|
    ensures var x, y := NeedPriority(facts[i], target[i], share), NeedPriority(facts[j], target[j], share);
      Below(TakeKeys(facts, target, share)[i], TakeKeys(facts, target, share)[j]) <==>
      || x < y
      || (x == y && (facts[i].percentile < facts[j].percentile
                     || (facts[i].percentile == facts[j].percentile && facts[i].id < facts[j].id)))
  {
  }

  /** The greater need, then the better percentile, then the smaller id, takes further hitters first. */
  lemma GiveOrder(facts: seq<TeamFacts>, target: seq<int>, share: real, i: nat, j: nat)
    requires |facts| == |target| && DistinctTeams(facts) && i < |facts| && j < |facts|
    ensures var x, y := NeedPriority(facts[i], target[i], share), NeedPriority(facts[j], target[j], share);
      Below(GiveKeys(facts, target, share)[i], GiveKeys(facts, target, share)[j]) <==>
      || x > y
      || (x == y && (facts[i].percentile > facts[j].percentile
                     || (facts[i].percentile == facts[j].percentile && facts[i].id < facts[j].id)))
  {
  }

  function GiveKeys(facts: seq<TeamFacts>, target: seq<int>, share: real): (r: seq<Key>)
    requires |facts| == |target| && DistinctTeams(facts)
    ensures |r| == |facts| && DistinctKeys(r)
  {
    var r := seq(|facts|, i requires 0 <= i < |facts| =>
      Key(-NeedPriority(facts[i], target[i], share), -facts[i].percentile, facts[i].id as real, 0.0, 0.0));
    assert forall i :: 0 <= i < |r| ==> r[i].c == facts[i].id as real;
    r
  }

  /** Minimums and maximums after repair, from the per-team bounds `low0` and `high0`. */
  ghost predicate RepairedRange(facts: seq<TeamFacts>, target: seq<int>, share: real, hitters: nat,
                                low0: seq<int>, high0: seq<int>, low: seq<int>, high: seq<int>)
    requires |facts| == |target| == |low0| == |high0| == |low| == |high| && DistinctTeams(facts)
  {
    && (Sum(low0) <= hitters ==> low == low0)
    && (Sum(low0) > hitters ==>
          Sum(low) == hitters && HandedOut(Negated(TakeKeys(facts, target, share)), Zeros(|low|), low0, low))
    && (Sum(high0) >= hitters ==> high == high0)
    && (Sum(high0) < hitters ==>
          Sum(high) == Min(hitters, Sum(target)) && HandedOut(GiveKeys(facts, target, share), high0, target, high))
  }

  /** A team that has to give up hitters first is down to none before one that comes later gives up any. */
  lemma FirstToGiveUp(facts: seq<TeamFacts>, target: seq<int>, share: real, hitters: nat, low0: seq<int>,
        high0: seq<int>, low: seq<int>, high: seq<int>, i: nat, j: nat)
    requires |facts| == |target| == |low0| == |high0| == |low| == |high| && DistinctTeams(facts)
    requires RepairedRange(facts, target, share, hitters, low0, high0, low, high) && Sum(low0) > hitters
    requires i < |facts| && j < |facts|
    requires var x, y := NeedPriority(facts[i], target[i], share), NeedPriority(facts[j], target[j], share);
      || x < y
      || (x == y && (facts[i].percentile < facts[j].percentile
                     || (facts[i].percentile == facts[j].percentile && facts[i].id < facts[j].id)))
    ensures low[j] == low0[j] || low[i] == 0
  {
    TakeOrder(facts, target, share, i, j);
    assert Before(Negated(TakeKeys(facts, target, share)), j, i);
  }

  /** A team that takes further hitters first is full before one that comes later takes any. */
  lemma FirstToTake(facts: seq<TeamFacts>, target: seq<int>, share: real, hitters: nat, low0: seq<int>, high0: seq<int>,
        low: seq<int>, high: seq<int>, i: nat, j: nat)
    requires |facts| == |target| == |low0| == |high0| == |low| == |high| && DistinctTeams(facts)
    requires RepairedRange(facts, target, share, hitters, low0, high0, low, high) && Sum(high0) < hitters
    requires i < |facts| && j < |facts|
    requires var x, y := NeedPriority(facts[i], target[i], share), NeedPriority(facts[j], target[j], share);
      || x > y
      || (x == y && (facts[i].percentile > facts[j].percentile
                     || (facts[i].percentile == facts[j].percentile && facts[i].id < facts[j].id)))
    ensures high[i] == target[i] || high[j] == high0[j]
  {
    GiveOrder(facts, target, share, i, j);
    assert Before(GiveKeys(facts, target, share), i, j);
  }

  predicate RangesHold(low: seq<int>, high: seq<int>, target: seq<int>)
    requires |low| == |high| == |target|
  {
    forall i :: 0 <= i < |low| ==> 0 <= low[i] <= high[i] <= target[i]
  }

  /** What any repaired range satisfies; in particular only one of the two repairs ever acts. */
  lemma RepairedRangeHolds(facts: seq<TeamFacts>, target: seq<int>, share: real, hitters: nat,
                           low0: seq<int>, high0: seq<int>, low: seq<int>, high: seq<int>)
    requires |facts| == |target| == |low0| == |high0| == |low| == |high| && DistinctTeams(facts)
    requires RangesHold(low0, high0, target)
    requires RepairedRange(facts, target, share, hitters, low0, high0, low, high)
    ensures RangesHold(low, high, target)
    ensures Sum(low) <= hitters && (hitters <= Sum(high) <==> hitters <= Sum(target))
    ensures low == low0 || high == high0
  {
    SumLe(low0, high0);
    SumLe(high0, target);
    forall i | 0 <= i < |low| ensures 0 <= low[i] <= high[i] <= target[i] {
      assert 0 <= low0[i] <= high0[i] <= target[i];
      assert low[i] <= low0[i] && high0[i] <= high[i];
    }
  }

  /** Both repairs, of which at most one finds anything to do. */
  method RepairRange(facts: seq<TeamFacts>, target: seq<int>, share: real, hitters: nat, low0: seq<int>,
        high0: seq<int>)
    returns (low: seq<int>, high: seq<int>)
    requires |facts| == |target| == |low0| == |high0| && DistinctTeams(facts) && RangesHold(low0, high0, target)
    ensures |low| == |high| == |facts|
    ensures RepairedRange(facts, target, share, hitters, low0, high0, low, high)
  {
    low, high := low0, high0;
    if Sum(low) > hitters {
      low := ShrinkMinimums(low, TakeKeys(facts, target, share), hitters);
    }
    if Sum(high) < hitters {
      high := GrowMaximums(high, target, GiveKeys(facts, target, share), hitters);
    }
  }

  /** Minimums and maximums of an existing batch: success exactly when the hitters fit. */
  method PrepareExistingSplit(t: HitterSplit, share: real, tolerance: real, hitters: nat)
    returns (ok: bool, hitterCapacity: seq<int>, pitcherCapacity: seq<int>)
    requires t.Valid()
    modifies t`low, t`high
    ensures t.Valid()
    ensures RepairedRange(t.facts, t.target, share, hitters,
      Lows(t.facts, t.target, share, tolerance), Highs(t.facts, t.target, share, tolerance), t.low, t.high)
    ensures ok <==> hitters <= Sum(t.target)
    ensures RangesHold(t.low, t.high, t.target) && Sum(t.low) <= hitters && (ok ==> hitters <= Sum(t.high))
    ensures hitterCapacity == t.high && pitcherCapacity == Minus(t.target, t.low)
  {
    var low0, high0 := Lows(t.facts, t.target, share, tolerance), Highs(t.facts, t.target, share, tolerance);
    var low, high := RepairRange(t.facts, t.target, share, hitters, low0, high0);
    RepairedRangeHolds(t.facts, t.target, share, hitters, low0, high0, low, high);
    t.low, t.high := low, high;
    ok := Sum(low) <= hitters && Sum(high) >= hitters && RangesHold(low, high, t.target);
    hitterCapacity := high;
    pitcherCapacity := Minus(t.target, low);
  }

  /**
   The capacities leave room for an exact split: some hitter numbers add up to the hitters of the
   batch, fit the hitter capacities, and leave pitcher numbers that fit the pitcher capacities.
   */
  lemma {:induction false} SplitExists(target: seq<int>, low: seq<int>, high: seq<int>,
        hitters: int) returns (h: seq<int>)
    requires |low| == |high| == |target| && RangesHold(low, high, target)
    requires Sum(low) <= hitters <= Sum(high)
    ensures |h| == |target| && Sum(h) == hitters && Sum(Minus(target, h)) == Sum(target) - hitters
    ensures forall i :: 0 <= i < |h| ==> 0 <= h[i] <= high[i] && 0 <= target[i] - h[i] <= Minus(target, low)[i]
    decreases hitters - Sum(low)
  {
    if Sum(low) == hitters {
      h := low;
      SumMinus(target, h);
    } else {
      var i := SumBelowFindsEntry(low, high);
      SumUpdate(low, i, low[i] + 1);
      var next := low[i := low[i] + 1];
      h := SplitExists(target, next, high, hitters);
      forall j | 0 <= j < |h| ensures target[j] - h[j] <= Minus(target, low)[j] {
        assert Minus(target, next)[j] <= Minus(target, low)[j];
      }
    }
  }

  // ----- the split of an incoming batch -----

  /** Highest need first; ties keep the collected order. */
  function SpreadKeys(facts: seq<TeamFacts>, target: seq<int>, share: real): (r: seq<Key>)
    requires |facts| == |target|
    ensures |r| == |facts|
  {
    seq(|facts|, i requires 0 <= i < |facts| =>
      Key(-NeedPriority(facts[i], target[i], share), -facts[i].percentile, -(facts[i].reputation as real), 0.0, 0.0))
  }

  /** The greater need, then the better percentile, then the better reputation, is served first. */
  lemma SpreadOrder(facts: seq<TeamFacts>, target: seq<int>, share: real, i: nat, j: nat)
    requires |facts| == |target| && i < |facts| && j < |facts|
    ensures var x, y := NeedPriority(facts[i], target[i], share), NeedPriority(facts[j], target[j], share);
      Below(SpreadKeys(facts, target, share)[i], SpreadKeys(facts, target, share)[j]) <==>
      || x > y
      || (x == y && (facts[i].percentile > facts[j].percentile
                     || (facts[i].percentile == facts[j].percentile && facts[i].reputation > facts[j].reputation)))
  {
  }

  /** Round-robin after `level` full rounds and q teams of the next: water at one level or one above. */
  ghost predicate WaterFilled(order: seq<nat>, target: seq<int>, x: seq<int>, level: nat, q: nat)
    requires |order| == |target| == |x| && Indices(order, |x|)
  {
    forall k :: 0 <= k < |order| ==> x[order[k]] == Min(target[order[k]], if k < q then level + 1 else level)
  }

  /** No team falls more than one behind before it is full, and earlier teams never fall behind. */
  lemma WaterIsFair(order: seq<nat>, target: seq<int>, x: seq<int>, level: nat, q: nat, j: nat, k: nat)
    requires |order| == |target| == |x| && Indices(order, |x|) && WaterFilled(order, target, x, level, q)
    requires j < |order| && k < |order| && x[order[j]] < target[order[j]]
    ensures x[order[k]] <= x[order[j]] + 1
    ensures j <= k ==> x[order[k]] <= x[order[j]]
  {
  }

  /** The number of hitters and the order of the teams determine the water-fill. */
  lemma WaterIsUnique(order: seq<nat>, target: seq<int>, x: seq<int>, y: seq<int>, l: nat, q: nat, m: nat, r: nat)
    requires |order| == |target| == |x| == |y| && Indices(order, |x|) && forall i :: 0 <= i < |x| ==> i in order
    requires WaterFilled(order, target, x, l, q) && WaterFilled(order, target, y, m, r)
    requires q <= |order| && r <= |order| && Sum(x) == Sum(y)
    ensures x == y
  {
    if l < m || (l == m && q <= r) {
      forall i | 0 <= i < |x| ensures x[i] <= y[i] {
        assert i in order;
      }
      SumTight(x, y);
    } else {
      forall i | 0 <= i < |x| ensures y[i] <= x[i] {
        assert i in order;
      }
      SumTight(y, x);
    }
  }

  lemma WaterStep(order: seq<nat>, keys: seq<Key>, target: seq<int>, x: seq<int>, level: nat,
        q: nat) returns (next: seq<int>)
    requires IsSorted(order, keys) && |keys| == |target| == |x| && q < |order|
    requires WaterFilled(order, target, x, level, q)
    ensures |next| == |x| && WaterFilled(order, target, next, level, q + 1)
    ensures next == if x[order[q]] < target[order[q]] then x[order[q] := x[order[q]] + 1] else x
    ensures Sum(next) == Sum(x) + if x[order[q]] < target[order[q]] then 1 else 0
  {
    forall k | 0 <= k < |order| && k != q ensures order[k] != order[q] {
      SortedDistinct(order, keys, k, q);
    }
    SumUpdate(x, order[q], x[order[q]] + 1);
    next := if x[order[q]] < target[order[q]] then x[order[q] := x[order[q]] + 1] else x;
  }

  lemma RoundOver(order: seq<nat>, target: seq<int>, x: seq<int>, level: nat)
    requires |order| == |target| == |x| && Indices(order, |x|) && WaterFilled(order, target, x, level, |order|)
    ensures WaterFilled(order, target, x, level + 1, 0)
  {
  }

  lemma AllFull(order: seq<nat>, target: seq<int>, x: seq<int>, level: nat, q: nat)
    requires |order| == |target| == |x| && Indices(order, |x|) && WaterFilled(order, target, x, level, q)
    requires forall i :: 0 <= i < |x| ==> i in order
    ensures forall i :: 0 <= i < |x| ==> x[i] <= target[i]
    ensures (forall k :: 0 <= k < |order| ==> x[order[k]] >= target[order[k]]) ==> x == target
  {
    var done := forall k :: 0 <= k < |order| ==> x[order[k]] >= target[order[k]];
    forall i | 0 <= i < |x| ensures x[i] <= target[i] && (done ==> x[i] == target[i]) {
      assert i in order;
      var k :| 0 <= k < |order| && order[k] == i;
      assert x[order[k]] <= target[order[k]];
    }
  }

  /** A round after its first k teams: `placed` seats given since it began at x0, none only if those teams are full. */
  ghost predicate RoundDone(order: seq<nat>, target: seq<int>, x0: seq<int>, x: seq<int>, level: nat, k: nat,
        placed: nat)
    requires |order| == |target| == |x| && Indices(order, |x|) && k <= |order|
  {
    && WaterFilled(order, target, x, level, k)
    && Sum(x) == Sum(x0) + placed
    && (placed == 0 ==> forall j :: 0 <= j < k ==> x[order[j]] >= target[order[j]])
  }

  lemma RoundStep(order: seq<nat>, keys: seq<Key>, target: seq<int>, x0: seq<int>, x: seq<int>, level: nat, k: nat,
        placed: nat)
    requires IsSorted(order, keys) && |keys| == |target| == |x| && k < |order|
    requires RoundDone(order, target, x0, x, level, k, placed)
    ensures var i := order[k];
      if x[i] < target[i] then RoundDone(order, target, x0, x[i := x[i] + 1], level, k + 1, placed + 1)
      else RoundDone(order, target, x0, x, level, k + 1, placed)
  {
    var next := WaterStep(order, keys, target, x, level, k);
  }

  /** One round-robin round; it places nobody only when every team is full. */
  method SpreadRound(t: HitterSplit, ordered: seq<nat>, players: nat, ghost keys: seq<Key>, ghost level: nat)
    returns (remaining: nat, placed: bool, ghost q: nat)
    requires t.Valid() && players > 0 && IsSorted(ordered, keys) && |keys| == |t.target|
    requires WaterFilled(ordered, t.target, t.incoming, level, 0)
    modifies t`incoming
    ensures t.Valid() && q <= |ordered| && WaterFilled(ordered, t.target, t.incoming, level, q)
    ensures remaining <= players && Sum(t.incoming) == Sum(old(t.incoming)) + players - remaining
    ensures remaining > 0 ==> WaterFilled(ordered, t.target, t.incoming, level + 1, 0)
    ensures placed <==> remaining < players
    ensures !placed ==> t.incoming == t.target
  {
    remaining, placed, q := players, false, 0;
    var k := 0;
    while k < |ordered| && remaining > 0
      invariant t.Valid() && k <= |ordered| && q == k && 0 <= remaining <= players
      invariant RoundDone(ordered, t.target, old(t.incoming), t.incoming, level, k, players - remaining)
      invariant placed <==> remaining < players
    {
      var i := ordered[k];
      RoundStep(ordered, keys, t.target, old(t.incoming), t.incoming, level, k, players - remaining);
      if t.incoming[i] < t.target[i] {
        t.incoming := t.incoming[i := t.incoming[i] + 1];
        remaining := remaining - 1;
        placed := true;
      }
      k := k + 1;
      q := k;
    }
    AllFull(ordered, t.target, t.incoming, level, k);
    if remaining > 0 {
      RoundOver(ordered, t.target, t.incoming, level);
    }
  }

  /** Incoming hitters: success exactly when they fit, and then a water-fill in the order of need. */
  method SpreadIncomingHitters(t: HitterSplit, share: real, hitters: nat) returns (ok: bool, ghost level: nat,
        ghost q: nat)
    requires t.Valid()
    modifies t`incoming
    ensures t.Valid() && q <= |t.facts|
    ensures ok <==> hitters <= Sum(t.target)
    ensures ok ==> Sum(t.incoming) == hitters
    ensures WaterFilled(SortedOrder(SpreadKeys(t.facts, t.target, share)), t.target, t.incoming, level, q)
  {
    var n := |t.facts|;
    var keys := SpreadKeys(t.facts, t.target, share);
    var ordered := SortedOrder(keys);
    t.incoming := seq(n, _ => 0);
    SumZero(t.incoming);
    SumNonNegative(t.target);
    level, q := 0, 0;
    ok := true;
    if hitters <= 0 {
      return;
    }
    var remaining := hitters;
    while remaining > 0
      invariant t.Valid() && q <= n && 0 <= remaining <= hitters
      invariant WaterFilled(ordered, t.target, t.incoming, level, q)
      invariant remaining > 0 ==> q == 0
      invariant Sum(t.incoming) == hitters - remaining
    {
      var placed;
      remaining, placed, q := SpreadRound(t, ordered, remaining, keys, level);
      if !placed {
        ok := false;
        return;
      }
      if remaining > 0 {
        level, q := level + 1, 0;
      }
    }
    AllFull(ordered, t.target, t.incoming, level, q);
    SumLe(t.incoming, t.target);
  }
}
