/** Seat targets of an incoming batch: a highest-averages apportionment above the minimum fills. */
module IncomingTargets {
  import opened Sums
  import opened Ordering
  import opened TeamTables
  import opened Targets

  const MAX_AVERAGE_MULTIPLIER := 2.65
  const REPUTATION_FLOOR_WEIGHT := 0.03

  // ----- scores -----

  function Pow(x: real, n: nat): real {
    if n == 0 then 1.0 else x * Pow(x, n - 1)
  }

  /** `decay(s)` is s^1.15 over the positive slots: the positive real whose 20th power is s^23. */
  ghost predicate IsSlotDecay(decay: nat -> real) {
    forall s: nat :: 1 <= s ==> decay(s) > 0.0 && Pow(decay(s), 20) == Pow(s as real, 23)
  }

  lemma {:induction false} PowStrict(x: real, y: real, n: nat)
    requires 0.0 < x < y && 1 <= n
    ensures 0.0 < Pow(x, n) < Pow(y, n)
  {
    if n > 1 {
      PowStrict(x, y, n - 1);
      ProductStrict(x, y, Pow(x, n - 1), Pow(y, n - 1));
    } else {
      ProductStrict(x, y, 1.0, 1.0);
      assert Pow(x, 0) == 1.0 && Pow(y, 0) == 1.0;
    }
  }

  lemma ProductStrict(x: real, y: real, a: real, b: real)
    requires 0.0 < x < y && 0.0 < a <= b
    ensures 0.0 < x * a < y * b
  {
    assert 0.0 < x * a;
    assert y * a - x * a == (y - x) * a > 0.0;
    assert y * b - y * a == y * (b - a) >= 0.0;
  }

  lemma DecayGrows(decay: nat -> real, s: nat, u: nat)
    requires IsSlotDecay(decay) && 1 <= s < u
    ensures 0.0 < decay(s) < decay(u)
  {
    PowStrict(s as real, u as real, 23);
    assert decay(s) > 0.0 && decay(u) > 0.0;
    if decay(u) < decay(s) {
      PowStrict(decay(u), decay(s), 20);
    }
  }

  function Clamp01(x: real): real {
    if x < 0.0 then 0.0 else if x > 1.0 then 1.0 else x
  }

  function EffectivePercentile(team: TeamFacts, totalTeams: nat): (r: real)
    ensures 0.0 <= r <= 1.0
  {
    Clamp01(team.percentile - (Max(0, team.penaltyStages) as real) / (Max(1, totalTeams) as real))
  }

  function ReputationWeight(team: TeamFacts, totalTeams: nat): (w: real)
    ensures w > 0.0
  {
    var p := EffectivePercentile(team, totalTeams);
    assert p * p >= 0.0 && p * (p * p) >= 0.0;
    REPUTATION_FLOOR_WEIGHT + p * (p * p)
  }

  lemma CubeRises(p: real, q: real)
    requires 0.0 <= p < q
    ensures p * (p * p) < q * (q * q)
  {
    assert p * p <= p * q <= q * q;
    assert p * (p * p) <= p * (q * q);
    assert 0.0 < q * q;
    assert p * (q * q) < q * (q * q);
  }

  /** The weight runs from 0.03 for the worst school to 1.03 for the best, and rises strictly in between. */
  lemma WeightRises(x: TeamFacts, y: TeamFacts, totalTeams: nat)
    ensures EffectivePercentile(x, totalTeams) == 0.0 ==> ReputationWeight(x, totalTeams) == 0.03
    ensures EffectivePercentile(x, totalTeams) == 1.0 ==> ReputationWeight(x, totalTeams) == 1.03
    ensures EffectivePercentile(x, totalTeams) < EffectivePercentile(y, totalTeams) ==>
      ReputationWeight(x, totalTeams) < ReputationWeight(y, totalTeams)
    ensures EffectivePercentile(x, totalTeams) == EffectivePercentile(y, totalTeams) ==>
      ReputationWeight(x, totalTeams) == ReputationWeight(y, totalTeams)
  {
    var p, q := EffectivePercentile(x, totalTeams), EffectivePercentile(y, totalTeams);
    if p < q {
      CubeRises(p, q);
    }
  }

  /** Every penalty stage costs one part in the number of teams; the rest stays between 0 and 1. */
  lemma PercentileIs(team: TeamFacts, totalTeams: nat)
    requires totalTeams > 0
    ensures var p := EffectivePercentile(team, totalTeams);
      var stages := if team.penaltyStages > 0 then team.penaltyStages else 0;
      var reduced := team.percentile - (stages as real) / (totalTeams as real);
      && (0.0 <= reduced <= 1.0 ==> p == reduced) && (reduced < 0.0 ==> p == 0.0) && (reduced > 1.0 ==> p == 1.0)
  {
  }

  /** The claim of a team on its slot-th seat. */
  type Scores = (nat, nat) -> real

  /** Reputation weight over slot decay. */
  function SeatScores(facts: seq<TeamFacts>, decay: nat -> real): Scores {
    (i: nat, slot: nat) =>
      if i < |facts| && decay(slot) > 0.0 then ReputationWeight(facts[i], |facts|) / decay(slot) else 0.0
  }

  /** A team's further seats score no higher. */
  ghost predicate Falling(score: Scores, n: nat) {
    forall i: nat, s: nat, u: nat :: i < n && 1 <= s <= u ==> score(i, u) <= score(i, s)
  }

  lemma SeatScoresFall(facts: seq<TeamFacts>, decay: nat -> real)
    requires IsSlotDecay(decay)
    ensures Falling(SeatScores(facts, decay), |facts|)
  {
    var score := SeatScores(facts, decay);
    forall i: nat, s: nat, u: nat | i < |facts| && 1 <= s <= u ensures score(i, u) <= score(i, s) {
      if s < u {
        DecayGrows(decay, s, u);
        Divide(ReputationWeight(facts[i], |facts|), decay(s), decay(u));
      }
    }
  }

  lemma Divide(w: real, a: real, b: real)
    requires 0.0 < w && 0.0 < a < b
    ensures w / b < w / a
  {
    assert (w / a) * b > w;
    assert ((w / a) * b) / b == w / a;
    assert ((w / a) * b - w) / b > 0.0;
  }

  /** `seats` seats at one price each. */
  ghost function Times(price: real, seats: int): real
    decreases if seats < 0 then -seats else seats
  {
    if seats == 0 then 0.0
    else if seats > 0 then Times(price, seats - 1) + price
    else Times(price, seats + 1) - price
  }

  lemma {:induction false} TimesAdd(price: real, a: int, b: int)
    ensures Times(price, a + b) == Times(price, a) + Times(price, b)
    decreases if b < 0 then -b else b
  {
    if b > 0 {
      TimesAdd(price, a, b - 1);
    } else if b < 0 {
      TimesAdd(price, a, b + 1);
    }
  }

  // ----- what the apportionment promises -----

  ghost predicate Between(low: seq<int>, x: seq<int>, most: int) {
    |low| == |x| && forall i :: 0 <= i < |x| ==> 0 <= low[i] <= x[i] <= most
  }

  /**
   Highest-averages stability: the last seat a team was given above its base scores at least as
   high as the next seat of any team that still has room.
   */
  ghost predicate Stable(score: Scores, base: seq<int>, x: seq<int>, most: int)
    requires Between(base, x, most)
  {
    forall i: nat, j: nat :: i < |x| && j < |x| && base[i] < x[i] && x[j] < most ==>
      score(j, x[j] + 1) <= score(i, x[i])
  }

  ghost predicate Apportioned(score: Scores, base: seq<int>, x: seq<int>, most: int, total: int) {
    Between(base, x, most) && Sum(x) == total && Stable(score, base, x, most)
  }

  /** Seats from `low` to `high` of one team, valued by their scores. */
  ghost function Value(score: Scores, i: nat, low: nat, high: nat): real {
    if high <= low then 0.0 else Value(score, i, low, high - 1) + score(i, high)
  }

  /** The value of what the first n teams hold above their base. */
  ghost function ValueBelow(score: Scores, base: seq<int>, x: seq<int>, n: nat): real
    requires n <= |base| == |x| && forall i :: 0 <= i < |x| ==> 0 <= base[i] <= x[i]
  {
    if n == 0 then 0.0 else ValueBelow(score, base, x, n - 1) + Value(score, n - 1, base[n - 1], x[n - 1])
  }

  ghost function TotalValue(score: Scores, base: seq<int>, x: seq<int>): real
    requires |base| == |x| && forall i :: 0 <= i < |x| ==> 0 <= base[i] <= x[i]
  {
    ValueBelow(score, base, x, |x|)
  }

  /** One team: moving its target from x to y changes its value by at most `price` per seat. */
  lemma {:induction false} PricedChange(score: Scores, n: nat, i: nat, base: nat, x: nat, y: nat, most: nat,
        price: real)
    requires Falling(score, n) && i < n && base <= x <= most && base <= y <= most
    requires base < x ==> price <= score(i, x)
    requires x < most ==> score(i, x + 1) <= price
    ensures Value(score, i, base, y) - Value(score, i, base, x) <= Times(price, y - x)
    decreases if y < x then x - y else y - x
  {
    if y > x {
      PricedChange(score, n, i, base, x, y - 1, most, price);
      assert score(i, y) <= score(i, x + 1);
    } else if y < x {
      PricedChange(score, n, i, base, x, y + 1, most, price);
      assert score(i, x) <= score(i, y + 1);
    }
  }

  /** Each of the first n teams gains at most the price per seat. */
  ghost predicate Priced(score: Scores, base: seq<int>, x: seq<int>, y: seq<int>, price: real, n: nat)
    requires n <= |x| == |y| == |base| && forall i :: 0 <= i < |x| ==> 0 <= base[i] <= x[i] && base[i] <= y[i]
  {
    forall i :: 0 <= i < n ==> Gain(score, i, base[i], x[i], y[i]) <= Times(price, y[i] - x[i])
  }

  ghost function Gain(score: Scores, i: nat, base: nat, x: nat, y: nat): real {
    Value(score, i, base, y) - Value(score, i, base, x)
  }

  lemma GainStep(score: Scores, base: seq<int>, x: seq<int>, y: seq<int>, n: nat)
    requires 0 < n <= |x| == |y| == |base| && forall i :: 0 <= i < |x| ==> 0 <= base[i] <= x[i] && base[i] <= y[i]
    ensures ValueBelow(score, base, y, n) - ValueBelow(score, base, x, n)
         == ValueBelow(score, base, y, n - 1) - ValueBelow(score, base, x, n - 1)
            + Gain(score, n - 1, base[n - 1], x[n - 1], y[n - 1])
  {
  }

  lemma SeatsStep(x: seq<int>, y: seq<int>, price: real, n: nat)
    requires 0 < n <= |x| == |y|
    ensures Times(price, Sum(y[..n]) - Sum(x[..n]))
         == Times(price, Sum(y[..n - 1]) - Sum(x[..n - 1])) + Times(price, y[n - 1] - x[n - 1])
  {
    SumPrefixStep(x, n - 1);
    SumPrefixStep(y, n - 1);
    TimesAdd(price, Sum(y[..n - 1]) - Sum(x[..n - 1]), y[n - 1] - x[n - 1]);
  }

  lemma {:induction false} PricedTotal(score: Scores, base: seq<int>, x: seq<int>, y: seq<int>, price: real, n: nat)
    requires n <= |x| == |y| == |base| && forall i :: 0 <= i < |x| ==> 0 <= base[i] <= x[i] && base[i] <= y[i]
    requires Priced(score, base, x, y, price, n)
    ensures ValueBelow(score, base, y, n) - ValueBelow(score, base, x, n) <= Times(price, Sum(y[..n]) - Sum(x[..n]))
  {
    if n > 0 {
      PricedTotal(score, base, x, y, price, n - 1);
      GainStep(score, base, x, y, n);
      SeatsStep(x, y, price, n);
    }
  }

  /** The price that separates seats given from seats withheld. */
  lemma LeastTaken(score: Scores, base: seq<int>, x: seq<int>, k: nat) returns (best: nat)
    requires |base| == |x| && k < |x| && base[k] < x[k]
    requires forall i :: 0 <= i < |x| ==> 0 <= base[i] <= x[i]
    ensures best < |x| && base[best] < x[best]
    ensures forall i :: 0 <= i < |x| && base[i] < x[i] ==> score(best, x[best]) <= score(i, x[i])
  {
    best := k;
    for j := 0 to |x|
      invariant best < |x| && base[best] < x[best]
      invariant forall i :: 0 <= i < j && base[i] < x[i] ==> score(best, x[best]) <= score(i, x[i])
    {
      if base[j] < x[j] && score(j, x[j]) < score(best, x[best]) {
        best := j;
      }
    }
  }

  lemma AllPriced(score: Scores, base: seq<int>, x: seq<int>, y: seq<int>, most: int, best: nat)
    requires Falling(score, |x|) && Between(base, x, most) && Stable(score, base, x, most) && Between(base, y, most)
    requires best < |x| && base[best] < x[best]
    requires forall i :: 0 <= i < |x| && base[i] < x[i] ==> score(best, x[best]) <= score(i, x[i])
    ensures Priced(score, base, x, y, score(best, x[best]), |x|)
  {
    var price := score(best, x[best]);
    forall i | 0 <= i < |x| ensures Gain(score, i, base[i], x[i], y[i]) <= Times(price, y[i] - x[i]) {
      PricedChange(score, |x|, i, base[i], x[i], y[i], most, price);
    }
  }

  /** Stability is optimality: no other way to hand out the same seats within the same bounds scores more. */
  lemma StableIsOptimal(score: Scores, base: seq<int>, x: seq<int>, y: seq<int>, most: int, total: int)
    requires Falling(score, |x|) && Apportioned(score, base, x, most, total)
    requires Between(base, y, most) && Sum(y) == total
    ensures TotalValue(score, base, y) <= TotalValue(score, base, x)
  {
    if k :| 0 <= k < |x| && base[k] < x[k] {
      var best := LeastTaken(score, base, x, k);
      AllPriced(score, base, x, y, most, best);
      PricedTotal(score, base, x, y, score(best, x[best]), |x|);
      assert x[..|x|] == x && y[..|y|] == y;
    } else {
      SumTight(x, y);
    }
  }

  // ----- who gets the seats, told by percentiles -----

  lemma DecayOrder(decay: nat -> real, s: nat, u: nat)
    requires IsSlotDecay(decay) && 1 <= s && 1 <= u
    ensures decay(s) <= decay(u) ==> s <= u
    ensures decay(s) < decay(u) ==> s < u
  {
    if u < s {
      DecayGrows(decay, u, s);
    }
  }

  lemma Quotients(v: real, w: real, a: real, b: real)
    requires 0.0 < v <= w && 0.0 < a && 0.0 < b && w / a <= v / b
    ensures b <= a && (v < w ==> b < a)
  {
    assert (w / a) * (a * b) == w * b && (v / b) * (a * b) == v * a by {
      assert (w / a) * a == w && (v / b) * b == v;
    }
    assert 0.0 < a * b;
    assert (w / a) * (a * b) <= (v / b) * (a * b);
    assert w * b <= v * a;
    assert v * (a - b) == v * a - v * b && (w - v) * b == w * b - v * b;
    assert v * (a - b) >= (w - v) * b >= 0.0;
  }

  /**
   A school that is no worse, and has room, never falls more than one seat behind a school that was given a seat
   above its minimum; a strictly better one does not fall behind at all.
   */
  lemma BetterSchoolsFirst(facts: seq<TeamFacts>, decay: nat -> real, base: seq<int>, x: seq<int>, most: int,
        total: int, i: nat, j: nat)
    requires IsSlotDecay(decay) && |facts| == |x|
    requires Apportioned(SeatScores(facts, decay), base, x, most, total)
    requires i < |x| && j < |x| && base[j] < x[j] && x[i] < most
    ensures facts[i].percentile >= facts[j].percentile ==>
      Max(0, facts[i].penaltyStages) <= Max(0, facts[j].penaltyStages) ==> x[j] <= x[i] + 1
    ensures EffectivePercentile(facts[i], |facts|) > EffectivePercentile(facts[j], |facts|) ==> x[j] <= x[i]
  {
    var n := |facts|;
    var p, q := EffectivePercentile(facts[i], n), EffectivePercentile(facts[j], n);
    if facts[i].percentile >= facts[j].percentile && Max(0, facts[i].penaltyStages) <= Max(0, facts[j].penaltyStages) {
      PenaltyCosts(facts[i], facts[j], n);
    }
    if q <= p {
      WeightRises(facts[j], facts[i], n);
      var v, w := ReputationWeight(facts[j], n), ReputationWeight(facts[i], n);
      assert decay(x[i] + 1) > 0.0 && decay(x[j]) > 0.0;
      assert SeatScores(facts, decay)(i, x[i] + 1) <= SeatScores(facts, decay)(j, x[j]);
      Quotients(v, w, decay(x[i] + 1), decay(x[j]));
      DecayOrder(decay, x[j], x[i] + 1);
    }
  }

  lemma PenaltyCosts(x: TeamFacts, y: TeamFacts, n: nat)
    requires x.percentile >= y.percentile && Max(0, x.penaltyStages) <= Max(0, y.penaltyStages)
    ensures EffectivePercentile(x, n) >= EffectivePercentile(y, n)
  {
    var a, b, d := Max(0, x.penaltyStages) as real, Max(0, y.penaltyStages) as real, Max(1, n) as real;
    assert b / d - a / d == (b - a) / d >= 0.0;
  }

  // ----- the seat cap -----

  function Ceil(x: real): (c: int)
    ensures c as real >= x && c as real < x + 1.0
  {
    -((-x).Floor)
  }

  /** The most seats one team may take of an incoming batch: 2.65 times the average, rounded up. */
  function IncomingTeamCap(total: nat, teams: nat): (cap: int)
    ensures cap >= 1
  {
    Max(1, Ceil((total as real) / (Max(1, teams) as real) * MAX_AVERAGE_MULTIPLIER))
  }

  /** For a batch and a table that are not empty. */
  lemma CapIsRounded(total: nat, teams: nat)
    requires total > 0 && teams > 0
    ensures var average := (total as real) / (teams as real);
      2.65 * average <= IncomingTeamCap(total, teams) as real < 2.65 * average + 1.0
  {
    var average := (total as real) / (teams as real);
    assert average > 0.0;
  }

  /** The cap times the number of teams always covers the batch. */
  lemma CapsCoverBatch(total: nat, teams: nat)
    requires teams > 0
    ensures teams * IncomingTeamCap(total, teams) >= total
  {
    var average := (total as real) / (teams as real);
    var cap := IncomingTeamCap(total, teams);
    assert average >= 0.0 && average * (teams as real) == total as real;
    assert cap as real >= average * MAX_AVERAGE_MULTIPLIER >= average;
    assert (cap as real) * (teams as real) >= average * (teams as real);
    assert ((teams * cap) as real) == (cap as real) * (teams as real);
  }

  function Largest(s: seq<int>): (r: int)
    ensures forall i :: 0 <= i < |s| ==> s[i] <= r
    ensures r == 0 || r in s
  {
    if s == [] then 0 else Max(Largest(s[..|s| - 1]), s[|s| - 1])
  }

  function SeatCap(base: seq<int>, total: nat): (most: int)
    ensures most >= 1 && forall i :: 0 <= i < |base| ==> base[i] <= most
  {
    Max(Largest(base), IncomingTeamCap(total, |base|))
  }

  // ----- the loop -----

  function SeatKeys(facts: seq<TeamFacts>, score: Scores, x: seq<int>): (r: seq<Key>)
    requires |facts| == |x| && forall i :: 0 <= i < |x| ==> 0 <= x[i]
    ensures |r| == |facts|
    ensures forall i :: 0 <= i < |r| ==> r[i].a == score(i, x[i] + 1)
  {
    seq(|facts|, i requires 0 <= i < |facts| =>
      Key(score(i, x[i] + 1), EffectivePercentile(facts[i], |facts|), facts[i].reputation as real,
          -(x[i] as real), facts[i].id as real))
  }

  function IdKeys(facts: seq<TeamFacts>): (r: seq<Key>)
    ensures |r| == |facts|
  {
    seq(|facts|, i requires 0 <= i < |facts| => Key(facts[i].id as real, 0.0, 0.0, 0.0, 0.0))
  }

  /** The team below the cap whose next seat scores highest. */
  ghost predicate Highest(score: Scores, x: seq<int>, most: int, best: nat)
    requires forall i :: 0 <= i < |x| ==> 0 <= x[i]
  {
    && best < |x| && x[best] < most
    && forall j: nat :: j < |x| && x[j] < most ==> score(j, x[j] + 1) <= score(best, x[best] + 1)
  }

  /** Of the first k teams in order, those below the cap. */
  function Open(x: seq<int>, ordered: seq<nat>, most: int, k: nat): (r: seq<nat>)
    requires k <= |ordered| && Indices(ordered, |x|)
    ensures Indices(r, |x|)
  {
    if k == 0 then []
    else if x[ordered[k - 1]] >= most then Open(x, ordered, most, k - 1)
    else Open(x, ordered, most, k - 1) + [ordered[k - 1]]
  }

  lemma {:induction false} OpenHas(x: seq<int>, ordered: seq<nat>, most: int, k: nat, j: nat)
    requires j < k <= |ordered| && Indices(ordered, |x|) && x[ordered[j]] < most
    ensures ordered[j] in Open(x, ordered, most, k)
  {
    if j < k - 1 {
      OpenHas(x, ordered, most, k - 1, j);
    }
  }

  lemma {:induction false} OpenOnly(x: seq<int>, ordered: seq<nat>, most: int, k: nat, c: nat)
    requires k <= |ordered| && Indices(ordered, |x|) && c in Open(x, ordered, most, k)
    ensures c < |x| && x[c] < most
  {
    if c in Open(x, ordered, most, k - 1) {
      OpenOnly(x, ordered, most, k - 1, c);
    }
  }

  lemma AllOpen(x: seq<int>, ordered: seq<nat>, most: int)
    requires Indices(ordered, |x|) && forall i :: 0 <= i < |x| ==> i in ordered
    ensures forall j: nat :: j < |x| && x[j] < most <==> j in Open(x, ordered, most, |ordered|)
  {
    forall j: nat ensures j < |x| && x[j] < most <==> j in Open(x, ordered, most, |ordered|) {
      if j < |x| && x[j] < most {
        assert j in ordered;
        var k :| 0 <= k < |ordered| && ordered[k] == j;
        OpenHas(x, ordered, most, |ordered|, k);
      }
      if j in Open(x, ordered, most, |ordered|) {
        OpenOnly(x, ordered, most, |ordered|, j);
      }
    }
  }

  method Candidates(x: seq<int>, ordered: seq<nat>, most: int) returns (candidates: seq<nat>)
    requires Indices(ordered, |x|) && forall i :: 0 <= i < |x| ==> i in ordered
    ensures Indices(candidates, |x|) && forall j: nat :: j < |x| && x[j] < most <==> j in candidates
  {
    candidates := [];
    for k := 0 to |ordered|
      invariant candidates == Open(x, ordered, most, k)
    {
      if x[ordered[k]] >= most {
        continue;
      }
      candidates := candidates + [ordered[k]];
    }
    AllOpen(x, ordered, most);
  }

  /** The candidate with the greatest key has the greatest score. */
  lemma BestScores(keys: seq<Key>, score: Scores, x: seq<int>, most: int, candidates: seq<nat>, best: nat)
    requires |keys| == |x| && forall i :: 0 <= i < |x| ==> 0 <= x[i] && keys[i].a == score(i, x[i] + 1)
    requires best < |x| && x[best] < most && Indices(candidates, |x|)
    requires forall k :: 0 <= k < |candidates| ==> !Below(keys[best], keys[candidates[k]])
    requires forall j: nat :: j < |x| && x[j] < most ==> j in candidates
    ensures Highest(score, x, most, best)
  {
    forall j: nat | j < |x| && x[j] < most ensures score(j, x[j] + 1) <= score(best, x[best] + 1) {
      var k :| 0 <= k < |candidates| && candidates[k] == j;
      assert !Below(keys[best], keys[candidates[k]]);
    }
  }

  /** On equal scores: the better percentile, then the better reputation, then the fewer seats, then the greater id. */
  ghost predicate WinsTie(facts: seq<TeamFacts>, x: seq<int>, best: nat, j: nat)
    requires |facts| == |x| && best < |x| && j < |x|
  {
    var p, q := EffectivePercentile(facts[best], |facts|), EffectivePercentile(facts[j], |facts|);
    || p > q
    || (p == q && facts[best].reputation > facts[j].reputation)
    || (p == q && facts[best].reputation == facts[j].reputation && x[best] < x[j])
    || (p == q && facts[best].reputation == facts[j].reputation && x[best] == x[j] && facts[best].id >= facts[j].id)
  }

  method NextTeam(facts: seq<TeamFacts>, x: seq<int>, ordered: seq<nat>, score: Scores, most: int) returns (best: nat)
    requires |facts| == |x| && forall i :: 0 <= i < |x| ==> 0 <= x[i]
    requires Indices(ordered, |x|) && forall i :: 0 <= i < |x| ==> i in ordered
    requires exists i :: 0 <= i < |x| && x[i] < most
    ensures Highest(score, x, most, best)
    ensures forall j: nat :: j < |x| && x[j] < most && score(j, x[j] + 1) == score(best, x[best] + 1) ==>
      WinsTie(facts, x, best, j)
  {
    var candidates := Candidates(x, ordered, most);
    var keys := SeatKeys(facts, score, x);
    best := FirstMax(candidates, keys);
    BestScores(keys, score, x, most, candidates, best);
    forall j: nat | j < |x| && x[j] < most && score(j, x[j] + 1) == score(best, x[best] + 1)
      ensures WinsTie(facts, x, best, j)
    {
      var k :| 0 <= k < |candidates| && candidates[k] == j;
      assert !Below(keys[best], keys[candidates[k]]);
    }
  }

  /** Every team at the cap would take at least the whole batch. */
  lemma FullTableCovers(n: nat, most: int, total: nat)
    requires n > 0 && most >= IncomingTeamCap(total, n)
    ensures Sum(seq(n, i => most)) >= total
  {
    CapsCoverBatch(total, n);
    SumConstant(n, most);
    assert n * most >= n * IncomingTeamCap(total, n);
  }

  /** While seats are left, some team is below the cap. */
  lemma RoomLeft(x: seq<int>, most: int, total: nat)
    requires x != [] && Sum(x) < total
    requires most >= IncomingTeamCap(total, |x|)
    ensures exists i :: 0 <= i < |x| && x[i] < most
  {
    FullTableCovers(|x|, most, total);
    if forall i :: 0 <= i < |x| ==> most <= x[i] {
      SumLe(seq(|x|, i => most), x);
    }
  }

  /** The state of the seat loop with `remaining` seats still to give. */
  ghost predicate Seating(score: Scores, base: seq<int>, x: seq<int>, most: int, total: int, remaining: int) {
    remaining >= 0 && Apportioned(score, base, x, most, total - remaining)
  }

  /** One more seat for the team that deserves it most keeps the hand-out stable. */
  lemma SeatStep(score: Scores, base: seq<int>, x: seq<int>, most: int, total: int, remaining: int, best: nat,
        next: seq<int>)
    requires Falling(score, |x|) && Seating(score, base, x, most, total, remaining) && remaining > 0
    requires Highest(score, x, most, best) && next == x[best := x[best] + 1]
    ensures Seating(score, base, next, most, total, remaining - 1)
  {
    SumUpdate(x, best, x[best] + 1);
    forall i: nat, j: nat | i < |next| && j < |next| && base[i] < next[i] && next[j] < most
      ensures score(j, next[j] + 1) <= score(i, next[i])
    {
      assert score(j, next[j] + 1) <= score(j, x[j] + 1);
    }
  }

  method GiveSeat(t: TeamTable, ordered: seq<nat>, base: seq<int>, most: int, total: nat, remaining: int, score: Scores)
    requires t.Valid() && t.facts != [] && Falling(score, |t.facts|) && most >= IncomingTeamCap(total, |t.facts|)
    requires Indices(ordered, |t.facts|) && forall i :: 0 <= i < |t.facts| ==> i in ordered
    requires Seating(score, base, t.target, most, total, remaining) && remaining > 0
    modifies t`target
    ensures t.Valid() && Seating(score, base, t.target, most, total, remaining - 1)
  {
    RoomLeft(t.target, most, total);
    var best := NextTeam(t.facts, t.target, ordered, score, most);
    var next := t.target[best := t.target[best] + 1];
    SeatStep(score, base, t.target, most, total, remaining, best, next);
    t.target := next;
  }

  /** The seat loop, from a base that leaves no one above the cap. */
  method HandOutSeats(t: TeamTable, base: seq<int>, most: int, total: nat, score: Scores)
    requires t.Valid() && Falling(score, |t.facts|) && t.facts != []
    requires t.target == base && Sum(base) <= total && most >= IncomingTeamCap(total, |t.facts|)
    requires forall i :: 0 <= i < |base| ==> 0 <= base[i] <= most
    modifies t`target
    ensures t.Valid() && Apportioned(score, base, t.target, most, total)
  {
    var ordered := SortedOrder(IdKeys(t.facts));
    var remaining := total - Sum(base);
    while remaining > 0
      invariant t.Valid() && Seating(score, base, t.target, most, total, remaining)
    {
      GiveSeat(t, ordered, base, most, total, remaining, score);
      remaining := remaining - 1;
    }
  }

  lemma NoBase(base: seq<int>)
    requires forall i :: 0 <= i < |base| ==> 0 <= base[i]
    requires Sum(base) <= 0
    ensures base == Zeros(|base|)
  {
    SumZero(Zeros(|base|));
    SumTight(Zeros(|base|), base);
  }

  /** The apportionment succeeds for every non-empty table and every batch size. */
  method AllocateIncomingTargets(t: TeamTable, total: nat, decay: nat -> real) returns (ok: bool)
    requires t.Valid() && IsSlotDecay(decay)
    modifies t`minFill, t`target
    ensures t.Valid() && (ok <==> t.facts != [])
    ensures ok && total == 0 ==> t.target == Zeros(|t.facts|) && t.minFill == old(t.minFill)
    ensures ok && total > 0 ==> Repaired(t.facts, old(t.minFill), t.minFill, total)
    ensures ok && total > 0 ==>
      var base := Positive(t.minFill);
      Apportioned(SeatScores(t.facts, decay), base, t.target, SeatCap(base, total), total)
    ensures ok && total > 0 ==> ByReputation(t.facts, Positive(t.minFill), t.target, total)
  {
    if |t.facts| == 0 {
      return false;
    }
    t.target := seq(|t.facts|, _ => 0);
    if total <= 0 {
      return true;
    }
    ghost var before := t.minFill;
    MakeMinFillsFeasible(t, total);
    RepairSettles(t.facts, before, t.minFill, t.minFill, total);
    var base := Positive(t.minFill);
    if 0 < Sum(base) <= total {
      t.target := base;
    } else {
      NoBase(base);
    }
    SeatScoresFall(t.facts, decay);
    HandOutSeats(t, base, SeatCap(base, total), total, SeatScores(t.facts, decay));
    ok := Sum(t.target) == total;
    TargetsByReputation(t.facts, decay, base, t.target, total);
  }

  /** Below the cap: at most 2.65 times the average, rounded up, or no more than some minimum fill. */
  ghost predicate BelowCap(base: seq<int>, total: nat, seats: int)
    requires base != []
  {
    || (seats as real) < 2.65 * ((total as real) / (|base| as real))
    || exists k :: 0 <= k < |base| && seats < base[k]
  }

  /** Better schools first, told by the facts of the teams; and no one above the cap. */
  ghost predicate ByReputation(facts: seq<TeamFacts>, base: seq<int>, x: seq<int>, total: nat) {
    && |facts| == |base| == |x| > 0
    && (forall i :: 0 <= i < |x| ==> BelowCap(base, total, x[i] - 1))
    && (forall i, j :: 0 <= i < |x| && 0 <= j < |x| && base[j] < x[j] && BelowCap(base, total, x[i]) ==>
         NoWorseNext(facts[i], facts[j], x[i], x[j], |facts|))
  }

  ghost predicate NoWorseNext(i: TeamFacts, j: TeamFacts, seatsOfI: int, seatsOfJ: int, teams: nat)
    requires teams > 0
  {
    var p := i.percentile - (Max(0, i.penaltyStages) as real) / (teams as real);
    var q := j.percentile - (Max(0, j.penaltyStages) as real) / (teams as real);
    && (i.percentile >= j.percentile && Max(0, i.penaltyStages) <= Max(0, j.penaltyStages) ==> seatsOfJ <= seatsOfI + 1)
    && (q < p && q < 1.0 && 0.0 < p ==> seatsOfJ <= seatsOfI)
  }

  lemma CapMeans(base: seq<int>, total: nat, seats: int)
    requires base != [] && total > 0
    ensures seats < SeatCap(base, total) <==> BelowCap(base, total, seats)
  {
    CapIsRounded(total, |base|);
    if exists k :: 0 <= k < |base| && seats < base[k] {
      assert seats < SeatCap(base, total);
    } else if seats < Largest(base) {
      assert Largest(base) == 0;
    }
  }

  lemma TargetsByReputation(facts: seq<TeamFacts>, decay: nat -> real, base: seq<int>, x: seq<int>, total: nat)
    requires IsSlotDecay(decay) && |facts| == |x| > 0 && total > 0
    requires Apportioned(SeatScores(facts, decay), base, x, SeatCap(base, total), total)
    ensures ByReputation(facts, base, x, total)
  {
    forall i | 0 <= i < |x| ensures BelowCap(base, total, x[i] - 1) {
      CapMeans(base, total, x[i] - 1);
    }
    forall i, j | 0 <= i < |x| && 0 <= j < |x| && base[j] < x[j] && BelowCap(base, total, x[i])
      ensures NoWorseNext(facts[i], facts[j], x[i], x[j], |facts|)
    {
      CapMeans(base, total, x[i]);
      BetterSchoolsFirst(facts, decay, base, x, SeatCap(base, total), total, i, j);
      PercentileIs(facts[i], |facts|);
      PercentileIs(facts[j], |facts|);
    }
  }
}
