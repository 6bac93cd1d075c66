/**
 The tier screen as the program runs it, with counters and bit masks.

 A counter maps each tier to the weight counted for it and reads zero for the others. `Counts` ties
 it to the individuals it was counted from, so that a test over the counted tiers is a test over
 those individuals.

 The subset loops run over the masks of the counted tiers.
 */
module TierScreenRun {
  import opened Optional
  import opened Sums
  import opened AmateurData
  import opened Transport
  import opened Placement
  import opened TierScreen
  import opened Masks

  /** The counter `m` gives each tier its total weight; tiers it lacks have none. */
  ghost predicate Counts(m: map<int, int>, w: seq<int>, tiers: seq<int>) {
    forall k: int :: (if k in m then m[k] else 0) == Weight(w, AtTiers(tiers, {k}))
  }

  function TotalAt(m: map<int, int>, keys: seq<int>): int
    requires forall k :: k in keys ==> k in m
  {
    if keys == [] then 0
    else
      var last := keys[|keys| - 1];
      assert last in keys;
      TotalAt(m, keys[..|keys| - 1]) + m[last]
  }

  function AsSet(keys: seq<int>): set<int> {
    set k | k in keys
  }

  lemma {:induction false} TotalAtIsWeight(m: map<int, int>, w: seq<int>, tiers: seq<int>, keys: seq<int>)
    requires |w| == |tiers| && Counts(m, w, tiers) && Distinct(keys) && forall k :: k in keys ==> k in m
    ensures TotalAt(m, keys) == Weight(w, AtTiers(tiers, AsSet(keys)))
  {
    if keys == [] {
      WeightNone(w, AtTiers(tiers, AsSet(keys)));
    } else {
      var front, last := keys[..|keys| - 1], keys[|keys| - 1];
      TotalAtIsWeight(m, w, tiers, front);
      var a, b := AtTiers(tiers, AsSet(front)), AtTiers(tiers, {last});
      WeightModular(w, a, b);
      WeightNone(w, a * b);
      assert AtTiers(tiers, AsSet(keys)) == a + b;
    }
  }

  /** Tiers outside the counter carry no weight, so only the counted ones matter. */
  lemma {:induction false} OnlyCountedTiers(m: map<int, int>, w: seq<int>, tiers: seq<int>, a: set<nat>, b: set<nat>)
    requires |w| == |tiers| && NonNegative(w) && Counts(m, w, tiers)
    requires forall i: nat :: i in a && i < |tiers| && tiers[i] in m ==> i in b
    ensures Weight(w, a) <= Weight(w, b)
  {
    forall i | 0 <= i < |w| && i in a && 0 < w[i] ensures i in b {
      var here := AtTiers(tiers, {tiers[i]});
      WeightUpdate(w, here, i, 0);
      WeightMonotone(w[i := 0], {}, here);
      WeightNone(w[i := 0], {});
      assert Weight(w, here) == if tiers[i] in m then m[tiers[i]] else 0;
    }
    WeightMonotone(w, a, b);
  }

  function SomeNear(tier: int, selected: seq<int>, gap: int): (r: bool)
    ensures r == Near(tier, AsSet(selected), gap)
  {
    if i :| 0 <= i < |selected| && Abs(selected[i] - tier) <= gap then
      assert selected[i] in AsSet(selected);
      true
    else
      assert forall k :: k in AsSet(selected) ==> Abs(k - tier) > gap;
      false
  }

  // ----- counters -----

  /** `counter[tier] += amount`, on a counter that reads 0 for a missing key. */
  function Bump(m: map<int, int>, tier: int, amount: int): map<int, int> {
    m[tier := (if tier in m then m[tier] else 0) + amount]
  }

  lemma CountsBump(m: map<int, int>, w: seq<int>, tiers: seq<int>, tier: int, amount: int)
    requires |w| == |tiers| && Counts(m, w, tiers)
    ensures Counts(Bump(m, tier, amount), w + [amount], tiers + [tier])
  {
    var w', tiers' := w + [amount], tiers + [tier];
    forall k: int
      ensures (if k in Bump(m, tier, amount) then Bump(m, tier, amount)[k] else 0) == Weight(w', AtTiers(tiers', {k}))
    {
      assert w'[..|w|] == w;
      WeightSame(w, AtTiers(tiers', {k}), AtTiers(tiers, {k}));
    }
  }

  lemma {:induction false} WeightSame(w: seq<int>, a: set<nat>, b: set<nat>)
    requires forall i :: 0 <= i < |w| ==> (i in a <==> i in b)
    ensures Weight(w, a) == Weight(w, b)
  {
    if w != [] {
      WeightSame(w[..|w| - 1], a, b);
    }
  }

  lemma CountsSkip(m: map<int, int>, w: seq<int>, tiers: seq<int>, tier: int)
    requires |w| == |tiers| && Counts(m, w, tiers)
    ensures Counts(m, w + [0], tiers + [tier])
  {
    var w', tiers' := w + [0], tiers + [tier];
    forall k: int ensures (if k in m then m[k] else 0) == Weight(w', AtTiers(tiers', {k})) {
      assert w'[..|w|] == w;
      WeightSame(w, AtTiers(tiers', {k}), AtTiers(tiers, {k}));
    }
  }

  /** The counter of some players, all of a known tier. */
  ghost predicate Counted(m: map<int, int>, seen: seq<Player>)
    requires forall j :: 0 <= j < |seen| ==> seen[j].rows != []
  {
    && (forall j :: 0 <= j < |seen| ==> PlayerTier(seen[j]) >= 0)
    && Counts(m, Ones(|seen|), PlayerTiers(seen))
    && (m == map[] <==> seen == [])
  }

  lemma NextWithRows(players: seq<Player>, i: nat)
    requires i < |players|
    ensures WithRows(players[..i + 1])
         == if players[i].rows == [] then WithRows(players[..i]) else WithRows(players[..i]) + [players[i]]
  {
    assert players[..i + 1][..i] == players[..i];
  }

  lemma CountedNext(m: map<int, int>, seen: seq<Player>, player: Player)
    requires (forall j :: 0 <= j < |seen| ==> seen[j].rows != []) && Counted(m, seen)
    requires player.rows != [] && PlayerTier(player) >= 0
    ensures Counted(Bump(m, PlayerTier(player), 1), seen + [player])
  {
    var tier := PlayerTier(player);
    CountsBump(m, Ones(|seen|), PlayerTiers(seen), tier, 1);
    assert Ones(|seen| + 1) == Ones(|seen|) + [1];
    assert PlayerTiers(seen + [player]) == PlayerTiers(seen) + [tier];
    assert tier in Bump(m, tier, 1);
  }

  lemma UnknownTier(players: seq<Player>, i: nat)
    requires i < |players| && WithRows(players[..i + 1]) == WithRows(players[..i]) + [players[i]]
    requires players[i].rows != [] && PlayerTier(players[i]) < 0
    ensures exists j :: 0 <= j < |WithRows(players)| && PlayerTier(WithRows(players)[j]) < 0
  {
    WithRowsPrefix(players, i + 1);
    assert WithRows(players)[|WithRows(players[..i])|] == players[i];
  }

  /** The players of each tier, or nothing when a tier is unknown. */
  method CountPlayerTiers(players: seq<Player>) returns (counts: Option<map<int, int>>)
    ensures counts.None? <==> exists i :: 0 <= i < |WithRows(players)| && PlayerTier(WithRows(players)[i]) < 0
    ensures counts.Some? ==> Counts(counts.value, Ones(|WithRows(players)|), PlayerTiers(WithRows(players)))
    ensures counts.Some? ==> (counts.value == map[] <==> WithRows(players) == [])
  {
    var m: map<int, int> := map[];
    assert Counted(m, WithRows(players[..0]));
    for i := 0 to |players|
      invariant Counted(m, WithRows(players[..i]))
    {
      NextWithRows(players, i);
      if players[i].rows == [] {
        continue;
      }
      var tier := ToInt(players[i].rows[0].playerTier, -1);
      if tier < 0 {
        UnknownTier(players, i);
        return None;
      }
      CountedNext(m, WithRows(players[..i]), players[i]);
      m := Bump(m, tier, 1);
    }
    assert players[..|players|] == players;
    counts := Some(m);
  }

  lemma {:induction false} WithRowsPrefix(players: seq<Player>, i: nat)
    requires i <= |players|
    ensures WithRows(players[..i]) <= WithRows(players)
    decreases |players| - i
  {
    if i < |players| {
      WithRowsPrefix(players, i + 1);
      assert players[..i + 1][..i] == players[..i];
    } else {
      assert players[..i] == players;
    }
  }

  /** Once a team is named by an acceptable row, later rows do not change its tier. */
  lemma {:induction false} TeamTierFixed(rows: seq<Row>, i: nat, id: int)
    requires i <= |rows| && Named(rows[..i], id)
    ensures TeamTier(rows, id) == TeamTier(rows[..i], id)
    decreases |rows| - i
  {
    if i < |rows| {
      var next := rows[..i + 1];
      assert next[..i] == rows[..i];
      var k :| 0 <= k < i && rows[..i][k].teamId == id && !rows[..i][k].rejected;
      assert next[k] == rows[..i][k];
      TeamTierFixed(rows, i + 1, id);
    } else {
      assert rows[..i] == rows;
    }
  }

  /** A team named by no acceptable row has no tier. */
  lemma {:induction false} Unnamed(rows: seq<Row>, id: int)
    requires !Named(rows, id)
    ensures TeamTier(rows, id) == -1
  {
    if rows != [] {
      Unnamed(rows[..|rows| - 1], id);
    }
  }

  /** The tier of every collected team, or nothing when some tier is unknown. */
  method ResolveTeamTiers(rows: seq<Row>, teams: seq<Seat>) returns (tiers: Option<seq<int>>)
    requires DistinctIds(teams)
    ensures tiers.Some? <==> forall j :: 0 <= j < |teams| ==> TeamTier(rows, teams[j].id) >= 0
    ensures tiers.Some? ==> tiers.value == TeamTiers(rows, teams)
  {
    var found: seq<Option<int>> := seq(|teams|, _ => None);
    var i := 0;
    while i < |rows|
      invariant 0 <= i <= |rows| && |found| == |teams|
      invariant forall j :: 0 <= j < |teams| ==> (found[j].Some? <==> Named(rows[..i], teams[j].id))
      invariant forall j :: 0 <= j < |teams| && found[j].Some? ==>
        found[j].value == TeamTier(rows[..i], teams[j].id) >= 0
    {
      var row := rows[i];
      NamedStep(rows, i, teams);
      i := i + 1;
      var j := IndexOf(teams, row.teamId);
      if j.None? || found[j.value].Some? || row.rejected {
        continue;
      }
      var tier := ToInt(row.teamTier, -1);
      if tier < 0 {
        TeamTierFixed(rows, i, row.teamId);
        return None;
      }
      found := found[j.value := Some(tier)];
    }
    assert rows[..|rows|] == rows;
    if k :| 0 <= k < |found| && found[k].None? {
      Unnamed(rows, teams[k].id);
      return None;
    }
    tiers := Some(seq(|found|, k requires 0 <= k < |found| && found[k].Some? => found[k].value));
  }

  lemma NamedStep(rows: seq<Row>, i: nat, teams: seq<Seat>)
    requires i < |rows|
    ensures forall j :: 0 <= j < |teams| ==>
      var id, hit := teams[j].id, rows[i].teamId == teams[j].id && !rows[i].rejected;
      && (Named(rows[..i + 1], id) <==> Named(rows[..i], id) || hit)
      && TeamTier(rows[..i + 1], id)
         == if Named(rows[..i], id) || !hit then TeamTier(rows[..i], id) else ToInt(rows[i].teamTier, -1)
  {
    var next, here := rows[..i + 1], rows[..i];
    assert next[..i] == here;
    forall j | 0 <= j < |teams|
      ensures Named(next, teams[j].id)
         <==> Named(here, teams[j].id) || (rows[i].teamId == teams[j].id && !rows[i].rejected)
    {
      var id := teams[j].id;
      if Named(here, id) {
        var k :| 0 <= k < i && here[k].teamId == id && !here[k].rejected;
        assert next[k] == here[k];
      }
      if Named(next, id) {
        var k :| 0 <= k < i + 1 && next[k].teamId == id && !next[k].rejected;
        assert k < i ==> here[k] == next[k];
      }
      assert next[i] == rows[i];
    }
  }

  method CountTeamTiers(tiers: seq<int>, amounts: seq<int>, caps: seq<int>) returns (m: map<int, int>)
    requires |tiers| == |amounts| == |caps|
    requires forall i :: 0 <= i < |caps| && caps[i] <= 0 ==> amounts[i] == 0
    ensures Counts(m, amounts, tiers)
  {
    m := map[];
    assert Counts(m, [], []);
    for i := 0 to |tiers|
      invariant Counts(m, amounts[..i], tiers[..i])
    {
      assert amounts[..i + 1] == amounts[..i] + [amounts[i]] && tiers[..i + 1] == tiers[..i] + [tiers[i]];
      if caps[i] > 0 {
        CountsBump(m, amounts[..i], tiers[..i], tiers[i], amounts[i]);
        m := Bump(m, tiers[i], amounts[i]);
      } else {
        CountsSkip(m, amounts[..i], tiers[..i], tiers[i]);
      }
    }
    assert amounts[..|tiers|] == amounts && tiers[..|tiers|] == tiers;
  }

  // ----- the subset loops -----

  /** Of the first i keys, those within the gap of the selected tiers. */
  function NearKeys(keys: seq<int>, selected: seq<int>, gap: int, i: nat): seq<int>
    requires i <= |keys|
  {
    if i == 0 then []
    else if SomeNear(keys[i - 1], selected, gap) then NearKeys(keys, selected, gap, i - 1) + [keys[i - 1]]
    else NearKeys(keys, selected, gap, i - 1)
  }

  lemma {:induction false} NearKeysAre(keys: seq<int>, selected: seq<int>, gap: int, i: nat)
    requires i <= |keys| && Distinct(keys)
    ensures Distinct(NearKeys(keys, selected, gap, i))
    ensures forall k :: k in NearKeys(keys, selected, gap, i) <==> k in keys[..i] && Near(k, AsSet(selected), gap)
  {
    if i > 0 {
      NearKeysAre(keys, selected, gap, i - 1);
      assert keys[..i] == keys[..i - 1] + [keys[i - 1]];
      assert keys[i - 1] !in keys[..i - 1];
    }
  }

  lemma NextTotal(m: map<int, int>, near: seq<int>, key: int)
    requires key in m && forall k :: k in near ==> k in m
    ensures TotalAt(m, near + [key]) == TotalAt(m, near) + m[key]
  {
    assert (near + [key])[..|near|] == near;
  }

  lemma NearTotal(m: map<int, int>, keys: seq<int>, selected: seq<int>, gap: int, v: seq<int>, others: seq<int>)
    requires |v| == |others| && NonNegative(v) && Counts(m, v, others)
    requires Distinct(keys) && forall k :: k in keys <==> k in m
    ensures var near := NearKeys(keys, selected, gap, |keys|);
      (forall k :: k in near ==> k in m) && TotalAt(m, near) == Weight(v, NearTiers(others, AsSet(selected), gap))
  {
    var near := NearKeys(keys, selected, gap, |keys|);
    NearKeysAre(keys, selected, gap, |keys|);
    assert keys[..|keys|] == keys;
    TotalAtIsWeight(m, v, others, near);
    OnlyCountedTiers(m, v, others, NearTiers(others, AsSet(selected), gap), AtTiers(others, AsSet(near)));
    WeightMonotone(v, AtTiers(others, AsSet(near)), NearTiers(others, AsSet(selected), gap));
  }

  /** What the other side offers within the gap of the selected tiers. */
  method Reachable(m: map<int, int>, keys: seq<int>, selected: seq<int>, gap: int,
                   ghost v: seq<int>, ghost others: seq<int>) returns (total: int)
    requires |v| == |others| && NonNegative(v) && Counts(m, v, others)
    requires Distinct(keys) && forall k :: k in keys <==> k in m
    ensures total == Weight(v, NearTiers(others, AsSet(selected), gap))
  {
    total := 0;
    ghost var near: seq<int> := [];
    for i := 0 to |keys|
      invariant near == NearKeys(keys, selected, gap, i)
      invariant forall k :: k in near ==> k in m
      invariant total == TotalAt(m, near)
    {
      var key := keys[i];
      assert key in keys;
      if SomeNear(key, selected, gap) {
        NextTotal(m, near, key);
        near := near + [key];
        total := total + m[key];
      }
    }
    NearTotal(m, keys, selected, gap, v, others);
  }

  /** Every subset of the tiers on one side fits into its reach on the other. */
  method SubsetsFit(m: map<int, int>, other: map<int, int>, gap: int,
                    ghost w: seq<int>, ghost tiers: seq<int>, ghost v: seq<int>, ghost others: seq<int>)
    returns (ok: bool)
    requires |w| == |tiers| && NonNegative(w) && Counts(m, w, tiers)
    requires |v| == |others| && NonNegative(v) && Counts(other, v, others)
    ensures ok <==> forall chosen: set<int> :: Fits(w, tiers, v, others, gap, chosen)
  {
    var keys := SortedKeys(m);
    var otherKeys := SortedKeys(other);
    var mask := 1;
    while mask < Pow2(|keys|)
      invariant 1 <= mask
      invariant forall k: nat :: 1 <= k < mask ==> Fits(w, tiers, v, others, gap, AsSet(Selected(keys, k)))
    {
      var selected := Selected(keys, mask);
      SelectedDistinct(keys, mask);
      var demand := TotalAt(m, selected);
      TotalAtIsWeight(m, w, tiers, selected);
      if demand <= 0 {
        WeightMonotone(v, {}, NearTiers(others, AsSet(selected), gap));
        WeightNone(v, {});
        mask := mask + 1;
        continue;
      }
      var capacity := Reachable(other, otherKeys, selected, gap, v, others);
      if demand > capacity {
        assert !Fits(w, tiers, v, others, gap, AsSet(selected));
        return false;
      }
      mask := mask + 1;
    }
    forall chosen: set<int> ensures Fits(w, tiers, v, others, gap, chosen) {
      MasksDecide(m, w, tiers, v, others, gap, keys, chosen);
    }
    ok := true;
  }

  /** A set of tiers fits as soon as the mask that selects its counted part does. */
  lemma MasksDecide(m: map<int, int>, w: seq<int>, tiers: seq<int>, v: seq<int>, others: seq<int>, gap: int,
                    keys: seq<int>, chosen: set<int>)
    requires |w| == |tiers| && NonNegative(w) && Counts(m, w, tiers)
    requires |v| == |others| && NonNegative(v)
    requires Distinct(keys) && forall k :: k in keys <==> k in m
    requires forall k: nat :: 1 <= k < Pow2(|keys|) ==> Fits(w, tiers, v, others, gap, AsSet(Selected(keys, k)))
    ensures Fits(w, tiers, v, others, gap, chosen)
  {
    var mask := MaskFor(keys, chosen);
    var part := AsSet(Selected(keys, mask));
    OnlyCountedTiers(m, w, tiers, AtTiers(tiers, chosen), AtTiers(tiers, part));
    if mask == 0 {
      NothingSelected(keys);
      WeightNone(w, AtTiers(tiers, part));
      WeightMonotone(v, {}, NearTiers(others, chosen, gap));
      WeightNone(v, {});
    } else {
      assert Fits(w, tiers, v, others, gap, part);
      WeightMonotone(v, NearTiers(others, part, gap), NearTiers(others, chosen, gap));
    }
  }

  lemma {:induction false} NothingSelected(keys: seq<int>)
    ensures Selected(keys, 0) == []
  {
    if keys != [] {
      NothingSelected(keys[1..]);
    }
  }

  // ----- the whole screen -----

  /** The cases in which the screen has too little information and lets the batch through. */
  ghost predicate Undecided(players: seq<Player>, teams: seq<Seat>, maxTierGap: Option<int>) {
    || maxTierGap.None?
    || WithRows(players) == []
    || (exists i :: 0 <= i < |WithRows(players)| && PlayerTier(WithRows(players)[i]) < 0)
    || (exists j :: 0 <= j < |teams| && TeamTier(AllRows(players), teams[j].id) < 0)
  }

  ghost predicate Passes(players: seq<Player>, teams: seq<Seat>, gap: int, caps: seq<int>)
    requires |caps| == |teams|
  {
    ScreenPasses(
      PlayerTiers(WithRows(players)), TeamTiers(AllRows(players), teams), ScreenedFills(teams, caps), caps, gap)
  }

  // ----- the screen, told by rows -----

  /** The k-th row is the first acceptable one for the team. */
  ghost predicate FirstFor(rows: seq<Row>, id: int, k: nat) {
    && k < |rows| && rows[k].teamId == id && !rows[k].rejected
    && forall i :: 0 <= i < k ==> rows[i].teamId != id || rows[i].rejected
  }

  /** The team's first acceptable row has this tier. */
  ghost predicate HasTier(rows: seq<Row>, id: int, tier: int) {
    exists k: nat :: k < |rows| && FirstFor(rows, id, k) && rows[k].teamTier == Some(tier)
  }

  lemma {:induction false} TeamTierIs(rows: seq<Row>, id: int, k: nat)
    requires FirstFor(rows, id, k)
    ensures TeamTier(rows, id) == if rows[k].teamTier.Some? then rows[k].teamTier.value else -1
    decreases |rows|
  {
    var n := |rows| - 1;
    var front := rows[..n];
    if k < n {
      assert FirstFor(front, id, k);
      TeamTierIs(front, id, k);
      assert front[k].teamId == id && !front[k].rejected;
    } else {
      assert !Named(front, id);
    }
  }

  lemma FirstRowFor(rows: seq<Row>, id: int) returns (k: nat)
    requires exists i :: 0 <= i < |rows| && rows[i].teamId == id && !rows[i].rejected
    ensures FirstFor(rows, id, k)
  {
    k := 0;
    while rows[k].teamId != id || rows[k].rejected
      invariant k < |rows|
      invariant forall i :: 0 <= i < k ==> rows[i].teamId != id || rows[i].rejected
      invariant exists i :: k <= i < |rows| && rows[i].teamId == id && !rows[i].rejected
      decreases |rows| - k
    {
      var i :| k <= i < |rows| && rows[i].teamId == id && !rows[i].rejected;
      k := k + 1;
    }
  }

  /** A tier that is known, and which one. */
  lemma KnownTier(rows: seq<Row>, id: int, tier: int)
    requires tier >= 0
    ensures TeamTier(rows, id) == tier <==> HasTier(rows, id, tier)
  {
    if exists i :: 0 <= i < |rows| && rows[i].teamId == id && !rows[i].rejected {
      var k := FirstRowFor(rows, id);
      TeamTierIs(rows, id, k);
      if HasTier(rows, id, tier) {
        var j: nat :| j < |rows| && FirstFor(rows, id, j) && rows[j].teamTier == Some(tier);
        assert j == k;
      }
    } else {
      NobodyNames(rows, id);
    }
  }

  lemma {:induction false} NobodyNames(rows: seq<Row>, id: int)
    requires forall i :: 0 <= i < |rows| ==> rows[i].teamId != id || rows[i].rejected
    ensures TeamTier(rows, id) == -1
  {
    if rows != [] {
      NobodyNames(rows[..|rows| - 1], id);
    }
  }

  ghost predicate NoTier(rows: seq<Row>, id: int) {
    forall tier: nat :: !HasTier(rows, id, tier)
  }

  lemma NoTierIs(rows: seq<Row>, id: int)
    ensures TeamTier(rows, id) < 0 <==> NoTier(rows, id)
  {
    forall tier: nat ensures HasTier(rows, id, tier) <==> TeamTier(rows, id) == tier {
      KnownTier(rows, id, tier);
    }
    if TeamTier(rows, id) >= 0 {
      assert HasTier(rows, id, TeamTier(rows, id));
    }
  }

  /** The player has rows, and the first of them no readable tier. */
  ghost predicate UnknownPlayer(player: Player) {
    player.rows != [] && (player.rows[0].playerTier.None? || player.rows[0].playerTier.value < 0)
  }

  lemma {:induction false} WithRowsAre(players: seq<Player>, player: Player)
    ensures player in WithRows(players) <==> player in players && player.rows != []
  {
    if players != [] {
      var front, last := players[..|players| - 1], players[|players| - 1];
      WithRowsAre(front, player);
      assert players == front + [last];
    }
  }

  /** The screen is undecided without a gap, without rows, and when the tier of a player or of a team is unknown. */
  lemma UndecidedMeans(players: seq<Player>, teams: seq<Seat>, maxTierGap: Option<int>)
    ensures Undecided(players, teams, maxTierGap) <==>
      || maxTierGap.None?
      || (forall player :: player in players ==> player.rows == [])
      || (exists player :: player in players && UnknownPlayer(player))
      || (exists t :: 0 <= t < |teams| && NoTier(AllRows(players), teams[t].id))
  {
    var known := WithRows(players);
    forall player ensures player in known <==> player in players && player.rows != [] {
      WithRowsAre(players, player);
    }
    if known == [] {
      forall player | player in players ensures player.rows == [] {
        assert player !in known;
      }
    } else {
      assert known[0] in known;
    }
    if player :| player in players && UnknownPlayer(player) {
      assert player in known;
      var i :| 0 <= i < |known| && known[i] == player;
      assert PlayerTier(known[i]) < 0;
    }
    if i :| 0 <= i < |known| && PlayerTier(known[i]) < 0 {
      assert known[i] in known;
    }
    forall t | 0 <= t < |teams|
      ensures TeamTier(AllRows(players), teams[t].id) < 0 <==> NoTier(AllRows(players), teams[t].id)
    {
      NoTierIs(AllRows(players), teams[t].id);
    }
  }

  // ----- the screen, told by head counts -----

  lemma {:induction false} OnesWeigh(n: nat, chosen: set<nat>)
    requires forall i :: i in chosen ==> i < n
    ensures Weight(Ones(n), chosen) == |chosen|
  {
    if n == 0 {
      assert chosen == {};
    } else {
      var rest := chosen - {n - 1};
      assert Ones(n)[..n - 1] == Ones(n - 1);
      OnesWeigh(n - 1, rest);
      WeightMonotone(Ones(n - 1), rest, chosen);
      WeightMonotone(Ones(n - 1), chosen, rest);
      assert chosen == if n - 1 in chosen then rest + {n - 1} else rest;
    }
  }

  ghost function PlayersNear(players: seq<Player>, tier: int, gap: int): set<nat> {
    set p: nat | p < |players| && players[p].rows != [] && players[p].rows[0].playerTier.Some?
      && -gap <= players[p].rows[0].playerTier.value - tier <= gap
  }

  ghost function TeamsNear(players: seq<Player>, teams: seq<Seat>, tier: int, gap: int): set<nat> {
    set t: nat | t < |teams| && exists u :: HasTier(AllRows(players), teams[t].id, u) && -gap <= u - tier <= gap
  }

  ghost predicate Told(players: seq<Player>, teams: seq<Seat>) {
    && (forall p :: 0 <= p < |players| ==> players[p].rows != [] && !UnknownPlayer(players[p]))
    && (forall t :: 0 <= t < |teams| ==> exists tier: nat :: HasTier(AllRows(players), teams[t].id, tier))
  }

  lemma NearIs(players: seq<Player>, teams: seq<Seat>, tier: int, gap: int)
    requires Told(players, teams) && gap >= 0
    ensures (forall p :: 0 <= p < |players| ==> players[p].rows != [])
    ensures var pt := PlayerTiers(players); NearTiers(pt, {tier}, gap) == PlayersNear(players, tier, gap)
    ensures var tt := TeamTiers(AllRows(players), teams);
      NearTiers(tt, {tier}, gap) == TeamsNear(players, teams, tier, gap)
    ensures AtTiers(PlayerTiers(players), {tier}) == PlayersNear(players, tier, 0)
    ensures AtTiers(TeamTiers(AllRows(players), teams), {tier}) == TeamsNear(players, teams, tier, 0)
  {
    forall t: nat, u: int | t < |teams|
      ensures HasTier(AllRows(players), teams[t].id, u) <==> u == TeamTier(AllRows(players), teams[t].id)
    {
      OnlyTier(players, teams, t, u);
    }
  }

  lemma OnlyTier(players: seq<Player>, teams: seq<Seat>, t: nat, u: int)
    requires Told(players, teams) && t < |teams|
    ensures HasTier(AllRows(players), teams[t].id, u) <==> u == TeamTier(AllRows(players), teams[t].id)
  {
    var rows, id := AllRows(players), teams[t].id;
    var known: nat :| HasTier(rows, id, known);
    KnownTier(rows, id, known);
    if HasTier(rows, id, u) {
      SameTier(rows, id, known, u);
    }
  }

  lemma SameTier(rows: seq<Row>, id: int, u: int, v: int)
    requires HasTier(rows, id, u) && HasTier(rows, id, v)
    ensures u == v
  {
    var j: nat :| j < |rows| && FirstFor(rows, id, j) && rows[j].teamTier == Some(u);
    var k: nat :| k < |rows| && FirstFor(rows, id, k) && rows[k].teamTier == Some(v);
    assert j == k;
  }

  /** More players at one tier than places within reach: rejected. */
  lemma TierOverflow(players: seq<Player>, teams: seq<Seat>, gap: int, caps: seq<int>, tier: int)
    requires Told(players, teams) && gap >= 0 && |caps| == |teams|
    requires |PlayersNear(players, tier, 0)| > Weight(caps, TeamsNear(players, teams, tier, gap))
    ensures !Passes(players, teams, gap, caps)
  {
    AllHaveRows(players);
    NearIs(players, teams, tier, gap);
    OnesWeigh(|players|, PlayersNear(players, tier, 0));
    assert !Fits(Ones(|players|), PlayerTiers(players), caps, TeamTiers(AllRows(players), teams), gap, {tier});
  }

  /** Minimum fills at one tier that ask for more players than there are within reach: rejected. */
  lemma FillOverflow(players: seq<Player>, teams: seq<Seat>, gap: int, caps: seq<int>, tier: int)
    requires Told(players, teams) && gap >= 0 && |caps| == |teams|
    requires Weight(ScreenedFills(teams, caps), TeamsNear(players, teams, tier, 0)) > |PlayersNear(players, tier, gap)|
    ensures !Passes(players, teams, gap, caps)
  {
    AllHaveRows(players);
    NearIs(players, teams, tier, gap);
    OnesWeigh(|players|, PlayersNear(players, tier, gap));
    var tt := TeamTiers(AllRows(players), teams);
    assert !Fits(ScreenedFills(teams, caps), tt, Ones(|players|), PlayerTiers(players), gap, {tier});
  }

  method TierCapacityFeasible(players: seq<Player>, teams: seq<Seat>, maxTierGap: Option<int>,
                              useIncoming: bool, incomingCap: int) returns (ok: bool)
    requires DistinctIds(teams)
    ensures ok <==>
      Undecided(players, teams, maxTierGap)
      || Passes(players, teams, maxTierGap.value, Capacities(teams, useIncoming, incomingCap))
  {
    if maxTierGap.None? {
      return true;
    }
    var playerTiers := CountPlayerTiers(players);
    if playerTiers.None? || playerTiers.value == map[] {
      return true;
    }
    var tiers := ResolveTeamTiers(AllRows(players), teams);
    if tiers.None? {
      return true;
    }
    var caps := Capacities(teams, useIncoming, incomingCap);
    var fills := ScreenedFills(teams, caps);
    var capacityByTier := CountTeamTiers(tiers.value, caps, caps);
    var fillByTier := CountTeamTiers(tiers.value, fills, caps);
    var keys := SortedKeys(playerTiers.value);
    var capacityKeys := SortedKeys(capacityByTier);
    ghost var pt := PlayerTiers(WithRows(players));
    ghost var everyone := AsSet(keys);
    TotalAtIsWeight(playerTiers.value, Ones(|pt|), pt, keys);
    TotalAtIsWeight(capacityByTier, caps, tiers.value, capacityKeys);
    if TotalAt(playerTiers.value, keys) > TotalAt(capacityByTier, capacityKeys) {
      OnlyCountedTiers(capacityByTier, caps, tiers.value,
        NearTiers(tiers.value, everyone, maxTierGap.value), AtTiers(tiers.value, AsSet(capacityKeys)));
      assert !Fits(Ones(|pt|), pt, caps, tiers.value, maxTierGap.value, everyone);
      return false;
    }
    ok := SubsetsFit(playerTiers.value, capacityByTier, maxTierGap.value, Ones(|pt|), pt, caps, tiers.value);
    if !ok {
      return;
    }
    ok := SubsetsFit(fillByTier, playerTiers.value, maxTierGap.value, fills, tiers.value, Ones(|pt|), pt);
  }
}
