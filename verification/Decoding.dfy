/**
 Adding the players' arcs to a network, and turning a solver's flow back into a result.

 A placing arc remembers its player and row, and the result lists the player at the team of the row
 when the arc carries flow.
 */
module Decoding {
  import opened Optional
  import opened AmateurData
  import opened Network
  import opened PlayerSide

  datatype Assigned = Assigned(teamId: int, weight: int, status: string)

  ghost predicate DistinctPlayers(players: seq<Player>) {
    forall i, j :: 0 <= i < j < |players| ==> players[i].id != players[j].id
  }

  // ----- placing arcs -----

  function AddSupply(supplies: map<Node, int>, node: Node, amount: int): map<Node, int> {
    supplies[node := Supply(supplies, node) + amount]
  }

  ghost predicate NothingUsable(s: Side, k: nat)
    requires k <= |s.dest|
  {
    forall p, r :: 0 <= p < k && 0 <= r < |s.dest[p]| ==> s.dest[p][r].None?
  }

  /** The player nodes and their placing arcs, after the arcs already built. */
  method BuildPlayers(s: Side, before: seq<Arc>) returns (arcs: seq<Arc>, placing: bool)
    requires IsSide(s)
    ensures arcs == before + PlayerArcs(s, |s.dest|)
    ensures placing <==> !NothingUsable(s, |s.dest|)
  {
    arcs, placing := before, false;
    for p := 0 to |s.dest|
      invariant arcs == before + PlayerArcs(s, p)
      invariant placing <==> !NothingUsable(s, p)
    {
      arcs := arcs + [SourceArc(p)];
      for r := 0 to |s.dest[p]|
        invariant arcs == before + PlayerArcs(s, p) + ([SourceArc(p)] + RowArcs(s, p, r))
        invariant placing <==> !(NothingUsable(s, p) && forall i :: 0 <= i < r ==> s.dest[p][i].None?)
      {
        if s.dest[p][r].Some? {
          arcs := arcs + [RowArc(s, p, r)];
          placing := true;
        }
      }
    }
  }

  // ----- decoding -----

  function RowOf(players: seq<Player>, tag: Tag): Option<Row> {
    if tag.Place? && tag.player < |players| && tag.row < |players[tag.player].rows|
    then Some(players[tag.player].rows[tag.row]) else None
  }

  function Record(m: map<int, Assigned>, players: seq<Player>, arc: Arc, flow: int, status: string): map<int,
        Assigned> {
    var row := RowOf(players, arc.tag);
    if row.None? || flow <= 0 then m
    else m[players[arc.tag.player].id := Assigned(row.value.teamId, row.value.weight, status)]
  }

  function DecodedBelow(m: map<int, Assigned>, players: seq<Player>, arcs: seq<Arc>, flow: seq<int>, status: string,
        n: nat)
    : map<int, Assigned>
    requires n <= |arcs| == |flow|
  {
    if n == 0 then m
    else Record(DecodedBelow(m, players, arcs, flow, status, n - 1), players, arcs[n - 1], flow[n - 1], status)
  }

  function Decoded(m: map<int, Assigned>, players: seq<Player>, arcs: seq<Arc>, flow: seq<int>,
        status: string): map<int, Assigned>
    requires |arcs| == |flow|
  {
    DecodedBelow(m, players, arcs, flow, status, |arcs|)
  }

  function Recorded(m: map<int, Assigned>, player: Player, r: nat, status: string): map<int, Assigned>
    requires r < |player.rows|
  {
    m[player.id := Assigned(player.rows[r].teamId, player.rows[r].weight, status)]
  }

  ghost predicate RowsExist(players: seq<Player>, a: seq<nat>) {
    |a| <= |players| && forall p :: 0 <= p < |a| ==> a[p] < |players[p].rows|
  }

  /** The side lists the rows of these players. */
  ghost predicate SideFor(players: seq<Player>, s: Side) {
    |s.dest| == |players| && forall p :: 0 <= p < |players| ==> |s.dest[p]| == |players[p].rows|
  }

  lemma ChoiceRowsExist(players: seq<Player>, s: Side, a: seq<nat>)
    requires SideFor(players, s) && IsChoice(s, a)
    ensures RowsExist(players, a)
  {
    forall p | 0 <= p < |a| ensures a[p] < |players[p].rows| {
      assert Hits(s, p, a[p]);
    }
  }

  /** The result an assignment stands for: each player with the team and weight of its row. */
  ghost function Result(players: seq<Player>, a: seq<nat>, status: string): map<int, Assigned>
    requires RowsExist(players, a)
  {
    if a == [] then map[] else Recorded(Result(players, a[..|a| - 1], status), players[|a| - 1], a[|a| - 1], status)
  }

  lemma {:induction false} DecodedBelowAppend(m: map<int, Assigned>, players: seq<Player>,
                                              a: seq<Arc>, c: seq<Arc>, f: seq<int>, g: seq<int>, status: string,
                                              n: nat)
    requires |a| == |f| && |c| == |g| && n <= |a| + |c|
    ensures DecodedBelow(m, players, a + c, f + g, status, n)
         == if n <= |a| then DecodedBelow(m, players, a, f, status, n)
            else DecodedBelow(Decoded(m, players, a, f, status), players, c, g, status, n - |a|)
  {
    if n > 0 {
      DecodedBelowAppend(m, players, a, c, f, g, status, n - 1);
    }
  }

  lemma DecodedAppend(m: map<int, Assigned>, players: seq<Player>,
                      a: seq<Arc>, c: seq<Arc>, f: seq<int>, g: seq<int>, status: string)
    requires |a| == |f| && |c| == |g|
    ensures Decoded(m, players, a + c, f + g, status)
         == Decoded(Decoded(m, players, a, f, status), players, c, g, status)
  {
    DecodedBelowAppend(m, players, a, c, f, g, status, |a| + |c|);
  }

  lemma DecodedSnoc(m: map<int, Assigned>, players: seq<Player>, arcs: seq<Arc>, flow: seq<int>, arc: Arc, v: int,
        status: string)
    requires |arcs| == |flow|
    ensures Decoded(m, players, arcs + [arc], flow + [v], status)
         == Record(Decoded(m, players, arcs, flow, status), players, arc, v, status)
  {
    DecodedBelowAppend(m, players, arcs, [arc], flow, [v], status, |arcs|);
  }

  ghost predicate AllPlain(arcs: seq<Arc>) {
    forall i :: 0 <= i < |arcs| ==> arcs[i].tag == Plain
  }

  lemma {:induction false} PlainBelowRecordsNothing(m: map<int, Assigned>, players: seq<Player>,
                                                    arcs: seq<Arc>, flow: seq<int>, status: string, n: nat)
    requires n <= |arcs| == |flow| && AllPlain(arcs)
    ensures DecodedBelow(m, players, arcs, flow, status, n) == m
  {
    if n > 0 {
      PlainBelowRecordsNothing(m, players, arcs, flow, status, n - 1);
    }
  }

  /** Arcs that place nobody leave no trace in the result. */
  lemma PlainRecordsNothing(m: map<int, Assigned>, players: seq<Player>, arcs: seq<Arc>, flow: seq<int>, status: string)
    requires |arcs| == |flow| && AllPlain(arcs)
    ensures Decoded(m, players, arcs, flow, status) == m
  {
    PlainBelowRecordsNothing(m, players, arcs, flow, status, |arcs|);
  }

  lemma {:induction false} RowsRecordChoice(players: seq<Player>, s: Side, m: map<int, Assigned>, p: nat, n: nat,
        chosen: nat, status: string)
    requires IsSide(s) && p < |s.dest| == |players| && n <= |s.dest[p]| == |players[p].rows| && Hits(s, p, chosen)
    ensures Decoded(m, players, RowArcs(s, p, n), RowFlow(s, p, n, chosen), status)
         == if chosen < n then Recorded(m, players[p], chosen, status) else m
  {
    if n > 0 {
      RowsRecordChoice(players, s, m, p, n - 1, chosen, status);
      if Hits(s, p, n - 1) {
        DecodedSnoc(m, players, RowArcs(s, p, n - 1), RowFlow(s, p, n - 1, chosen),
                    RowArc(s, p, n - 1), Bit(n - 1 == chosen), status);
      }
    }
  }

  lemma BlockRecordsChoice(players: seq<Player>, s: Side, m: map<int, Assigned>, p: nat, chosen: nat, status: string)
    requires IsSide(s) && SideFor(players, s) && p < |s.dest| && Hits(s, p, chosen)
    ensures Decoded(m, players, PlayerBlock(s, p), BlockFlow(s, p, chosen), status)
         == Recorded(m, players[p], chosen, status)
  {
    var n := |s.dest[p]|;
    DecodedAppend(m, players, [SourceArc(p)], RowArcs(s, p, n), [1], RowFlow(s, p, n, chosen), status);
    PlainRecordsNothing(m, players, [SourceArc(p)], [1], status);
    RowsRecordChoice(players, s, m, p, n, chosen, status);
  }

  lemma {:induction false} ChoiceIsRecorded(players: seq<Player>, s: Side, a: seq<nat>, status: string)
    requires IsSide(s) && SideFor(players, s) && IsChoice(s, a)
    ensures RowsExist(players, a)
    ensures Decoded(map[], players, PlayerArcs(s, |a|), ChoiceFlow(s, a), status) == Result(players, a, status)
  {
    ChoiceRowsExist(players, s, a);
    if a != [] {
      var p := |a| - 1;
      ChoiceIsRecorded(players, s, a[..p], status);
      assert Hits(s, p, a[p]);
      var front, block := ChoiceFlow(s, a[..p]), BlockFlow(s, p, a[p]);
      DecodedAppend(map[], players, PlayerArcs(s, p), PlayerBlock(s, p), front, block, status);
      BlockRecordsChoice(players, s, Result(players, a[..p], status), p, a[p], status);
    }
  }

  /** With plain arcs in front of them, the arcs of a choice give its result. */
  lemma PlainArcsFirst(players: seq<Player>, s: Side, a: seq<nat>, arcs: seq<Arc>, flow: seq<int>, status: string)
    requires IsSide(s) && SideFor(players, s) && IsChoice(s, a) && |arcs| == |flow| && AllPlain(arcs)
    ensures RowsExist(players, a)
    ensures Decoded(map[], players, arcs + PlayerArcs(s, |a|), flow + ChoiceFlow(s, a), status)
         == Result(players, a, status)
  {
    DecodedAppend(map[], players, arcs, PlayerArcs(s, |a|), flow, ChoiceFlow(s, a), status);
    PlainRecordsNothing(map[], players, arcs, flow, status);
    ChoiceIsRecorded(players, s, a, status);
  }

  /** With distinct ids the result lists every player, at the team of its own row. */
  lemma {:induction false} ResultPlacesEveryone(players: seq<Player>, a: seq<nat>, status: string, p: nat)
    requires RowsExist(players, a) && DistinctPlayers(players) && p < |a|
    ensures players[p].id in Result(players, a, status)
    ensures var row := players[p].rows[a[p]];
      Result(players, a, status)[players[p].id] == Assigned(row.teamId, row.weight, status)
  {
    var n := |a| - 1;
    if p < n {
      ResultPlacesEveryone(players, a[..n], status, p);
    }
  }

  /** The weights of the chosen rows. */
  ghost function ChosenWeight(players: seq<Player>, a: seq<nat>): int
    requires RowsExist(players, a)
  {
    if a == [] then 0
    else
      var n := |a| - 1;
      ChosenWeight(players, a[..n]) + players[n].rows[a[n]].weight
  }

  ghost predicate SameWeights(players: seq<Player>, s: Side) {
    |s.weight| == |players| && forall p, r :: 0 <= p < |players| && 0 <= r < |players[p].rows| ==>
      |s.weight[p]| == |players[p].rows| && s.weight[p][r] == players[p].rows[r].weight
  }

  lemma {:induction false} WeightIsChosen(players: seq<Player>, s: Side, a: seq<nat>)
    requires IsSide(s) && SideFor(players, s) && SameWeights(players, s) && IsChoice(s, a)
    ensures RowsExist(players, a) && TotalWeight(s, a) == ChosenWeight(players, a)
  {
    ChoiceRowsExist(players, s, a);
    if a != [] {
      WeightIsChosen(players, s, a[..|a| - 1]);
    }
  }

  /** How many of the chosen rows name the team. */
  ghost function ChosenAt(players: seq<Player>, a: seq<nat>, id: int): nat
    requires RowsExist(players, a)
  {
    if a == [] then 0
    else
      var n := |a| - 1;
      ChosenAt(players, a[..n], id) + if players[n].rows[a[n]].teamId == id then 1 else 0
  }

  /** How many of the first n players a result lists at the team. */
  ghost function HeadCount(players: seq<Player>, m: map<int, Assigned>, n: nat, id: int): nat
    requires n <= |players|
  {
    if n == 0 then 0
    else
      var player := players[n - 1].id;
      HeadCount(players, m, n - 1, id) + if player in m && m[player].teamId == id then 1 else 0
  }

  lemma {:induction false} ResultHeadCount(players: seq<Player>, a: seq<nat>, status: string, n: nat, id: int)
    requires RowsExist(players, a) && DistinctPlayers(players) && n <= |a|
    ensures HeadCount(players, Result(players, a, status), n, id) == ChosenAt(players, a[..n], id)
  {
    if n > 0 {
      ResultHeadCount(players, a, status, n - 1, id);
      ResultPlacesEveryone(players, a, status, n - 1);
      assert a[..n][..n - 1] == a[..n - 1];
    }
  }

  /** The result of a choice for all players lists everyone, and its head counts are those of the chosen rows. */
  lemma EveryoneCounted(players: seq<Player>, a: seq<nat>, status: string, result: map<int, Assigned>)
    requires RowsExist(players, a) && |a| == |players| && DistinctPlayers(players)
    requires result == Result(players, a, status)
    ensures forall p :: 0 <= p < |players| ==> players[p].id in result
    ensures forall id :: HeadCount(players, result, |players|, id) == ChosenAt(players, a, id)
  {
    forall p | 0 <= p < |players| ensures players[p].id in result {
      ResultPlacesEveryone(players, a, status, p);
    }
    forall id ensures HeadCount(players, result, |players|, id) == ChosenAt(players, a, id) {
      ResultHeadCount(players, a, status, |players|, id);
      assert a[..|players|] == a;
    }
  }

  /** Every entry of a result stands for a chosen row of the listed player. */
  lemma {:induction false} ResultFromRows(players: seq<Player>, a: seq<nat>, status: string, id: int) returns (p: nat)
    requires RowsExist(players, a) && id in Result(players, a, status)
    ensures p < |a| && players[p].id == id
    ensures var row := players[p].rows[a[p]];
      Result(players, a, status)[id] == Assigned(row.teamId, row.weight, status)
  {
    var n := |a| - 1;
    if players[n].id == id {
      p := n;
    } else {
      p := ResultFromRows(players, a[..n], status, id);
    }
  }

  method Decode(players: seq<Player>, net: Net, flow: seq<int>, status: string) returns (m: map<int, Assigned>)
    requires |net.arcs| == |flow|
    ensures m == Decoded(map[], players, net.arcs, flow, status)
  {
    m := map[];
    for i := 0 to |net.arcs|
      invariant m == DecodedBelow(map[], players, net.arcs, flow, status, i)
    {
      var row := RowOf(players, net.arcs[i].tag);
      if row.Some? && flow[i] > 0 {
        m := m[players[net.arcs[i].tag.player].id := Assigned(row.value.teamId, row.value.weight, status)];
      }
    }
  }

  ghost predicate HonestSolver(solve: Net -> Answer) {
    forall net :: Honest(net, solve(net))
  }

  ghost predicate AlwaysOptimal(solve: Net -> Answer) {
    forall net :: !solve(net).Feasible?
  }
}
