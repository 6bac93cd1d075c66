/** The protection list for free-agent compensation: the weighted objective, the fallback, and the ranks. */
module FaCompensation {
  import opened Optional
  import opened Ordering
  import Sums

  const SCORE_WEIGHT: nat := 1000
  const ROLE_BONUS: nat := 25

  /** A request row; a decision score that is present but unreadable counts as Some(0). */
  datatype Row = Row(playerId: int, score: int, age: int, role: int, decisionScore: Option<int>, protectCount: int)

  // ----- the objective -----

  function Scores(rows: seq<Row>): (r: seq<int>)
    ensures |r| == |rows|
  {
    seq(|rows|, i requires 0 <= i < |rows| => rows[i].score)
  }

  ghost function Total(rows: seq<Row>, chosen: set<nat>): int {
    Sums.Weight(Scores(rows), chosen)
  }

  ghost function Roles(rows: seq<Row>, chosen: set<nat>): set<int> {
    set i | i in chosen && i < |rows| :: rows[i].role
  }

  /** What the solver maximises: a thousand per point of score, twenty-five per role covered. */
  ghost function Objective(rows: seq<Row>, chosen: set<nat>): int {
    SCORE_WEIGHT * Total(rows, chosen) + ROLE_BONUS * |Roles(rows, chosen)|
  }

  ghost predicate IsSelection(rows: seq<Row>, count: nat, chosen: set<nat>) {
    |chosen| == count && forall i :: i in chosen ==> i < |rows|
  }

  ghost predicate IsOptimal(rows: seq<Row>, count: nat, chosen: set<nat>) {
    IsSelection(rows, count, chosen)
    && forall other :: IsSelection(rows, count, other) ==> Objective(rows, other) <= Objective(rows, chosen)
  }

  /** The greatest total score, and among those selections the most roles. */
  ghost predicate IsLexicographic(rows: seq<Row>, count: nat, chosen: set<nat>) {
    IsSelection(rows, count, chosen)
    && forall other :: IsSelection(rows, count, other) ==>
         Total(rows, other) < Total(rows, chosen)
         || (Total(rows, other) == Total(rows, chosen) && |Roles(rows, other)| <= |Roles(rows, chosen)|)
  }

  // ----- swapping one player for another -----

  lemma {:induction false} WeightInsert(w: seq<int>, chosen: set<nat>, b: nat)
    requires b < |w| && b !in chosen
    ensures Sums.Weight(w, chosen + {b}) == Sums.Weight(w, chosen) + w[b]
  {
    var n := |w| - 1;
    if b == n {
      SameWeight(w[..n], chosen + {b}, chosen);
    } else {
      WeightInsert(w[..n], chosen, b);
    }
  }

  lemma {:induction false} SameWeight(w: seq<int>, a: set<nat>, b: set<nat>)
    requires forall i :: 0 <= i < |w| ==> (i in a <==> i in b)
    ensures Sums.Weight(w, a) == Sums.Weight(w, b)
  {
    if w != [] {
      SameWeight(w[..|w| - 1], a, b);
    }
  }

  function Swapped(chosen: set<nat>, out: nat, into: nat): set<nat> {
    chosen - {out} + {into}
  }

  lemma {:induction false} SmallerSet<T>(a: set<T>, b: set<T>)
    requires a <= b
    ensures |a| <= |b|
  {
    if x :| x in a {
      SmallerSet(a - {x}, b - {x});
    }
  }

  lemma SwapEffect(rows: seq<Row>, count: nat, chosen: set<nat>, out: nat, into: nat)
    requires IsSelection(rows, count, chosen) && out in chosen && into < |rows| && into !in chosen
    ensures IsSelection(rows, count, Swapped(chosen, out, into))
    ensures Total(rows, Swapped(chosen, out, into)) == Total(rows, chosen) - rows[out].score + rows[into].score
    ensures |Roles(rows, Swapped(chosen, out, into))| >= |Roles(rows, chosen)| - 1
  {
    var rest := chosen - {out};
    assert rest + {out} == chosen;
    WeightInsert(Scores(rows), rest, out);
    WeightInsert(Scores(rows), rest, into);
    var before, after := Roles(rows, chosen), Roles(rows, Swapped(chosen, out, into));
    forall role | role in before - {rows[out].role} ensures role in after {
      var i :| i in chosen && i < |rows| && rows[i].role == role;
      assert i in Swapped(chosen, out, into);
    }
    SmallerSet(before - {rows[out].role}, after);
  }

  /** No outsider scores more than a chosen player. */
  ghost predicate TopScores(rows: seq<Row>, chosen: set<nat>) {
    forall i, j :: i in chosen && i < |rows| && 0 <= j < |rows| && j !in chosen ==> rows[j].score <= rows[i].score
  }

  /** An optimal selection holds top scores: one better outsider is worth more than any role it may cost. */
  lemma OptimalIsTop(rows: seq<Row>, count: nat, chosen: set<nat>)
    requires IsOptimal(rows, count, chosen)
    ensures TopScores(rows, chosen)
  {
    forall i, j | i in chosen && i < |rows| && 0 <= j < |rows| && j !in chosen ensures rows[j].score <= rows[i].score {
      if rows[j].score > rows[i].score {
        SwapEffect(rows, count, chosen, i, j);
      }
    }
  }

  lemma OneLeftOver(a: set<nat>, b: set<nat>) returns (x: nat)
    requires |a| == |b| && !(b <= a)
    ensures x in a && x !in b
  {
    if a <= b {
      SameSize(a, b);
    }
    x :| x in a && x !in b;
  }

  lemma SameSize(a: set<nat>, b: set<nat>)
    requires a <= b && |a| == |b|
    ensures a == b
  {
    if x :| x in b && x !in a {
      SmallerSet(a, b - {x});
    }
  }

  /** Top scores add up to the greatest total there is. */
  lemma {:induction false} TopIsGreatest(rows: seq<Row>, count: nat, chosen: set<nat>, other: set<nat>)
    requires IsSelection(rows, count, chosen) && TopScores(rows, chosen) && IsSelection(rows, count, other)
    ensures Total(rows, other) <= Total(rows, chosen)
    decreases other - chosen
  {
    if other <= chosen {
      SameSize(other, chosen);
    } else {
      var out :| out in other && out !in chosen;
      var into := OneLeftOver(chosen, other);
      SwapEffect(rows, count, other, out, into);
      assert Swapped(other, out, into) - chosen == other - chosen - {out};
      TopIsGreatest(rows, count, chosen, Swapped(other, out, into));
    }
  }

  /** From any selection, swapping in better players climbs to the lexicographic best without losing objective. */
  lemma {:induction false} LexicographicWins(rows: seq<Row>, count: nat, chosen: set<nat>, other: set<nat>)
    requires IsLexicographic(rows, count, chosen) && IsSelection(rows, count, other)
    ensures Objective(rows, other) <= Objective(rows, chosen)
    decreases Total(rows, chosen) - Total(rows, other)
  {
    if TopScores(rows, other) {
      TopIsGreatest(rows, count, other, chosen);
    } else {
      var i: nat, j: nat :| i in other && i < |rows| && 0 <= j < |rows| && j !in other && rows[j].score > rows[i].score;
      SwapEffect(rows, count, other, i, j);
      LexicographicWins(rows, count, chosen, Swapped(other, i, j));
    }
  }

  /**
   The weighted objective is lexicographic for every request, whatever the number of roles: its optima are
   exactly the selections of greatest total score that cover the most roles.
   */
  lemma ObjectiveIsLexicographic(rows: seq<Row>, count: nat, chosen: set<nat>)
    ensures IsOptimal(rows, count, chosen) <==> IsLexicographic(rows, count, chosen)
  {
    if IsOptimal(rows, count, chosen) {
      OptimalIsTop(rows, count, chosen);
      forall other | IsSelection(rows, count, other)
        ensures Total(rows, other) < Total(rows, chosen)
             || (Total(rows, other) == Total(rows, chosen) && |Roles(rows, other)| <= |Roles(rows, chosen)|)
      {
        TopIsGreatest(rows, count, chosen, other);
        assert Objective(rows, other) <= Objective(rows, chosen);
      }
    }
    if IsLexicographic(rows, count, chosen) {
      forall other | IsSelection(rows, count, other) ensures Objective(rows, other) <= Objective(rows, chosen) {
        LexicographicWins(rows, count, chosen, other);
      }
    }
  }

  // ----- orders -----

  function ScoreKey(row: Row): Key {
    Key(-(row.score as real), row.playerId as real, 0.0, 0.0, 0.0)
  }

  function DecisionKey(row: Row): Key {
    Key(-((if row.decisionScore.Some? then row.decisionScore.value else row.score) as real),
        row.age as real, row.playerId as real, 0.0, 0.0)
  }

  ghost predicate NoRepeats(s: seq<nat>) {
    forall j, k :: 0 <= j < k < |s| ==> s[j] != s[k]
  }

  function KeyOf(row: Row, byDecision: bool): Key {
    if byDecision then DecisionKey(row) else ScoreKey(row)
  }

  /** The higher score first, then the smaller id. */
  ghost predicate ByScore(x: Row, y: Row) {
    x.score > y.score || (x.score == y.score && x.playerId <= y.playerId)
  }

  /** The decision score decides where there is one, and the score elsewhere; then the younger, then the smaller id. */
  ghost predicate ByDecision(x: Row, y: Row) {
    var a := if x.decisionScore.Some? then x.decisionScore.value else x.score;
    var b := if y.decisionScore.Some? then y.decisionScore.value else y.score;
    a > b || (a == b && (x.age < y.age || (x.age == y.age && x.playerId <= y.playerId)))
  }

  lemma KeysMean(x: Row, y: Row)
    ensures ByScore(x, y) <==> !Below(ScoreKey(y), ScoreKey(x))
    ensures ByDecision(x, y) <==> !Below(DecisionKey(y), DecisionKey(x))
  {
  }

  ghost predicate InOrder(rows: seq<Row>, r: seq<nat>, byDecision: bool)
    requires Indices(r, |rows|)
  {
    forall j, k :: 0 <= j < k < |r| ==>
      if byDecision then ByDecision(rows[r[j]], rows[r[k]]) else ByScore(rows[r[j]], rows[r[k]])
  }

  /** The picked rows in stable order of their keys. */
  function Sorted(rows: seq<Row>, picked: seq<nat>, byDecision: bool): (r: seq<nat>)
    requires Indices(picked, |rows|)
    ensures |r| == |picked| && Indices(r, |rows|) && forall i :: i in r <==> i in picked
    ensures NoRepeats(picked) ==> NoRepeats(r)
    ensures InOrder(rows, r, byDecision)
  {
    var keys := seq(|picked|, j requires 0 <= j < |picked| => KeyOf(rows[picked[j]], byDecision));
    var order := SortedOrder(keys);
    var r := seq(|order|, j requires 0 <= j < |order| => picked[order[j]]);
    SortedHolds(rows, picked, byDecision, keys, order, r);
    r
  }

  lemma SortedHolds(rows: seq<Row>, picked: seq<nat>, byDecision: bool, keys: seq<Key>, order: seq<nat>, r: seq<nat>)
    requires Indices(picked, |rows|) && |keys| == |picked| && IsSorted(order, keys)
    requires forall j :: 0 <= j < |picked| ==> keys[j] == KeyOf(rows[picked[j]], byDecision)
    requires |r| == |order| && forall j :: 0 <= j < |order| ==> r[j] == picked[order[j]]
    ensures Indices(r, |rows|) && forall i :: i in r <==> i in picked
    ensures NoRepeats(picked) ==> NoRepeats(r)
    ensures InOrder(rows, r, byDecision)
  {
    forall i | i in picked ensures i in r {
      var p :| 0 <= p < |picked| && picked[p] == i;
      assert p in order;
      var j :| 0 <= j < |order| && order[j] == p;
      assert r[j] == i;
    }
    forall j, k | 0 <= j < k < |r|
      ensures !Below(keys[order[k]], keys[order[j]]) && (NoRepeats(picked) ==> r[j] != r[k])
    {
      assert Before(keys, order[j], order[k]);
      SortedDistinct(order, keys, j, k);
    }
    forall j, k | 0 <= j < k < |r|
      ensures if byDecision then ByDecision(rows[r[j]], rows[r[k]]) else ByScore(rows[r[j]], rows[r[k]])
    {
      assert !Below(keys[order[k]], keys[order[j]]);
      KeysMean(rows[r[j]], rows[r[k]]);
    }
  }

  // ----- the fallback -----

  function AllIndices(n: nat): (r: seq<nat>)
    ensures |r| == n && forall i :: 0 <= i < n ==> r[i] == i
  {
    seq(n, i => i)
  }

  function Fallback(rows: seq<Row>, count: nat): set<nat>
    requires count <= |rows|
  {
    var order := Sorted(rows, AllIndices(|rows|), false);
    set k | 0 <= k < count :: order[k]
  }

  lemma {:induction false} PrefixSize(order: seq<nat>, count: nat)
    requires count <= |order| && NoRepeats(order)
    ensures |set k | 0 <= k < count :: order[k]| == count
  {
    if count > 0 {
      PrefixSize(order, count - 1);
      assert (set k | 0 <= k < count :: order[k]) == (set k | 0 <= k < count - 1 :: order[k]) + {order[count - 1]};
    }
  }

  lemma FallbackIsTop(rows: seq<Row>, count: nat)
    requires count <= |rows|
    ensures IsSelection(rows, count, Fallback(rows, count)) && TopScores(rows, Fallback(rows, count))
  {
    var order := Sorted(rows, AllIndices(|rows|), false);
    forall i: nat | i < |rows| ensures i in order {
      assert AllIndices(|rows|)[i] == i;
    }
    PrefixSize(order, count);
    var chosen := Fallback(rows, count);
    forall i | i in chosen ensures i < |rows| {
      assert i in order;
    }
    forall i, j | i in chosen && i < |rows| && 0 <= j < |rows| && j !in chosen ensures rows[j].score <= rows[i].score {
      var p :| 0 <= p < count && order[p] == i;
      assert j in order;
      var q :| 0 <= q < |order| && order[q] == j;
      assert ByScore(rows[order[p]], rows[order[q]]);
    }
  }

  /** An optimal selection scores exactly what sorting and cutting would, and covers at least as many roles. */
  lemma OptimalBeatsFallback(rows: seq<Row>, count: nat, chosen: set<nat>)
    requires count <= |rows| && IsOptimal(rows, count, chosen)
    ensures Total(rows, chosen) == Total(rows, Fallback(rows, count))
    ensures |Roles(rows, chosen)| >= |Roles(rows, Fallback(rows, count))|
  {
    ObjectiveIsLexicographic(rows, count, chosen);
    FallbackIsTop(rows, count);
    TopIsGreatest(rows, count, Fallback(rows, count), chosen);
  }

  // ----- the run -----

  /** The solver's answer: an optimum, a selection it could not prove optimal in time, or none. */
  datatype Answer = Optimal(chosen: set<nat>) | Feasible(chosen: set<nat>) | NoSolution

  ghost predicate Honest(rows: seq<Row>, count: nat, answer: Answer) {
    match answer
    case Optimal(chosen) => IsOptimal(rows, count, chosen)
    case Feasible(chosen) => IsSelection(rows, count, chosen)
    case NoSolution => true
  }

  datatype Written = Written(playerId: int, rank: nat, isProtected: bool)

  /** The rows that name a player. */
  function Named(request: seq<Row>): seq<Row> {
    if request == [] then []
    else
      var front := Named(request[..|request| - 1]);
      if request[|request| - 1].playerId != 0 then front + [request[|request| - 1]] else front
  }

  /** Exactly the rows with a player id, in request order. */
  lemma {:induction false} NamedIs(request: seq<Row>, row: Row)
    ensures row in Named(request) <==> row in request && row.playerId != 0
    ensures |Named(request)| == |set k | 0 <= k < |request| && request[k].playerId != 0|
  {
    var named := set k | 0 <= k < |request| && request[k].playerId != 0;
    if request == [] {
      assert named == {};
    } else {
      var front, last := request[..|request| - 1], request[|request| - 1];
      NamedIs(front, row);
      assert request == front + [last];
      var before := set k | 0 <= k < |front| && front[k].playerId != 0;
      assert named == if last.playerId != 0 then before + {|front|} else before;
    }
  }

  method ReadRows(request: seq<Row>) returns (rows: seq<Row>)
    ensures rows == Named(request)
    ensures forall i :: 0 <= i < |rows| ==> rows[i].playerId != 0
  {
    rows := [];
    for k := 0 to |request|
      invariant rows == Named(request[..k])
      invariant forall i :: 0 <= i < |rows| ==> rows[i].playerId != 0
    {
      assert request[..k + 1][..k] == request[..k];
      if request[k].playerId != 0 {
        rows := rows + [request[k]];
      }
    }
    assert request[..|request|] == request;
  }

  /** The largest count any row asks for, and at least zero. */
  function MostRequested(rows: seq<Row>): nat {
    if rows == [] then 0
    else
      var front := MostRequested(rows[..|rows| - 1]);
      if rows[|rows| - 1].protectCount > front then rows[|rows| - 1].protectCount else front
  }

  function CountOf(rows: seq<Row>): nat {
    if MostRequested(rows) < |rows| then MostRequested(rows) else |rows|
  }

  /** The count is the largest request that the rows can meet. */
  lemma {:induction false} MostRequestedIs(rows: seq<Row>)
    ensures forall i :: 0 <= i < |rows| ==> rows[i].protectCount <= MostRequested(rows)
    ensures MostRequested(rows) > 0 ==> exists i :: 0 <= i < |rows| && rows[i].protectCount == MostRequested(rows)
    ensures CountOf(rows) <= |rows| && CountOf(rows) <= MostRequested(rows)
    ensures CountOf(rows) == |rows| || CountOf(rows) == MostRequested(rows)
  {
    if rows != [] {
      var n := |rows| - 1;
      MostRequestedIs(rows[..n]);
      if MostRequested(rows) > 0 && MostRequested(rows[..n]) == MostRequested(rows) {
        var i :| 0 <= i < n && rows[..n][i].protectCount == MostRequested(rows);
        assert rows[i].protectCount == MostRequested(rows);
      }
    }
  }

  method ProtectCount(rows: seq<Row>) returns (count: nat)
    ensures count == CountOf(rows)
  {
    var most: nat := 0;
    for k := 0 to |rows|
      invariant most == MostRequested(rows[..k])
    {
      assert rows[..k + 1][..k] == rows[..k];
      if rows[k].protectCount > most {
        most := rows[k].protectCount;
      }
    }
    assert rows[..|rows|] == rows;
    count := if most < |rows| then most else |rows|;
  }

  /** Splits the rows on a set of ids, each part in request order. */
  method Split(rows: seq<Row>, ids: set<int>) returns (inside: seq<nat>, outside: seq<nat>)
    ensures Indices(inside, |rows|) && Indices(outside, |rows|) && NoRepeats(inside) && NoRepeats(outside)
    ensures forall i: nat :: i in inside <==> i < |rows| && rows[i].playerId in ids
    ensures forall i: nat :: i in outside <==> i < |rows| && rows[i].playerId !in ids
    ensures |inside| + |outside| == |rows|
  {
    inside, outside := [], [];
    for k := 0 to |rows|
      invariant Indices(inside, k) && Indices(outside, k) && NoRepeats(inside) && NoRepeats(outside)
      invariant forall i: nat :: i in inside <==> i < k && rows[i].playerId in ids
      invariant forall i: nat :: i in outside <==> i < k && rows[i].playerId !in ids
      invariant |inside| + |outside| == k
    {
      if rows[k].playerId in ids {
        inside := inside + [k];
      } else {
        outside := outside + [k];
      }
    }
  }

  method WriteRows(rows: seq<Row>, order: seq<nat>, first: nat, isProtected: bool) returns (written: seq<Written>)
    requires Indices(order, |rows|)
    ensures |written| == |order|
    ensures forall j :: 0 <= j < |order| ==> written[j] == Written(rows[order[j]].playerId, first + j, isProtected)
  {
    written := [];
    var rank := first;
    for k := 0 to |order|
      invariant |written| == k && rank == first + k
      invariant forall j :: 0 <= j < k ==> written[j] == Written(rows[order[j]].playerId, first + j, isProtected)
    {
      written := written + [Written(rows[order[k]].playerId, rank, isProtected)];
      rank := rank + 1;
    }
  }

  ghost predicate DistinctPlayers(rows: seq<Row>) {
    forall i, j :: 0 <= i < j < |rows| ==> rows[i].playerId != rows[j].playerId
  }

  function Ids(rows: seq<Row>, chosen: set<nat>): set<int> {
    set i | i in chosen && i < |rows| :: rows[i].playerId
  }

  /** Ranks 1 to n, each row written once, the protected ones first, each part in its own order. */
  ghost predicate IsRanking(rows: seq<Row>, written: seq<Written>, source: seq<nat>, cut: nat) {
    && |written| == |rows| == |source| && cut <= |rows|
    && Indices(source, |rows|) && NoRepeats(source)
    && InOrder(rows, source[..cut], false) && InOrder(rows, source[cut..], true)
    && forall j :: 0 <= j < |written| ==> written[j] == Written(rows[source[j]].playerId, j + 1, j < cut)
  }

  /** A ranking cut at the ids of a selection is cut at the selection. */
  lemma CutAtSelection(rows: seq<Row>, chosen: set<nat>, source: seq<nat>, cut: nat)
    requires DistinctPlayers(rows) && IsSelection(rows, |chosen|, chosen)
    requires Indices(source, |rows|) && NoRepeats(source) && cut <= |source|
    requires forall i: nat :: i < |rows| ==> i in source
    requires forall j :: 0 <= j < |source| ==> (j < cut <==> rows[source[j]].playerId in Ids(rows, chosen))
    ensures cut == |chosen|
    ensures forall j :: 0 <= j < |source| ==> (j < cut <==> source[j] in chosen)
  {
    forall j | 0 <= j < |source| ensures j < cut <==> source[j] in chosen {
      if j < cut {
        var i :| i in chosen && i < |rows| && rows[i].playerId == rows[source[j]].playerId;
        assert i < source[j] || source[j] < i || i == source[j];
      }
    }
    PrefixSize(source, cut);
    assert (set k | 0 <= k < cut :: source[k]) == chosen by {
      forall i | i in chosen ensures i in (set k | 0 <= k < cut :: source[k]) {
        assert i in source;
        var j :| 0 <= j < |source| && source[j] == i;
      }
    }
  }

  lemma NothingToChoose(rows: seq<Row>)
    ensures IsLexicographic(rows, 0, {})
  {
    forall other | IsSelection(rows, 0, other) ensures other == {} {
    }
  }

  /** The rows to protect, as the run decides them. */
  function Selected(rows: seq<Row>, answer: Answer): set<nat> {
    if CountOf(rows) == 0 then {}
    else
      match answer
      case Optimal(chosen) => chosen
      case Feasible(chosen) => chosen
      case NoSolution => Fallback(rows, CountOf(rows))
  }

  /**
   What is protected: a selection of the requested size; with an optimum or the fallback, one of the
   greatest total score; with an optimum, one that also covers the most roles at that score.
   */
  lemma SelectedIs(rows: seq<Row>, answer: Answer)
    requires Honest(rows, CountOf(rows), answer)
    ensures IsSelection(rows, CountOf(rows), Selected(rows, answer))
    ensures !answer.Feasible? ==>
      var best := Total(rows, Selected(rows, answer));
      forall other :: IsSelection(rows, CountOf(rows), other) ==> Total(rows, other) <= best
    ensures answer.Optimal? ==> IsLexicographic(rows, CountOf(rows), Selected(rows, answer))
  {
    var count, chosen := CountOf(rows), Selected(rows, answer);
    if count == 0 {
      NothingToChoose(rows);
    } else if answer.NoSolution? {
      FallbackIsTop(rows, count);
      forall other | IsSelection(rows, count, other) ensures Total(rows, other) <= Total(rows, chosen) {
        TopIsGreatest(rows, count, chosen, other);
      }
    } else if answer.Optimal? {
      ObjectiveIsLexicographic(rows, count, chosen);
    }
  }

  /** A ranking that protects the rows with the given ids. */
  ghost predicate RanksById(rows: seq<Row>, ids: set<int>, written: seq<Written>, source: seq<nat>, cut: nat) {
    && IsRanking(rows, written, source, cut)
    && (forall i: nat :: i < |rows| ==> i in source)
    && forall j :: 0 <= j < |source| ==> (j < cut <==> rows[source[j]].playerId in ids)
  }

  /** Writes the rows whose ids are given as protected, and the rest after them. */
  method Rank(rows: seq<Row>, ids: set<int>) returns (written: seq<Written>)
    ensures exists source, cut :: RanksById(rows, ids, written, source, cut)
  {
    var inside, outside := Split(rows, ids);
    var protectedRows, otherRows := Sorted(rows, inside, false), Sorted(rows, outside, true);
    var first := WriteRows(rows, protectedRows, 1, true);
    var second := WriteRows(rows, otherRows, 1 + |protectedRows|, false);
    written := first + second;
    Joined(rows, ids, inside, outside, protectedRows, otherRows);
    MakesRanking(rows, protectedRows, otherRows, first, second);
    assert RanksById(rows, ids, written, protectedRows + otherRows, |protectedRows|);
  }

  lemma MakesRanking(rows: seq<Row>, a: seq<nat>, b: seq<nat>, first: seq<Written>, second: seq<Written>)
    requires Indices(a, |rows|) && Indices(b, |rows|) && Indices(a + b, |rows|) && NoRepeats(a + b)
    requires |a| + |b| == |rows| && |first| == |a| && |second| == |b|
    requires InOrder(rows, a, false) && InOrder(rows, b, true)
    requires forall j :: 0 <= j < |a| ==> first[j] == Written(rows[a[j]].playerId, 1 + j, true)
    requires forall j :: 0 <= j < |b| ==> second[j] == Written(rows[b[j]].playerId, 1 + |a| + j, false)
    ensures IsRanking(rows, first + second, a + b, |a|)
  {
    assert (a + b)[..|a|] == a && (a + b)[|a|..] == b;
  }

  lemma Joined(rows: seq<Row>, ids: set<int>, inside: seq<nat>, outside: seq<nat>, a: seq<nat>, b: seq<nat>)
    requires forall i: nat :: i in inside <==> i < |rows| && rows[i].playerId in ids
    requires forall i: nat :: i in outside <==> i < |rows| && rows[i].playerId !in ids
    requires NoRepeats(a) && NoRepeats(b)
    requires (forall i :: i in a <==> i in inside) && (forall i :: i in b <==> i in outside)
    ensures Indices(a + b, |rows|) && NoRepeats(a + b)
    ensures forall i: nat :: i < |rows| ==> i in a + b
    ensures forall j :: 0 <= j < |a + b| ==> (j < |a| <==> rows[(a + b)[j]].playerId in ids)
  {
    forall j | 0 <= j < |a + b| ensures (a + b)[j] < |rows| && (j < |a| <==> rows[(a + b)[j]].playerId in ids) {
      if j < |a| {
        assert a[j] in a;
      } else {
        assert b[j - |a|] in b;
      }
    }
    forall j, k | 0 <= j < k < |a + b| ensures (a + b)[j] != (a + b)[k] {
    }
  }

  /** A ranking that protects exactly the chosen rows. */
  ghost predicate RanksSelection(rows: seq<Row>, chosen: set<nat>, written: seq<Written>, source: seq<nat>, cut: nat) {
    && IsRanking(rows, written, source, cut)
    && cut == |chosen| && forall j :: 0 <= j < |source| ==> (j < cut <==> source[j] in chosen)
  }

  /** The whole run: a ranking in which, with distinct players, exactly the selected rows are protected. */
  method OptimizeFaCompensation(request: seq<Row>, answer: Answer) returns (written: seq<Written>)
    requires Honest(Named(request), CountOf(Named(request)), answer)
    ensures exists source, cut :: IsRanking(Named(request), written, source, cut)
    ensures DistinctPlayers(Named(request)) ==>
      exists source, cut :: RanksSelection(Named(request), Selected(Named(request), answer), written, source, cut)
  {
    var rows := ReadRows(request);
    var count := ProtectCount(rows);
    var selectedIds: set<int> := {};
    if count > 0 {
      match answer {
        case Optimal(chosen) => selectedIds := Ids(rows, chosen);
        case Feasible(chosen) => selectedIds := Ids(rows, chosen);
        case NoSolution => selectedIds := Ids(rows, Fallback(rows, count));
      }
    }
    assert selectedIds == Ids(rows, Selected(rows, answer));
    SelectedIs(rows, answer);
    written := Rank(rows, selectedIds);
    ghost var source, cut :| RanksById(rows, selectedIds, written, source, cut);
    assert IsRanking(rows, written, source, cut);
    if DistinctPlayers(rows) {
      CutAtSelection(rows, Selected(rows, answer), source, cut);
      assert RanksSelection(rows, Selected(rows, answer), written, source, cut);
    }
  }
}
