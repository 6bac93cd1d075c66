/**
 The collected teams of a batch, with the per-team entries that the allocators update in place.

 The program keeps a dictionary per team; here each entry is a column over the teams in insertion
 order, and what an allocator changes is a column of its own.

 Facts are fixed once a team is collected.
 */
module TeamTables {
  import opened Sums
  import opened AmateurData

  /** What is fixed about a team once it is collected. Role counts are indexed by position bucket. */
  datatype TeamFacts = TeamFacts(
    id: int,
    playerCount: int,
    hitterCount: int,
    pitcherCount: int,
    minHitters: int,
    minPitchers: int,
    roleCounts: seq<int>,
    reputation: int,
    percentile: real,
    penaltyStages: int,
    capacity: int)

  /** `team_info`: a dictionary in insertion order. Column i belongs to the i-th collected team. */
  class TeamTable {
    const facts: seq<TeamFacts>
    var minFill: seq<int>
    var target: seq<int>

    ghost predicate Valid()
      reads this
    {
      |facts| == |minFill| == |target| && DistinctTeams(facts)
    }

    constructor (facts: seq<TeamFacts>, minFill: seq<int>)
      requires |facts| == |minFill| && DistinctTeams(facts)
      ensures Valid() && this.facts == facts && this.minFill == minFill
      ensures target == seq(|facts|, _ => 0)
    {
      this.facts := facts;
      this.minFill := minFill;
      this.target := seq(|facts|, _ => 0);
    }
  }

  ghost predicate DistinctTeams(facts: seq<TeamFacts>) {
    forall i, j :: 0 <= i < j < |facts| ==> facts[i].id != facts[j].id
  }

  function Positive(s: seq<int>): (r: seq<int>)
    ensures |r| == |s| && forall i :: 0 <= i < |r| ==> r[i] == Max(0, s[i])
  {
    seq(|s|, i requires 0 <= i < |s| => Max(0, s[i]))
  }

  function CapacityColumn(facts: seq<TeamFacts>): (r: seq<int>)
    ensures |r| == |facts| && forall i :: 0 <= i < |r| ==> r[i] == facts[i].capacity
  {
    seq(|facts|, i requires 0 <= i < |facts| => facts[i].capacity)
  }

  /** The collected teams as the solvers see them. */
  function SeatsOf(facts: seq<TeamFacts>, fills: seq<int>): (r: seq<Seat>)
    requires |facts| == |fills|
    ensures |r| == |facts|
    ensures forall i :: 0 <= i < |r| ==> r[i] == Seat(facts[i].id, facts[i].capacity, fills[i])
  {
    seq(|facts|, i requires 0 <= i < |facts| => Seat(facts[i].id, facts[i].capacity, fills[i]))
  }
}
