/**
 The request rows of an amateur batch and the per-team facts collected from them.

 A player has an identifier, a position bucket and candidate rows; a row names a team, may be
 rejected, and carries the tiers of both sides and the weight of the pair.

 Cells that are missing or unreadable read as a default.
 */
module AmateurData {
  import opened Optional

  /** One candidate row: a player, a school team, and what the request says about the pair. */
  datatype Row = Row(
    teamId: int,
    rejected: bool,
    playerTier: Option<int>,
    teamTier: Option<int>,
    weight: int)

  /** A player of the batch with its candidate rows, in request order. */
  datatype Player = Player(id: int, bucket: nat, rows: seq<Row>)

  /** An integer cell that may be missing or unreadable. */
  function ToInt(cell: Option<int>, default: int): int {
    if cell.Some? then cell.value else default
  }

  function Abs(x: int): nat {
    if x < 0 then -x else x
  }

  function TierGap(row: Row): nat {
    Abs(ToInt(row.playerTier, 0) - ToInt(row.teamTier, 0))
  }

  predicate TierAllowed(row: Row, maxTierGap: Option<int>) {
    maxTierGap.None? || TierGap(row) <= maxTierGap.value
  }

  /** A row that is not rejected and names a team, with tiers (0 when unreadable) no further apart than the gap. */
  ghost predicate Admitted(row: Row, gap: Option<int>) {
    && !row.rejected && row.teamId != 0
    && (gap.Some? ==>
          var player := if row.playerTier.Some? then row.playerTier.value else 0;
          var team := if row.teamTier.Some? then row.teamTier.value else 0;
          -gap.value <= player - team <= gap.value)
  }

  /** A collected team as the flexible stage sees it. */
  datatype Seat = Seat(id: int, capacity: int, minFill: int)

  function Capacity(team: Seat, useIncoming: bool, incomingCap: int): int {
    if useIncoming then incomingCap else if team.capacity < 0 then 0 else team.capacity
  }

  ghost predicate DistinctIds(teams: seq<Seat>) {
    forall i, j :: 0 <= i < j < |teams| ==> teams[i].id != teams[j].id
  }

  /** The position of a team in the collected order, if it was collected. */
  function IndexOf(teams: seq<Seat>, id: int): (r: Option<nat>)
    ensures r.Some? ==> r.value < |teams| && teams[r.value].id == id
    ensures r.None? ==> forall i :: 0 <= i < |teams| ==> teams[i].id != id
  {
    if teams == [] then None
    else if teams[|teams| - 1].id == id then Some(|teams| - 1)
    else IndexOf(teams[..|teams| - 1], id)
  }

  lemma {:induction false} IndexOfId(teams: seq<Seat>, t: nat)
    requires DistinctIds(teams) && t < |teams|
    ensures IndexOf(teams, teams[t].id) == Some(t)
  {
    if t < |teams| - 1 {
      IndexOfId(teams[..|teams| - 1], t);
    }
  }

  /** All rows of a batch, player by player. */
  function AllRows(players: seq<Player>): seq<Row> {
    if players == [] then [] else AllRows(players[..|players| - 1]) + players[|players| - 1].rows
  }
}
