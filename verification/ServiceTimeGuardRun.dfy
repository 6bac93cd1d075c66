/** The guard over its own memory: the fixed record array with its counter, and the players of the game. */
module ServiceTimeGuardRun {
  import opened Optional
  import opened ServiceTimeGuard

  /** The players visited between two looks at whether the game is saving. */
  const SAVE_CHECK_INTERVAL: nat := 128

  datatype ApplyResult =
    ApplyResult(protectedPlayer: bool, teamId: nat, before: Days, baseline: Days, registered: bool, restored: bool)

  /** A scan that could not start, stopped for a save after some players, or visited every player. */
  datatype Outcome = Skipped | Aborted(visited: nat) | Complete

  /** What a scan finds of the runtime: ready or not, a save running, the players, and a save at each later look. */
  datatype Sight = Sight(ready: bool, saving: bool, playersFound: bool, savingAt: nat -> bool)

  /** A save cuts the scan of n players short, at the start or at a look before every 128th player. */
  ghost predicate CutShort(sight: Sight, n: nat) {
    sight.ready && (sight.saving || (sight.playersFound && exists i :: 0 <= i < n && i % 128 == 0 && sight.savingAt(i)))
  }

  ghost predicate NoSaveBefore(sight: Sight, n: nat) {
    forall i :: 0 <= i < n && i % 128 == 0 ==> !sight.savingAt(i)
  }

  lemma {:induction false} FoundBelow(records: seq<Record>, i: nat, n: nat, id: nat)
    requires i <= n <= |records| && FindBelow(records, i, id).Some?
    ensures FindBelow(records, n, id) == FindBelow(records, i, id)
  {
    if n > i {
      FoundBelow(records, i, n - 1, id);
    }
  }

  class Guard {
    const players: array<Player>
    const table: array<Record>
    var count: int

    ghost predicate Valid()
      reads this, table
    {
      table.Length == SLOTS && 0 <= count <= SLOTS
    }

    ghost function Records(): seq<Record>
      requires Valid()
      reads this, table
    {
      table[..count]
    }

    ghost function Contents(): State
      requires Valid()
      reads this, players, table
    {
      State(players[..], Records())
    }

    /** No record is in use at the start. */
    constructor (memory: array<Player>)
      ensures Valid() && players == memory && Records() == [] && fresh(table)
    {
      players := memory;
      table := new Record[SLOTS](_ => Record(0, 0, 0, 0, false));
      count := 0;
    }

    method FindRecord(id: nat) returns (slot: Option<nat>)
      requires Valid()
      ensures id == 0 ==> slot == None
      ensures id != 0 ==> slot == Find(Records(), id)
    {
      if id == 0 {
        return None;
      }
      var n := if count < 0 then 0 else if count > SLOTS then SLOTS else count;
      var i := 0;
      while i < n
        invariant 0 <= i <= n == count
        invariant FindBelow(Records(), i, id) == None
      {
        if table[i].playerId == id {
          FoundBelow(Records(), i + 1, count, id);
          return Some(i);
        }
        i := i + 1;
      }
      return None;
    }

    method GetOrAddRecord(id: nat) returns (slot: Option<nat>)
      requires Valid() && id != 0
      modifies this`count, table
      ensures Valid()
      ensures old(Find(Records(), id)).Some? ==> slot == old(Find(Records(), id)) && Records() == old(Records())
      ensures old(Find(Records(), id)).None? && old(count) >= SLOTS ==> slot == None && Records() == old(Records())
      ensures old(Find(Records(), id)).None? && old(count) < SLOTS ==>
                slot == Some(old(count)) && Records() == old(Records()) + [Record(id, 0, 0, 0, false)]
    {
      var existing := FindRecord(id);
      if existing.Some? {
        return existing;
      }
      count := count + 1;
      var k := count - 1;
      if k < 0 || k >= SLOTS {
        count := count - 1;
        return None;
      }
      table[k] := Record(id, 0, 0, 0, false);
      return Some(k);
    }

    /** Writes service time, capped at sixteen bits. */
    method SetPlayerDays(i: nat, days: nat) returns (written: bool)
      requires i < players.Length
      modifies players
      ensures written == old(players[i].readable)
      ensures players[..] == if !written then old(players[..])
                             else old(players[..])[i := old(players[i]).(days := if days > 65535 then 65535 else days)]
    {
      if !players[i].readable {
        return false;
      }
      var capped := if days > 65535 then 65535 else days;
      players[i] := players[i].(days := capped);
      return true;
    }

    /** One visit. Service time is lowered exactly when the visit reports a restoration, and never raised. */
    method ApplyPlayer(i: nat, date: nat, excluded: nat -> bool) returns (result: ApplyResult)
      requires Valid() && i < players.Length
      modifies this`count, table, players
      ensures Valid() && Contents() == Apply(old(Contents()), i, date, excluded)
      ensures players[i].days <= old(players[i].days)
      ensures result.restored <==> players[i].days < old(players[i].days)
      ensures var p := old(players[i]);
        && (result.protectedPlayer <==>
              && p.readable && p.id != 0
              && ((p.currentTeam != 0 && excluded(p.currentTeam)) || (p.loanTeam != 0 && excluded(p.loanTeam))))
        && (result.protectedPlayer && p.currentTeam != 0 && excluded(p.currentTeam) ==> result.teamId == p.currentTeam)
        && (result.protectedPlayer && !(p.currentTeam != 0 && excluded(p.currentTeam)) ==> result.teamId == p.loanTeam)
      ensures result.protectedPlayer ==> result.before == old(players[i].days)
      ensures result.restored || result.registered ==> result.baseline == players[i].days
      ensures result.registered ==> !result.restored
      ensures result.registered <==> result.protectedPlayer && NewStint(old(Records()), old(players[i]), result.teamId)
    {
      result := ApplyResult(false, 0, 0, 0, false, false);
      var p := players[i];
      if !p.readable || p.id == 0 {
        return;
      }
      var team := ProtectedTeam(p, excluded);
      var found := FindRecord(p.id);
      if team == 0 {
        if found.Some? {
          table[found.value] := table[found.value].(active := false, teamId := 0);
        }
        return;
      }
      result := ApplyResult(true, team, p.days, 0, false, false);
      var slot := GetOrAddRecord(p.id);
      if slot.None? {
        return;
      }
      result := UpdateRecord(i, slot.value, team, date);
      Settle(old(Contents()), Contents(), i, date, excluded);
    }

    /** The record of a player found on a protected team: a new stint, or a lower baseline and a restoration. */
    method UpdateRecord(i: nat, slot: nat, team: nat, date: nat) returns (result: ApplyResult)
      requires Valid() && i < players.Length && slot < count && players[i].readable
      requires table[slot].playerId == players[i].id
      modifies table, players
      ensures Valid() && Records() == old(Records())[slot := Visited(old(Records()[slot]), old(players[i]), team, date)]
      ensures players[..] == old(players[..])[i := old(players[i]).(days := Records()[slot].baseline)]
      ensures result.protectedPlayer && result.teamId == team && result.before == old(players[i].days)
      ensures result.baseline == Records()[slot].baseline <= old(players[i].days)
      ensures result.restored <==> players[i].days < old(players[i].days)
      ensures result.registered ==> !result.restored
      ensures result.registered <==> !old(table[slot].active) || old(table[slot].teamId) != team
    {
      var p, r := players[i], table[slot];
      result := ApplyResult(true, team, p.days, 0, false, false);
      if !r.active || r.teamId != team {
        table[slot] := r.(active := true, teamId := team, baseline := p.days, lastSeen := date);
        return result.(registered := true, baseline := p.days);
      }
      if p.days < r.baseline {
        r := r.(baseline := p.days);
      }
      r := r.(lastSeen := date);
      table[slot] := r;
      result := result.(baseline := r.baseline);
      if p.days > r.baseline {
        var written := SetPlayerDays(i, r.baseline);
        result := result.(restored := written);
      }
    }

    /** Visits the players in order, looking for a save before every 128th of them. */
    method ScanPlayers(date: nat, sight: Sight, excluded: nat -> bool) returns (outcome: Outcome)
      requires Valid()
      modifies this`count, table, players
      ensures Valid()
      ensures outcome.Skipped? <==> !sight.ready || (!sight.saving && (!sight.playersFound || players.Length == 0))
      ensures outcome.Skipped? ==> Contents() == old(Contents())
      ensures outcome.Complete? ==> Contents() == Scan(old(Contents()), players.Length, date, excluded)
      ensures outcome.Complete? ==> NoSaveBefore(sight, players.Length)
      ensures outcome.Aborted? ==> outcome.visited <= players.Length && outcome.visited % 128 == 0
      ensures outcome.Aborted? ==> Contents() == Scan(old(Contents()), outcome.visited, date, excluded)
      ensures outcome.Aborted? && sight.saving ==> outcome.visited == 0
      ensures outcome.Aborted? && !sight.saving ==>
        outcome.visited < players.Length && sight.savingAt(outcome.visited) && NoSaveBefore(sight, outcome.visited)
      ensures outcome.Aborted? <==> CutShort(sight, players.Length)
    {
      if !sight.ready {
        return Skipped;
      }
      if sight.saving {
        return Aborted(0);
      }
      if !sight.playersFound || players.Length == 0 {
        return Skipped;
      }
      var i := 0;
      while i < players.Length
        invariant Valid() && 0 <= i <= players.Length
        invariant Contents() == Scan(old(Contents()), i, date, excluded)
        invariant NoSaveBefore(sight, i)
      {
        if i % SAVE_CHECK_INTERVAL == 0 {
          if sight.savingAt(i) {
            return Aborted(i);
          }
        }
        var visit := ApplyPlayer(i, date, excluded);
        i := i + 1;
      }
      return Complete;
    }

    /** One unit of work stays unprocessed exactly when a save cut its scan short. */
    method ProcessWork(date: nat, sight: Sight, excluded: nat -> bool) returns (processed: bool, outcome: Outcome)
      requires Valid()
      modifies this`count, table, players
      ensures Valid() && (processed <==> !outcome.Aborted?) && (processed <==> !CutShort(sight, players.Length))
      ensures outcome.Skipped? <==> !sight.ready || (!sight.saving && (!sight.playersFound || players.Length == 0))
      ensures outcome.Skipped? ==> Contents() == old(Contents())
      ensures outcome.Complete? ==> Contents() == Scan(old(Contents()), players.Length, date, excluded)
      ensures outcome.Aborted? ==> outcome.visited <= players.Length && outcome.visited % 128 == 0
      ensures outcome.Aborted? ==> Contents() == Scan(old(Contents()), outcome.visited, date, excluded)
    {
      outcome := ScanPlayers(date, sight, excluded);
      processed := !outcome.Aborted?;
    }

    /**
     Retrying pulse after pulse until the work is processed: if the last scan is complete, the result is
     that of one uninterrupted scan at its date, whatever earlier pulses left half done.
     */
    method ProcessPulses(dates: seq<nat>, sights: seq<Sight>, excluded: nat -> bool)
      returns (tried: nat, outcome: Outcome)
      requires Valid() && Sound(Contents()) && |dates| == |sights| > 0
      modifies this`count, table, players
      ensures Valid() && Sound(Contents()) && 0 < tried <= |dates|
      ensures forall t :: 0 <= t < tried - 1 ==> CutShort(sights[t], players.Length)
      ensures outcome.Aborted? <==> CutShort(sights[tried - 1], players.Length)
      ensures tried < |dates| ==> !outcome.Aborted?
      ensures outcome.Complete? ==> Contents() == Scan(old(Contents()), players.Length, dates[tried - 1], excluded)
    {
      ghost var start := Contents();
      ghost var tries: seq<Attempt> := [];
      tried, outcome := 0, Skipped;
      var processed := false;
      while tried < |dates| && !processed
        invariant Valid() && 0 <= tried <= |dates| && |start.players| == players.Length
        invariant processed <==> tried > 0 && !outcome.Aborted?
        invariant tried == 0 ==> outcome.Skipped?
        invariant forall t :: 0 <= t < tried - 1 ==> CutShort(sights[t], players.Length)
        invariant tried > 0 ==> (outcome.Aborted? <==> CutShort(sights[tried - 1], players.Length))
        invariant Pulsed(start, Contents(), tries, outcome, if tried == 0 then 0 else dates[tried - 1], excluded)
      {
        ghost var before := Contents();
        processed, outcome := ProcessWork(dates[tried], sights[tried], excluded);
        tries := PulseStep(start, before, Contents(), tries, outcome, dates[tried], excluded);
        tried := tried + 1;
      }
    }
  }

  /** The player has no record but there is room for one, or its record is not of a running stint with this team. */
  ghost predicate NewStint(records: seq<Record>, p: Player, team: nat) {
    var slot := Find(records, p.id);
    if slot.None? then |records| < SLOTS else !records[slot.value].active || records[slot.value].teamId != team
  }

  /** Some pulses after the start: what a complete last scan leaves, or else what the aborted ones have left. */
  ghost predicate Pulsed(start: State, now: State, tries: seq<Attempt>, outcome: Outcome, date: nat,
        excluded: nat -> bool) {
    && Sound(start) && Sound(now)
    && (forall t :: 0 <= t < |tries| ==> tries[t].players <= |start.players|)
    && now == if outcome.Complete? then Scan(start, |start.players|, date, excluded)
              else Attempts(start, tries, excluded)
  }

  lemma PulseStep(start: State, before: State, now: State, tries: seq<Attempt>, outcome: Outcome, date: nat,
        excluded: nat -> bool)
    returns (next: seq<Attempt>)
    requires Pulsed(start, before, tries, Skipped, 0, excluded)
    requires outcome.Aborted? ==> outcome.visited <= |before.players|
    requires now == match outcome
                    case Skipped => before
                    case Aborted(visited) => Scan(before, visited, date, excluded)
                    case Complete => Scan(before, |before.players|, date, excluded)
    ensures Pulsed(start, now, next, outcome, date, excluded)
  {
    next := tries;
    match outcome
    case Skipped =>
    case Aborted(visited) =>
      var last := Attempt(visited, date);
      NextTry(start, tries, before, last, excluded);
      next := tries + [last];
    case Complete =>
      LastTry(start, tries, before, date, excluded);
  }

  lemma NextTry(st: State, tries: seq<Attempt>, before: State, last: Attempt, excluded: nat -> bool)
    requires forall t :: 0 <= t < |tries| ==> tries[t].players <= |st.players|
    requires before == Attempts(st, tries, excluded) && Sound(before) && last.players <= |st.players|
    ensures Attempts(st, tries + [last], excluded) == Scan(before, last.players, last.date, excluded)
    ensures Sound(Scan(before, last.players, last.date, excluded))
  {
    var more := tries + [last];
    assert more[..|more| - 1] == tries;
    ScanSettles(before, last.players, last.date, excluded);
  }

  lemma LastTry(st: State, tries: seq<Attempt>, before: State, date: nat, excluded: nat -> bool)
    requires forall t :: 0 <= t < |tries| ==> tries[t].players <= |st.players|
    requires before == Attempts(st, tries, excluded) && Sound(before) && Sound(st)
    ensures Scan(before, |st.players|, date, excluded) == Scan(st, |st.players|, date, excluded)
    ensures Sound(Scan(before, |st.players|, date, excluded))
  {
    ScanSettles(before, |st.players|, date, excluded);
    RetriesAreSafe(st, tries, date, excluded);
  }

  /** A visit that found or made a record, as a step on values. */
  lemma Settle(st: State, now: State, i: nat, date: nat, excluded: nat -> bool)
    requires i < |st.players| && Visible(st.players[i]) && ProtectedTeam(st.players[i], excluded) != 0
    requires var p := st.players[i];
      var team := ProtectedTeam(p, excluded);
      var slot := Find(st.records, p.id);
      if slot.None? then
        |st.records| < SLOTS && now == st.(records := st.records + [Record(p.id, team, p.days, date, true)])
      else
        var r := Visited(st.records[slot.value], p, team, date);
        now == State(st.players[i := p.(days := r.baseline)], st.records[slot.value := r])
    ensures now == Apply(st, i, date, excluded)
  {
  }
}
