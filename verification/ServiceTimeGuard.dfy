/** The service-time guard: per-player records, one pass over one player, and the scan over all. */
module ServiceTimeGuard {
  import opened Optional

  /** The number of record slots. */
  const SLOTS: nat := 8192

  /** Service days are stored in sixteen bits. */
  type Days = d: nat | d <= 65535

  /** The fields of a player that the guard reads; it only ever writes `days`. */
  datatype Player = Player(id: nat, currentTeam: nat, loanTeam: nat, days: Days, readable: bool)

  datatype Record = Record(playerId: nat, teamId: nat, baseline: Days, lastSeen: nat, active: bool)

  /** Game memory and record table. */
  datatype State = State(players: seq<Player>, records: seq<Record>)

  // ----- lookup -----

  function FindBelow(records: seq<Record>, n: nat, id: nat): (r: Option<nat>)
    requires n <= |records|
    ensures r.Some? ==> r.value < n && records[r.value].playerId == id
  {
    if n == 0 then None
    else
      var earlier := FindBelow(records, n - 1, id);
      if earlier.Some? then earlier
      else if records[n - 1].playerId == id then Some(n - 1)
      else None
  }

  /** The first slot that holds the id. */
  function Find(records: seq<Record>, id: nat): (r: Option<nat>)
    ensures r.Some? ==> r.value < |records| && records[r.value].playerId == id
  {
    FindBelow(records, |records|, id)
  }

  lemma {:induction false} FindBelowIs(records: seq<Record>, n: nat, id: nat)
    requires n <= |records|
    ensures var r := FindBelow(records, n, id);
      forall k :: 0 <= k < (if r.Some? then r.value else n) ==> records[k].playerId != id
  {
    if n > 0 {
      FindBelowIs(records, n - 1, id);
    }
  }

  lemma FindIs(records: seq<Record>, id: nat)
    ensures var r := Find(records, id);
      forall k :: 0 <= k < (if r.Some? then r.value else |records|) ==> records[k].playerId != id
  {
    FindBelowIs(records, |records|, id);
  }

  /** The ids of the first n slots decide the first n slots of a search. */
  lemma {:induction false} FindBelowSame(a: seq<Record>, b: seq<Record>, n: nat, id: nat)
    requires n <= |a| && n <= |b|
    requires forall k :: 0 <= k < n ==> a[k].playerId == b[k].playerId
    ensures FindBelow(a, n, id) == FindBelow(b, n, id)
  {
    if n > 0 {
      FindBelowSame(a, b, n - 1, id);
    }
  }

  lemma FindUpdated(records: seq<Record>, k: nat, r: Record, id: nat)
    requires k < |records| && r.playerId == records[k].playerId
    ensures Find(records[k := r], id) == Find(records, id)
  {
    FindBelowSame(records[k := r], records, |records|, id);
  }

  lemma FindAppended(records: seq<Record>, r: Record, id: nat)
    ensures Find(records + [r], id)
         == if Find(records, id).Some? then Find(records, id) else if r.playerId == id then Some(|records|) else None
  {
    FindBelowSame(records + [r], records, |records|, id);
  }

  // ----- one player -----

  function ProtectedTeam(p: Player, excluded: nat -> bool): nat {
    if p.currentTeam != 0 && excluded(p.currentTeam) then p.currentTeam
    else if p.loanTeam != 0 && excluded(p.loanTeam) then p.loanTeam
    else 0
  }

  predicate Visible(p: Player) {
    p.readable && p.id != 0
  }

  function Min(a: Days, b: Days): Days {
    if a <= b then a else b
  }

  /** The record a player ends a protected visit with. */
  function Visited(r: Record, p: Player, team: nat, date: nat): Record {
    if !r.active || r.teamId != team then Record(p.id, team, p.days, date, true)
    else r.(baseline := Min(r.baseline, p.days), lastSeen := date)
  }

  /** One visit: restores service time above the baseline, or registers a new baseline. */
  function Apply(st: State, i: nat, date: nat, excluded: nat -> bool): (r: State)
    requires i < |st.players|
    ensures |r.players| == |st.players|
  {
    var p := st.players[i];
    var team := ProtectedTeam(p, excluded);
    var slot := Find(st.records, p.id);
    if !Visible(p) then st
    else if team == 0 then
      if slot.None? then st
      else st.(records := st.records[slot.value := st.records[slot.value].(active := false, teamId := 0)])
    else if slot.None? then
      if |st.records| >= SLOTS then st
      else st.(records := st.records + [Record(p.id, team, p.days, date, true)])
    else
      var r := Visited(st.records[slot.value], p, team, date);
      State(st.players[i := p.(days := r.baseline)], st.records[slot.value := r])
  }

  /** The first k players, in order. */
  function Scan(st: State, k: nat, date: nat, excluded: nat -> bool): (r: State)
    requires k <= |st.players|
    ensures |r.players| == |st.players|
  {
    if k == 0 then st else Apply(Scan(st, k - 1, date, excluded), k - 1, date, excluded)
  }

  // ----- what every scan keeps -----

  ghost predicate SamePlayer(p: Player, q: Player) {
    q == p.(days := q.days)
  }

  ghost predicate SamePlayers(a: State, b: State) {
    |a.players| == |b.players| && forall i :: 0 <= i < |a.players| ==> SamePlayer(a.players[i], b.players[i])
  }

  ghost predicate UniqueIds(st: State) {
    forall i, j :: 0 <= i < j < |st.players| && Visible(st.players[i]) && Visible(st.players[j]) ==>
      st.players[i].id != st.players[j].id
  }

  ghost predicate TableOk(records: seq<Record>) {
    && |records| <= SLOTS
    && (forall k :: 0 <= k < |records| ==> records[k].playerId != 0)
    && (forall j, k :: 0 <= j < k < |records| ==> records[j].playerId != records[k].playerId)
  }

  function Keys(records: seq<Record>): set<nat> {
    set k | 0 <= k < |records| :: records[k].playerId
  }

  /** The table as a finite map from player ids. */
  ghost function AsMap(records: seq<Record>): map<nat, Record> {
    map id | id in Keys(records) && Find(records, id).Some? :: records[Find(records, id).value]
  }

  lemma Mapped(records: seq<Record>, id: nat)
    ensures id in AsMap(records) <==> Find(records, id).Some?
    ensures id in AsMap(records) ==> AsMap(records)[id] == records[Find(records, id).value]
  {
  }

  lemma KeysAppended(front: seq<Record>, last: Record)
    ensures Keys(front + [last]) == Keys(front) + {last.playerId}
  {
    var all := front + [last];
    forall id | id in Keys(front) + {last.playerId} ensures id in Keys(all) {
      if id == last.playerId {
        assert all[|front|] == last;
      } else {
        var k :| 0 <= k < |front| && front[k].playerId == id;
        assert all[k] == front[k];
      }
    }
  }

  lemma {:induction false} KeyCount(records: seq<Record>)
    requires TableOk(records)
    ensures |Keys(records)| == |records|
  {
    if records != [] {
      var front, last := records[..|records| - 1], records[|records| - 1];
      KeyCount(front);
      KeysAppended(front, last);
      assert records == front + [last];
      assert last.playerId !in Keys(front);
    }
  }

  /** No record is hidden: the map has as many entries as the table. */
  lemma MapSize(records: seq<Record>)
    requires TableOk(records)
    ensures |AsMap(records)| == |records|
  {
    KeyCount(records);
    forall id | id in Keys(records) ensures Find(records, id).Some? {
      var k :| 0 <= k < |records| && records[k].playerId == id;
      FindIs(records, id);
    }
    assert AsMap(records).Keys == Keys(records);
  }

  lemma ApplyKeeps(st: State, i: nat, date: nat, excluded: nat -> bool)
    requires i < |st.players| && TableOk(st.records)
    ensures var r := Apply(st, i, date, excluded);
      TableOk(r.records) && SamePlayers(st, r) && |st.records| <= |r.records|
      && (forall j :: 0 <= j < |st.players| && j != i ==> r.players[j] == st.players[j])
      && (ProtectedTeam(st.players[i], excluded) == 0 ==> r.players == st.players)
  {
    FindIs(st.records, st.players[i].id);
  }

  /** What a scan of the first k players keeps: the table is sound, unprotected players are not written. */
  ghost predicate Kept(st: State, r: State, k: nat, excluded: nat -> bool) {
    && TableOk(r.records) && |st.players| == |r.players| && |st.records| <= |r.records|
    && SamePlayers(st, r)
    && forall j :: 0 <= j < |st.players| && (j >= k || ProtectedTeam(st.players[j], excluded) == 0) ==>
         r.players[j] == st.players[j]
  }

  lemma KeptAtFirst(st: State, excluded: nat -> bool)
    requires TableOk(st.records)
    ensures Kept(st, st, 0, excluded)
  {
  }

  lemma KeptStep(st: State, before: State, k: nat, date: nat, excluded: nat -> bool)
    requires 0 < k <= |st.players| && Kept(st, before, k - 1, excluded)
    ensures Kept(st, Apply(before, k - 1, date, excluded), k, excluded)
  {
    var r := Apply(before, k - 1, date, excluded);
    ApplyKeeps(before, k - 1, date, excluded);
    assert SamePlayer(st.players[k - 1], before.players[k - 1]);
    assert ProtectedTeam(st.players[k - 1], excluded) == ProtectedTeam(before.players[k - 1], excluded);
    forall j | 0 <= j < |st.players|
      ensures SamePlayer(st.players[j], r.players[j])
      ensures j >= k || ProtectedTeam(st.players[j], excluded) == 0 ==> r.players[j] == st.players[j]
    {
      assert SamePlayer(before.players[j], r.players[j]) && SamePlayer(st.players[j], before.players[j]);
    }
  }

  /** Over a whole scan: a sound table, and no write to anyone on an unprotected team. */
  lemma {:induction false} ScanKeeps(st: State, k: nat, date: nat, excluded: nat -> bool)
    requires k <= |st.players| && TableOk(st.records)
    ensures Kept(st, Scan(st, k, date, excluded), k, excluded)
  {
    if k == 0 {
      KeptAtFirst(st, excluded);
    } else {
      ScanKeeps(st, k - 1, date, excluded);
      KeptStep(st, Scan(st, k - 1, date, excluded), k, date, excluded);
    }
  }

  /** What a visit does to the finite map, full at SLOTS entries. */
  ghost function VisitMap(m: map<nat, Record>, p: Player, date: nat, excluded: nat -> bool): map<nat, Record> {
    var team := ProtectedTeam(p, excluded);
    if !Visible(p) then m
    else if p.id in m then
      m[p.id := if team == 0 then m[p.id].(active := false, teamId := 0) else Visited(m[p.id], p, team, date)]
    else if team == 0 || |m| >= SLOTS then m
    else m[p.id := Record(p.id, team, p.days, date, true)]
  }

  lemma VisitAt(st: State, i: nat, date: nat, excluded: nat -> bool, id: nat)
    requires i < |st.players| && TableOk(st.records)
    ensures var n := AsMap(Apply(st, i, date, excluded).records);
      var v := VisitMap(AsMap(st.records), st.players[i], date, excluded);
      (id in n <==> id in v) && (id in n ==> n[id] == v[id])
  {
    MapSize(st.records);
    Mapped(st.records, id);
    Mapped(Apply(st, i, date, excluded).records, id);
    if id == st.players[i].id {
      Here(st, i, date, excluded);
    } else {
      Elsewhere(st, i, date, excluded, id);
    }
  }

  /** The table refines that map: a visit updates it at the visited player's id and nowhere else. */
  lemma ApplyRefinesMap(st: State, i: nat, date: nat, excluded: nat -> bool)
    requires i < |st.players| && TableOk(st.records)
    ensures TableOk(Apply(st, i, date, excluded).records)
    ensures AsMap(Apply(st, i, date, excluded).records) == VisitMap(AsMap(st.records), st.players[i], date, excluded)
  {
    ApplyKeeps(st, i, date, excluded);
    var n := AsMap(Apply(st, i, date, excluded).records);
    var v := VisitMap(AsMap(st.records), st.players[i], date, excluded);
    forall id: nat ensures (id in n <==> id in v) && (id in n ==> n[id] == v[id]) {
      VisitAt(st, i, date, excluded, id);
    }
  }

  lemma Here(st: State, i: nat, date: nat, excluded: nat -> bool)
    requires i < |st.players|
    ensures var p := st.players[i];
      var team := ProtectedTeam(p, excluded);
      var a, b := st.records, Apply(st, i, date, excluded).records;
      var s, t := Find(a, p.id), Find(b, p.id);
      if s.Some? then
        t == s && b[s.value] == (
          if !Visible(p) then a[s.value]
          else if team == 0 then a[s.value].(active := false, teamId := 0)
          else Visited(a[s.value], p, team, date))
      else if Visible(p) && team != 0 && |a| < SLOTS then
        t == Some(|a|) && b[|a|] == Record(p.id, team, p.days, date, true)
      else t.None?
  {
    var p := st.players[i];
    var slot := Find(st.records, p.id);
    var r := Apply(st, i, date, excluded);
    if slot.Some? {
      if r.records != st.records {
        assert r.records == st.records[slot.value := r.records[slot.value]];
        FindUpdated(st.records, slot.value, r.records[slot.value], p.id);
      }
    } else if |r.records| > |st.records| {
      FindAppended(st.records, r.records[|st.records|], p.id);
    }
  }

  lemma Elsewhere(st: State, i: nat, date: nat, excluded: nat -> bool, id: nat)
    requires i < |st.players| && id != st.players[i].id
    ensures var a, b := st.records, Apply(st, i, date, excluded).records;
      Find(b, id) == Find(a, id) && (Find(a, id).Some? ==> b[Find(a, id).value] == a[Find(a, id).value])
  {
    var p := st.players[i];
    var slot := Find(st.records, p.id);
    var r := Apply(st, i, date, excluded);
    if slot.Some? {
      if r.records != st.records {
        assert r.records == st.records[slot.value := r.records[slot.value]];
        FindUpdated(st.records, slot.value, r.records[slot.value], id);
      }
    } else if |r.records| > |st.records| {
      FindAppended(st.records, r.records[|st.records|], id);
    }
  }

  // ----- restarting an aborted scan -----

  /** The ids a scan of the first k players finds on protected teams. */
  function ProtectedIds(players: seq<Player>, k: nat, excluded: nat -> bool): set<nat>
    requires k <= |players|
  {
    set i | 0 <= i < k && Visible(players[i]) && ProtectedTeam(players[i], excluded) != 0 :: players[i].id
  }

  function Redate(r: Record, ids: set<nat>, date: nat): Record {
    if r.playerId in ids then r.(lastSeen := date) else r
  }

  /** The same state with the records of the given players dated anew. */
  function Redated(st: State, ids: set<nat>, date: nat): (r: State) {
    st.(records := seq(|st.records|, k requires 0 <= k < |st.records| => Redate(st.records[k], ids, date)))
  }

  lemma FindRedated(st: State, ids: set<nat>, date: nat, id: nat)
    ensures Find(Redated(st, ids, date).records, id) == Find(st.records, id)
  {
    FindBelowSame(Redated(st, ids, date).records, st.records, |st.records|, id);
  }

  lemma RedatedTwice(st: State, a: set<nat>, b: set<nat>, date: nat)
    ensures Redated(Redated(st, a, date), b, date) == Redated(st, a + b, date)
  {
    assert Redated(Redated(st, a, date), b, date).records == Redated(st, a + b, date).records;
  }

  /** Redating other players' records commutes with a visit. */
  lemma VisitRedated(st: State, i: nat, d: nat, ids: set<nat>, e: nat, excluded: nat -> bool)
    requires i < |st.players| && TableOk(st.records)
    requires Visible(st.players[i]) ==> st.players[i].id !in ids
    ensures Apply(Redated(st, ids, e), i, d, excluded) == Redated(Apply(st, i, d, excluded), ids, e)
  {
    FindRedated(st, ids, e, st.players[i].id);
    var a, b := Apply(Redated(st, ids, e), i, d, excluded), Redated(Apply(st, i, d, excluded), ids, e);
    assert a.records == b.records;
  }

  /** The players a visit changes nothing for, apart from the date. */
  ghost predicate Settled(st: State, i: nat, excluded: nat -> bool)
    requires i < |st.players|
  {
    var p := st.players[i];
    var team := ProtectedTeam(p, excluded);
    var slot := Find(st.records, p.id);
    Visible(p) ==>
      if team == 0 then slot.Some? ==> !st.records[slot.value].active && st.records[slot.value].teamId == 0
      else if slot.None? then |st.records| >= SLOTS
      else
        var r := st.records[slot.value];
        r.active && r.teamId == team && r.baseline == p.days
  }

  function OwnId(p: Player, excluded: nat -> bool): set<nat> {
    if Visible(p) && ProtectedTeam(p, excluded) != 0 then {p.id} else {}
  }

  lemma SettledVisit(st: State, i: nat, date: nat, excluded: nat -> bool)
    requires i < |st.players| && TableOk(st.records) && Settled(st, i, excluded)
    ensures Apply(st, i, date, excluded) == Redated(st, OwnId(st.players[i], excluded), date)
  {
    FindIs(st.records, st.players[i].id);
    assert Apply(st, i, date, excluded).records == Redated(st, OwnId(st.players[i], excluded), date).records;
  }

  lemma VisitSettles(st: State, i: nat, date: nat, excluded: nat -> bool)
    requires i < |st.players| && TableOk(st.records)
    ensures Settled(Apply(st, i, date, excluded), i, excluded)
  {
    Here(st, i, date, excluded);
  }

  /** Visiting a player with another date changes the date only. */
  lemma VisitRedates(st: State, i: nat, d: nat, e: nat, excluded: nat -> bool)
    requires i < |st.players| && TableOk(st.records)
    ensures Apply(st, i, e, excluded) == Redated(Apply(st, i, d, excluded), OwnId(st.players[i], excluded), e)
  {
    FindIs(st.records, st.players[i].id);
    var a, b := Apply(st, i, e, excluded), Redated(Apply(st, i, d, excluded), OwnId(st.players[i], excluded), e);
    assert a.records == b.records;
  }

  ghost predicate Sound(st: State) {
    UniqueIds(st) && TableOk(st.records)
  }

  lemma SettledElsewhere(st: State, i: nat, j: nat, date: nat, excluded: nat -> bool)
    requires Sound(st) && i < |st.players| && j < |st.players| && i != j && Settled(st, i, excluded)
    ensures Settled(Apply(st, j, date, excluded), i, excluded)
  {
    ApplyKeeps(st, j, date, excluded);
    if Visible(st.players[i]) && Visible(st.players[j]) {
      assert i < j || j < i;
      Elsewhere(st, j, date, excluded, st.players[i].id);
    }
  }

  lemma SoundApply(st: State, i: nat, date: nat, excluded: nat -> bool)
    requires Sound(st) && i < |st.players|
    ensures Sound(Apply(st, i, date, excluded))
  {
    var r := Apply(st, i, date, excluded);
    ApplyKeeps(st, i, date, excluded);
    forall j, k | 0 <= j < k < |r.players| && Visible(r.players[j]) && Visible(r.players[k])
      ensures r.players[j].id != r.players[k].id
    {
      assert SamePlayer(st.players[j], r.players[j]) && SamePlayer(st.players[k], r.players[k]);
    }
  }

  ghost predicate SettledUpTo(st: State, k: nat, excluded: nat -> bool) {
    k <= |st.players| && forall i :: 0 <= i < k ==> Settled(st, i, excluded)
  }

  lemma NextSettles(st: State, k: nat, date: nat, excluded: nat -> bool)
    requires Sound(st) && 0 < k <= |st.players| && SettledUpTo(st, k - 1, excluded)
    ensures SettledUpTo(Apply(st, k - 1, date, excluded), k, excluded)
  {
    VisitSettles(st, k - 1, date, excluded);
    var after := Apply(st, k - 1, date, excluded);
    forall i | 0 <= i < k - 1 ensures Settled(after, i, excluded) {
      SettledElsewhere(st, i, k - 1, date, excluded);
    }
  }

  lemma {:induction false} ScanSettles(st: State, k: nat, date: nat, excluded: nat -> bool)
    requires k <= |st.players| && Sound(st)
    ensures Sound(Scan(st, k, date, excluded)) && SettledUpTo(Scan(st, k, date, excluded), k, excluded)
  {
    if k > 0 {
      ScanSettles(st, k - 1, date, excluded);
      SoundApply(Scan(st, k - 1, date, excluded), k - 1, date, excluded);
      NextSettles(Scan(st, k - 1, date, excluded), k, date, excluded);
    }
  }

  lemma NextId(st: State, k: nat, excluded: nat -> bool)
    requires Sound(st) && k < |st.players|
    ensures Visible(st.players[k]) ==> st.players[k].id !in ProtectedIds(st.players, k, excluded)
    ensures ProtectedIds(st.players, k + 1, excluded)
         == OwnId(st.players[k], excluded) + ProtectedIds(st.players, k, excluded)
  {
  }

  lemma SameIds(st: State, r: State, k: nat, excluded: nat -> bool)
    requires SamePlayers(st, r) && k <= |st.players|
    ensures ProtectedIds(r.players, k, excluded) == ProtectedIds(st.players, k, excluded)
    ensures k < |st.players| ==> OwnId(r.players[k], excluded) == OwnId(st.players[k], excluded)
  {
    assert forall i :: 0 <= i < |st.players| ==> SamePlayer(st.players[i], r.players[i]);
    var a, b := ProtectedIds(r.players, k, excluded), ProtectedIds(st.players, k, excluded);
    forall id | id in a ensures id in b {
      var i :| 0 <= i < k && Visible(r.players[i]) && ProtectedTeam(r.players[i], excluded) != 0
        && r.players[i].id == id;
      assert Visible(st.players[i]);
    }
    forall id | id in b ensures id in a {
      var i :| 0 <= i < k && Visible(st.players[i]) && ProtectedTeam(st.players[i], excluded) != 0
        && st.players[i].id == id;
      assert Visible(r.players[i]);
    }
  }

  lemma RescanStep(st: State, k: nat, date: nat, excluded: nat -> bool)
    requires Sound(st) && k < |st.players| && Settled(st, k, excluded)
    ensures Apply(Redated(st, ProtectedIds(st.players, k, excluded), date), k, date, excluded)
         == Redated(st, ProtectedIds(st.players, k + 1, excluded), date)
  {
    var ids := ProtectedIds(st.players, k, excluded);
    NextId(st, k, excluded);
    VisitRedated(st, k, date, ids, date, excluded);
    SettledVisit(st, k, date, excluded);
    RedatedTwice(st, OwnId(st.players[k], excluded), ids, date);
  }

  /** Rescanning settled players only moves dates. */
  lemma {:induction false} RescanRedates(st: State, k: nat, m: nat, date: nat, excluded: nat -> bool)
    requires Sound(st) && k <= m && SettledUpTo(st, m, excluded)
    ensures Scan(st, k, date, excluded) == Redated(st, ProtectedIds(st.players, k, excluded), date)
  {
    if k == 0 {
      assert Redated(st, {}, date).records == st.records;
    } else {
      RescanRedates(st, k - 1, m, date, excluded);
      RescanStep(st, k - 1, date, excluded);
    }
  }

  /** Scanning with another date differs in the dates only. */
  lemma {:induction false} ScanRedates(st: State, k: nat, d: nat, e: nat, excluded: nat -> bool)
    requires k <= |st.players| && Sound(st)
    ensures Scan(st, k, e, excluded) == Redated(Scan(st, k, d, excluded), ProtectedIds(st.players, k, excluded), e)
  {
    if k == 0 {
      assert Redated(st, {}, e).records == st.records;
    } else {
      var j := k - 1;
      var x, ids := Scan(st, j, d, excluded), ProtectedIds(st.players, j, excluded);
      ScanRedates(st, j, d, e, excluded);
      ScanSettles(st, j, d, excluded);
      ScanKeeps(st, j, d, excluded);
      SameIds(st, x, j, excluded);
      NextId(st, j, excluded);
      NextId(x, j, excluded);
      VisitRedated(x, j, e, ids, e, excluded);
      VisitRedates(x, j, d, e, excluded);
      RedatedTwice(Apply(x, j, d, excluded), OwnId(st.players[j], excluded), ids, e);
    }
  }

  /**
   Restart safety: a scan aborted after any k players, at any date, followed by a scan of n >= k
   players leaves the same memory and the same table as that second scan alone.
   */
  lemma {:induction false} RestartIsSafe(st: State, k: nat, n: nat, d: nat, e: nat, excluded: nat -> bool)
    requires k <= n <= |st.players| && Sound(st)
    ensures Scan(Scan(st, k, d, excluded), n, e, excluded) == Scan(st, n, e, excluded)
    decreases n
  {
    if n > k {
      RestartIsSafe(st, k, n - 1, d, e, excluded);
    } else {
      var x := Scan(st, k, d, excluded);
      ScanSettles(st, k, d, excluded);
      ScanKeeps(st, k, d, excluded);
      SameIds(st, x, k, excluded);
      RescanRedates(x, k, k, e, excluded);
      ScanRedates(st, k, d, e, excluded);
    }
  }

  datatype Attempt = Attempt(players: nat, date: nat)

  /** A series of aborted scans. */
  function Attempts(st: State, tries: seq<Attempt>, excluded: nat -> bool): (r: State)
    requires forall t :: 0 <= t < |tries| ==> tries[t].players <= |st.players|
    ensures |r.players| == |st.players|
    decreases |tries|
  {
    if tries == [] then st
    else
      var last := tries[|tries| - 1];
      Scan(Attempts(st, tries[..|tries| - 1], excluded), last.players, last.date, excluded)
  }

  lemma {:induction false} AttemptsSound(st: State, tries: seq<Attempt>, excluded: nat -> bool)
    requires Sound(st) && forall t :: 0 <= t < |tries| ==> tries[t].players <= |st.players|
    ensures Sound(Attempts(st, tries, excluded))
    decreases |tries|
  {
    if tries != [] {
      AttemptsSound(st, tries[..|tries| - 1], excluded);
      var last := tries[|tries| - 1];
      ScanSettles(Attempts(st, tries[..|tries| - 1], excluded), last.players, last.date, excluded);
    }
  }

  /** However often a scan is aborted and retried, the first complete one has the effect of a single scan. */
  lemma {:induction false} RetriesAreSafe(st: State, tries: seq<Attempt>, date: nat, excluded: nat -> bool)
    requires Sound(st) && forall t :: 0 <= t < |tries| ==> tries[t].players <= |st.players|
    ensures Scan(Attempts(st, tries, excluded), |st.players|, date, excluded) == Scan(st, |st.players|, date, excluded)
    decreases |tries|
  {
    if tries != [] {
      var last := tries[|tries| - 1];
      var before := Attempts(st, tries[..|tries| - 1], excluded);
      AttemptsSound(st, tries[..|tries| - 1], excluded);
      RestartIsSafe(before, last.players, |st.players|, last.date, date, excluded);
      RetriesAreSafe(st, tries[..|tries| - 1], date, excluded);
    }
  }
}
