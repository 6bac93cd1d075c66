/** Whole runs of the service-time guard: game writes interleaved with complete and aborted scans. */
module ServiceTimeRuns {
  import opened ServiceTimeGuard

  /** The game may replace everything it holds; a tick scans the first `reach` players. */
  datatype Event = Game(players: seq<Player>) | Tick(reach: nat, date: nat)

  /** What the visits have seen of a player since it was first found on its protected team. */
  datatype Stint = Off | On(team: nat, seen: seq<Days>)

  // ----- the history of one player -----

  function Observe(h: Stint, p: Player, id: nat, excluded: nat -> bool): Stint {
    var team := ProtectedTeam(p, excluded);
    if !Visible(p) || p.id != id then h
    else if team == 0 then Off
    else if h.On? && h.team == team then On(team, h.seen + [p.days])
    else On(team, [p.days])
  }

  function Watch(players: seq<Player>, k: nat, h: Stint, id: nat, excluded: nat -> bool): Stint
    requires k <= |players|
  {
    if k == 0 then h else Observe(Watch(players, k - 1, h, id, excluded), players[k - 1], id, excluded)
  }

  function Reach(st: State, reach: nat): (k: nat)
    ensures k <= |st.players|
  {
    if reach <= |st.players| then reach else |st.players|
  }

  function Step(st: State, e: Event, excluded: nat -> bool): State {
    match e
    case Game(players) => st.(players := players)
    case Tick(reach, date) => Scan(st, Reach(st, reach), date, excluded)
  }

  function After(st: State, events: seq<Event>, excluded: nat -> bool): State
    decreases |events|
  {
    if events == [] then st else Step(After(st, events[..|events| - 1], excluded), events[|events| - 1], excluded)
  }

  function NextStint(before: State, h: Stint, e: Event, id: nat, excluded: nat -> bool): Stint {
    match e
    case Game(_) => h
    case Tick(reach, _) => Watch(before.players, Reach(before, reach), h, id, excluded)
  }

  function History(st: State, events: seq<Event>, id: nat, excluded: nat -> bool): Stint
    decreases |events|
  {
    if events == [] then Off
    else
      var front := events[..|events| - 1];
      NextStint(After(st, front, excluded), History(st, front, id, excluded), events[|events| - 1], id, excluded)
  }

  ghost predicate Legal(events: seq<Event>) {
    forall n :: 0 <= n < |events| && events[n].Game? ==> UniqueIds(State(events[n].players, []))
  }

  function MinSeen(seen: seq<Days>): (m: Days)
    requires |seen| > 0
    ensures m in seen
    ensures forall k :: 0 <= k < |seen| ==> m <= seen[k]
    decreases |seen|
  {
    var last := seen[|seen| - 1];
    if |seen| == 1 then last else Min(MinSeen(seen[..|seen| - 1]), last)
  }

  lemma MinSeenPrefix(seen: seq<Days>, more: seq<Days>)
    requires 0 < |seen| && seen <= more
    ensures MinSeen(more) <= MinSeen(seen)
  {
    var k :| 0 <= k < |seen| && seen[k] == MinSeen(seen);
    assert more[k] == seen[k];
  }

  lemma MinSeenNext(seen: seq<Days>, days: Days)
    requires |seen| > 0
    ensures MinSeen(seen + [days]) == Min(MinSeen(seen), days)
  {
    assert (seen + [days])[..|seen|] == seen;
  }

  // ----- the record follows the history -----

  ghost predicate Listed(st: State, id: nat) {
    Find(st.records, id).Some?
  }

  ghost predicate Tracks(records: seq<Record>, h: Stint, id: nat) {
    var slot := Find(records, id);
    && (h.On? ==> |h.seen| > 0)
    && if slot.None? then h.On? ==> |records| >= SLOTS
       else
         var r := records[slot.value];
         (r.active <==> h.On?) && (h.On? ==> r.teamId == h.team && r.baseline == MinSeen(h.seen))
  }

  lemma VisitTracks(st: State, i: nat, date: nat, h: Stint, id: nat, excluded: nat -> bool)
    requires i < |st.players| && Tracks(st.records, h, id)
    ensures Tracks(Apply(st, i, date, excluded).records, Observe(h, st.players[i], id, excluded), id)
  {
    var p := st.players[i];
    if p.id == id {
      Here(st, i, date, excluded);
      if h.On? {
        MinSeenNext(h.seen, p.days);
      }
    } else {
      Elsewhere(st, i, date, excluded, id);
    }
  }

  lemma {:induction false} NotYetVisited(st: State, k: nat, date: nat, j: nat, excluded: nat -> bool)
    requires k <= j < |st.players|
    ensures Scan(st, k, date, excluded).players[j] == st.players[j]
  {
    if k > 0 {
      NotYetVisited(st, k - 1, date, j, excluded);
    }
  }

  lemma ScanTracksNext(st: State, k: nat, date: nat, seen: Stint, id: nat, excluded: nat -> bool)
    requires 0 < k <= |st.players| && Tracks(Scan(st, k - 1, date, excluded).records, seen, id)
    ensures Tracks(Scan(st, k, date, excluded).records, Observe(seen, st.players[k - 1], id, excluded), id)
  {
    var before := Scan(st, k - 1, date, excluded);
    NotYetVisited(st, k - 1, date, k - 1, excluded);
    assert before.players[k - 1] == st.players[k - 1];
    VisitTracks(before, k - 1, date, seen, id, excluded);
    assert Scan(st, k, date, excluded) == Apply(before, k - 1, date, excluded);
  }

  lemma {:induction false} ScanTracks(st: State, k: nat, date: nat, h: Stint, id: nat, excluded: nat -> bool)
    requires k <= |st.players| && Tracks(st.records, h, id)
    ensures Tracks(Scan(st, k, date, excluded).records, Watch(st.players, k, h, id, excluded), id)
  {
    if k > 0 {
      ScanTracks(st, k - 1, date, h, id, excluded);
      ScanTracksNext(st, k, date, Watch(st.players, k - 1, h, id, excluded), id, excluded);
    }
  }

  /** The guard starts with an empty table. */
  ghost predicate Start(st: State) {
    UniqueIds(st) && st.records == []
  }

  lemma StepHolds(st: State, e: Event, h: Stint, id: nat, excluded: nat -> bool)
    requires Sound(st) && Tracks(st.records, h, id)
    requires e.Game? ==> UniqueIds(State(e.players, []))
    ensures Sound(Step(st, e, excluded)) && Tracks(Step(st, e, excluded).records, NextStint(st, h, e, id, excluded), id)
  {
    match e {
      case Game(players) =>
      case Tick(reach, date) =>
        ScanSettles(st, Reach(st, reach), date, excluded);
        ScanTracks(st, Reach(st, reach), date, h, id, excluded);
    }
  }

  /** Every reachable state: a sound table, and every record in step with its player's history. */
  lemma {:induction false} RunHolds(st: State, events: seq<Event>, id: nat, excluded: nat -> bool)
    requires Start(st) && Legal(events)
    ensures Sound(After(st, events, excluded))
    ensures Tracks(After(st, events, excluded).records, History(st, events, id, excluded), id)
    decreases |events|
  {
    if events != [] {
      var front := events[..|events| - 1];
      assert forall n :: 0 <= n < |front| ==> front[n] == events[n];
      RunHolds(st, front, id, excluded);
      StepHolds(After(st, front, excluded), events[|events| - 1], History(st, front, id, excluded), id, excluded);
    }
  }

  // ----- what a tick leaves behind -----

  /** The player has its id and is on a protected team, its current one or else the one it is loaned to. */
  ghost predicate FoundOn(p: Player, id: nat, team: nat, excluded: nat -> bool) {
    && p.readable && p.id == id != 0
    && if p.currentTeam != 0 && excluded(p.currentTeam) then p.currentTeam == team
       else p.loanTeam != 0 && excluded(p.loanTeam) && p.loanTeam == team
  }

  /** The last event is a tick that visits the player at index i, found on a protected team. */
  ghost predicate JustVisited(st: State, events: seq<Event>, i: nat, id: nat, team: nat, excluded: nat -> bool) {
    && |events| > 0 && events[|events| - 1].Tick?
    && var now := After(st, events, excluded);
       i < |now.players| && i < events[|events| - 1].reach
       && FoundOn(now.players[i], id, team, excluded)
  }

  lemma {:induction false} WatchElsewhere(st: State, j: nat, k: nat, h: Stint, i: nat, excluded: nat -> bool)
    requires UniqueIds(st) && j <= k <= |st.players| && i < |st.players| && !(j <= i < k)
    requires Visible(st.players[i])
    ensures Watch(st.players, k, h, st.players[i].id, excluded) == Watch(st.players, j, h, st.players[i].id, excluded)
    decreases k
  {
    if k > j {
      WatchElsewhere(st, j, k - 1, h, i, excluded);
      assert i < k - 1 || k - 1 < i;
    }
  }

  lemma WatchVisited(st: State, k: nat, h: Stint, i: nat, excluded: nat -> bool)
    requires UniqueIds(st) && i < k <= |st.players| && Visible(st.players[i])
    ensures Watch(st.players, k, h, st.players[i].id, excluded)
         == Observe(h, st.players[i], st.players[i].id, excluded)
  {
    WatchElsewhere(st, i + 1, k, h, i, excluded);
    WatchElsewhere(st, 0, i, h, i, excluded);
  }

  /**
   After a tick, a visited protected player who holds a record stands at the record's baseline, which
   is the least value seen in the running stint. One without a record was left alone: the table is full.
   */
  lemma TickRestores(st: State, events: seq<Event>, i: nat, id: nat, team: nat, excluded: nat -> bool)
    requires Start(st) && Legal(events) && JustVisited(st, events, i, id, team, excluded)
    ensures var now, h := After(st, events, excluded), History(st, events, id, excluded);
      var slot := Find(now.records, id);
      && h.On? && h.team == team && |h.seen| > 0
      && if slot.Some? then
           now.records[slot.value].baseline == MinSeen(h.seen) && now.players[i].days == MinSeen(h.seen)
         else |now.records| == 8192 && now.players[i].days == h.seen[|h.seen| - 1]
  {
    var front, e := events[..|events| - 1], events[|events| - 1];
    var before, h := After(st, front, excluded), History(st, front, id, excluded);
    var k, now := Reach(before, e.reach), After(st, events, excluded);
    assert forall n :: 0 <= n < |front| ==> front[n] == events[n];
    RunHolds(st, front, id, excluded);
    RunHolds(st, events, id, excluded);
    ScanKeeps(before, k, e.date, excluded);
    ScanSettles(before, k, e.date, excluded);
    assert SamePlayer(before.players[i], now.players[i]);
    WatchVisited(before, k, h, i, excluded);
    assert Settled(now, i, excluded);
    if Find(now.records, id).None? {
      NeverListed(before, k, e.date, i, excluded);
    }
  }

  lemma RecordStays(st: State, i: nat, date: nat, id: nat, excluded: nat -> bool)
    requires i < |st.players|
    requires Listed(st, id)
    ensures Listed(Apply(st, i, date, excluded), id)
  {
    if st.players[i].id == id {
      Here(st, i, date, excluded);
    } else {
      Elsewhere(st, i, date, excluded, id);
    }
  }

  lemma {:induction false} RecordsStay(st: State, j: nat, k: nat, date: nat, id: nat, excluded: nat -> bool)
    requires j <= k <= |st.players| && Listed(Scan(st, j, date, excluded), id)
    ensures Listed(Scan(st, k, date, excluded), id)
    decreases k
  {
    if k > j {
      RecordsStay(st, j, k - 1, date, id, excluded);
      RecordStays(Scan(st, k - 1, date, excluded), k - 1, date, id, excluded);
    }
  }

  lemma {:induction false} LaterVisits(st: State, i: nat, k: nat, date: nat, excluded: nat -> bool)
    requires i < k <= |st.players|
    ensures Scan(st, k, date, excluded).players[i] == Scan(st, i + 1, date, excluded).players[i]
    decreases k
  {
    if k > i + 1 {
      LaterVisits(st, i, k - 1, date, excluded);
    }
  }

  /** A player who ends a scan without a record keeps its service time. */
  lemma NeverListed(st: State, k: nat, date: nat, i: nat, excluded: nat -> bool)
    requires i < k <= |st.players| && !Listed(Scan(st, k, date, excluded), st.players[i].id)
    ensures Scan(st, k, date, excluded).players[i] == st.players[i]
  {
    if Listed(Scan(st, i, date, excluded), st.players[i].id) {
      RecordsStay(st, i, k, date, st.players[i].id, excluded);
    } else {
      LaterVisits(st, i, k, date, excluded);
      NotYetVisited(st, i, date, i, excluded);
    }
  }

  // ----- service time within one stint -----

  /** Between events n and m, every visit to the player finds it on the same protected team. */
  ghost predicate SameStint(st: State, events: seq<Event>, n: nat, m: nat, id: nat, team: nat, excluded: nat -> bool) {
    && n <= m <= |events|
    && forall t :: n <= t < m && events[t].Tick? ==>
         StaysOn(After(st, events[..t], excluded).players, id, team, excluded)
  }

  ghost predicate StaysOn(players: seq<Player>, id: nat, team: nat, excluded: nat -> bool) {
    forall i :: 0 <= i < |players| && players[i].readable && players[i].id == id != 0 ==>
      FoundOn(players[i], id, team, excluded)
  }

  ghost predicate Extends(h: Stint, g: Stint) {
    h.On? && g.On? && h.team == g.team && h.seen <= g.seen
  }

  lemma {:induction false} WatchExtends(players: seq<Player>, k: nat, h: Stint, id: nat, excluded: nat -> bool)
    requires k <= |players| && h.On? && h.team != 0 && StaysOn(players, id, h.team, excluded)
    ensures Extends(h, Watch(players, k, h, id, excluded))
  {
    if k > 0 {
      WatchExtends(players, k - 1, h, id, excluded);
    }
  }

  lemma StepExtends(st: State, e: Event, h: Stint, g: Stint, id: nat, excluded: nat -> bool)
    requires Extends(g, h) && h.team != 0 && (e.Tick? ==> StaysOn(st.players, id, h.team, excluded))
    ensures Extends(g, NextStint(st, h, e, id, excluded))
  {
    if e.Tick? {
      WatchExtends(st.players, Reach(st, e.reach), h, id, excluded);
    }
  }

  lemma StepListed(st: State, e: Event, id: nat, excluded: nat -> bool)
    requires Listed(st, id)
    ensures Listed(Step(st, e, excluded), id)
  {
    if e.Tick? {
      RecordsStay(st, 0, Reach(st, e.reach), e.date, id, excluded);
    }
  }

  lemma {:induction false} StintExtends(st: State, events: seq<Event>, n: nat, m: nat, id: nat, team: nat,
        excluded: nat -> bool)
    requires SameStint(st, events, n, m, id, team, excluded) && team != 0
    requires History(st, events[..n], id, excluded).On? && History(st, events[..n], id, excluded).team == team
    requires Listed(After(st, events[..n], excluded), id)
    ensures Extends(History(st, events[..n], id, excluded), History(st, events[..m], id, excluded))
    ensures Listed(After(st, events[..m], excluded), id)
    decreases m
  {
    if m > n {
      var front := events[..m - 1];
      StintExtends(st, events, n, m - 1, id, team, excluded);
      assert events[..m][..m - 1] == front && events[..m][m - 1] == events[m - 1];
      var g, h := History(st, events[..n], id, excluded), History(st, front, id, excluded);
      StepExtends(After(st, front, excluded), events[m - 1], h, g, id, excluded);
      StepListed(After(st, front, excluded), events[m - 1], id, excluded);
    }
  }

  /**
   Service time never rises across ticks of one stint, whatever the game writes in between: for a player
   with a record, what a later tick leaves is at most what an earlier tick left.
   */
  lemma ServiceTimeNeverRises(st: State, events: seq<Event>, n: nat, m: nat, i: nat, j: nat, id: nat, team: nat,
        excluded: nat -> bool)
    requires Start(st) && Legal(events) && SameStint(st, events, n, m, id, team, excluded)
    requires JustVisited(st, events[..n], i, id, team, excluded) && JustVisited(st, events[..m], j, id, team, excluded)
    requires Listed(After(st, events[..n], excluded), id)
    ensures After(st, events[..m], excluded).players[j].days <= After(st, events[..n], excluded).players[i].days
  {
    TickRestores(st, events[..n], i, id, team, excluded);
    TickRestores(st, events[..m], j, id, team, excluded);
    StintExtends(st, events, n, m, id, team, excluded);
    MinSeenPrefix(History(st, events[..n], id, excluded).seen, History(st, events[..m], id, excluded).seen);
  }
}
