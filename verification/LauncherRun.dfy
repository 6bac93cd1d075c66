/** The launcher's flows over a world that answers as it likes: processes die, markers appear, time passes. */
module LauncherRun {
  import opened Optional
  import opened LauncherPlan

  /** Times in milliseconds. */
  const MARKED_SAVE_WAIT: nat := 900000
  const POLL_INTERVAL: nat := 2000
  const STABLE_TIMEOUT: nat := 30000
  const STABILITY_SLEEP: nat := 1500
  const RETRY_SLEEP: nat := 500
  const MAX_ATTEMPTS: nat := 5

  datatype Route = Early | Main | Attach

  /** How one attempt at an injection went: it worked, threw what a retry may mend, or threw something else. */
  datatype Attempt = Worked | Retryable | Failed

  datatype Status = MarkedSave | NotALeague | MarkerMissing | ProcessUnavailable | OtherStatus | TimedOut

  datatype MarkerInfo = MarkerInfo(ok: bool, status: Status)

  predicate Terminal(info: MarkerInfo) {
    info.status == NotALeague || info.status == MarkerMissing || info.status == ProcessUnavailable
  }

  /** A process of the game, in the order of the listing. */
  datatype Candidate = Candidate(pid: nat, startTime: int)

  /** What a run does to the world, and every answer of the world that decides how it goes on. */
  datatype Event =
    | Start(pid: nat)
    | NotStarted
    | Listing(candidates: seq<Candidate>)
    | Running(pid: nat, yes: bool)
    | Stable(pid: nat, yes: bool)
    | Loaded(pid: nat, yes: bool)
    | Copied(ok: bool)
    | Marker(pid: nat, info: MarkerInfo)
    | Inject(pid: nat, route: Route, result: Attempt)

  /** How a run ends: an exit code, or an exception that leaves the launcher. */
  datatype Ending = Exit(code: int) | Threw

  // ----- the law of every run -----

  /** What a run may do: its build, whether it is dry, and whether its plan has the bootstrap requested. */
  datatype Terms = Terms(supported: bool, dryRun: bool, presave: bool)

  /** The most recent marker check. */
  function LastMarker(trace: seq<Event>): (r: Option<Event>)
    ensures r.Some? ==> r.value.Marker?
  {
    if trace == [] then None
    else if trace[|trace| - 1].Marker? then Some(trace[|trace| - 1])
    else LastMarker(trace[..|trace| - 1])
  }

  /** The last marker check looked at this process and found a marked save. */
  predicate MarkedLast(trace: seq<Event>, pid: nat) {
    LastMarker(trace).Some? && LastMarker(trace).value.pid == pid && LastMarker(trace).value.info.ok
  }

  predicate EarlySuccess(e: Event) {
    e.Inject? && e.route == Early && e.result == Worked
  }

  /** The processes the early injector has injected. */
  function EarlyDone(trace: seq<Event>): set<nat> {
    if trace == [] then {}
    else
      var e := trace[|trace| - 1];
      EarlyDone(trace[..|trace| - 1]) + if EarlySuccess(e) then {e.pid} else {}
  }

  /** The processes on which an injection was attempted. */
  function Injected(trace: seq<Event>): set<nat> {
    if trace == [] then {}
    else
      var e := trace[|trace| - 1];
      Injected(trace[..|trace| - 1]) + if e.Inject? then {e.pid} else {}
  }

  /** Whether an event may follow a trace. */
  predicate Permitted(trace: seq<Event>, e: Event, terms: Terms) {
    match e
    case Start(_) => !terms.dryRun
    case Inject(pid, route, _) =>
      && terms.supported && !terms.dryRun
      && (terms.presave || MarkedLast(trace, pid))
      && (route == Early ==> pid !in EarlyDone(trace))
    case _ => true
  }

  ghost predicate Lawful(trace: seq<Event>, terms: Terms) {
    forall k {:trigger Permitted(trace[..k], trace[k], terms)} ::
      0 <= k < |trace| ==> Permitted(trace[..k], trace[k], terms)
  }

  lemma LawfulNext(trace: seq<Event>, e: Event, terms: Terms)
    requires Lawful(trace, terms) && Permitted(trace, e, terms)
    ensures Lawful(trace + [e], terms)
    ensures LastMarker(trace + [e]) == if e.Marker? then Some(e) else LastMarker(trace)
    ensures EarlyDone(trace + [e]) == EarlyDone(trace) + if EarlySuccess(e) then {e.pid} else {}
    ensures Injected(trace + [e]) == Injected(trace) + if e.Inject? then {e.pid} else {}
  {
    var next := trace + [e];
    assert next[..|next| - 1] == trace;
    forall k | 0 <= k < |next| ensures Permitted(next[..k], next[k], terms) {
      if k < |trace| {
        assert next[..k] == trace[..k] && Permitted(trace[..k], trace[k], terms);
      }
    }
  }

  /** The run has looked at the world only. */
  ghost predicate OnlyLooks(trace: seq<Event>) {
    forall k :: 0 <= k < |trace| ==> !trace[k].Start? && !trace[k].Inject?
  }

  ghost predicate NothingStarted(trace: seq<Event>) {
    forall k :: 0 <= k < |trace| ==> !trace[k].Start?
  }

  // ----- what the law means -----

  lemma {:induction false} LastMarkerIs(trace: seq<Event>) returns (j: nat)
    requires LastMarker(trace).Some?
    ensures j < |trace| && trace[j].Marker? && LastMarker(trace) == Some(trace[j])
    ensures forall i :: j < i < |trace| ==> !trace[i].Marker?
  {
    if trace[|trace| - 1].Marker? {
      j := |trace| - 1;
    } else {
      j := LastMarkerIs(trace[..|trace| - 1]);
    }
  }

  /** Behind every injection without the bootstrap stands a good check of that very process, still the latest. */
  lemma EveryInjectionIsAuthorised(trace: seq<Event>, terms: Terms, k: nat) returns (j: nat)
    requires Lawful(trace, terms) && k < |trace| && trace[k].Inject?
    ensures terms.supported && !terms.dryRun
    ensures !terms.presave ==>
      && j < k && trace[j].Marker? && trace[j].pid == trace[k].pid && trace[j].info.ok
      && forall i :: j < i < k ==> !trace[i].Marker?
  {
    assert Permitted(trace[..k], trace[k], terms);
    j := 0;
    if !terms.presave {
      j := LastMarkerIs(trace[..k]);
      assert forall i :: 0 <= i < k ==> trace[..k][i] == trace[i];
    }
  }

  lemma {:induction false} EarlyDoneHas(trace: seq<Event>, j: nat)
    requires j < |trace| && EarlySuccess(trace[j])
    ensures trace[j].pid in EarlyDone(trace)
  {
    if j < |trace| - 1 {
      EarlyDoneHas(trace[..|trace| - 1], j);
    }
  }

  /** After an early injection has succeeded, the early injector leaves that process alone. */
  lemma EarlyNeverRepeats(trace: seq<Event>, terms: Terms, j: nat, k: nat)
    requires Lawful(trace, terms) && j < k < |trace|
    requires trace[j].Inject? && trace[j].route == Early && trace[j].result == Worked
    requires trace[k].Inject? && trace[k].route == Early
    ensures trace[k].pid != trace[j].pid
  {
    assert Permitted(trace[..k], trace[k], terms);
    EarlyDoneHas(trace[..k], j);
  }

  /** A run on an unsupported build injects nothing, and a dry run only looks. */
  lemma HarmlessRuns(trace: seq<Event>, terms: Terms)
    requires Lawful(trace, terms)
    ensures !terms.supported || terms.dryRun ==> forall k :: 0 <= k < |trace| ==> !trace[k].Inject?
    ensures terms.dryRun ==> OnlyLooks(trace)
  {
    forall k | 0 <= k < |trace| ensures Permitted(trace[..k], trace[k], terms) {
    }
  }

  class World {
    var now: int
    var trace: seq<Event>

    constructor ()
      ensures trace == []
    {
      now := *;
      trace := [];
    }

    /** Time does not run backwards. */
    method Pass(atLeast: nat)
      modifies this`now
      ensures now >= old(now) + atLeast
    {
      var more: int := *;
      now := now + atLeast + if more > 0 then more else 0;
    }

    method Record(e: Event, ghost terms: Terms)
      requires Lawful(trace, terms) && Permitted(trace, e, terms)
      modifies this`trace
      ensures Lawful(trace, terms) && trace == old(trace) + [e]
      ensures LastMarker(trace) == if e.Marker? then Some(e) else LastMarker(old(trace))
      ensures EarlyDone(trace) == EarlyDone(old(trace)) + if EarlySuccess(e) then {e.pid} else {}
      ensures Injected(trace) == Injected(old(trace)) + if e.Inject? then {e.pid} else {}
    {
      LawfulNext(trace, e, terms);
      trace := trace + [e];
    }

    /** Asks whether the process still runs. */
    method IsRunning(pid: nat, ghost terms: Terms) returns (yes: bool)
      requires Lawful(trace, terms)
      modifies this
      ensures Lawful(trace, terms) && now == old(now)
      ensures LastMarker(trace) == LastMarker(old(trace))
      ensures EarlyDone(trace) == EarlyDone(old(trace)) && Injected(trace) == Injected(old(trace))
      ensures trace == old(trace) + [Running(pid, yes)]
    {
      yes := *;
      Record(Running(pid, yes), terms);
    }

    /** Asks whether a candidate has outlived the stability sleep. */
    method HasLasted(pid: nat, ghost terms: Terms) returns (yes: bool)
      requires Lawful(trace, terms)
      modifies this
      ensures Lawful(trace, terms) && now == old(now)
      ensures LastMarker(trace) == LastMarker(old(trace))
      ensures EarlyDone(trace) == EarlyDone(old(trace)) && Injected(trace) == Injected(old(trace))
      ensures trace == old(trace) + [Stable(pid, yes)]
    {
      yes := *;
      Record(Stable(pid, yes), terms);
    }

    /** Asks whether the library is in the process. */
    method HasLibrary(pid: nat, ghost terms: Terms) returns (yes: bool)
      requires Lawful(trace, terms)
      modifies this
      ensures Lawful(trace, terms) && now == old(now)
      ensures LastMarker(trace) == LastMarker(old(trace))
      ensures EarlyDone(trace) == EarlyDone(old(trace)) && Injected(trace) == Injected(old(trace))
      ensures trace == old(trace) + [Loaded(pid, yes)]
    {
      yes := *;
      Record(Loaded(pid, yes), terms);
    }

    /** Lists the processes of the game. */
    method List(ghost terms: Terms) returns (candidates: seq<Candidate>)
      requires Lawful(trace, terms)
      modifies this
      ensures Lawful(trace, terms) && now == old(now)
      ensures LastMarker(trace) == LastMarker(old(trace))
      ensures EarlyDone(trace) == EarlyDone(old(trace)) && Injected(trace) == Injected(old(trace))
      ensures trace == old(trace) + [Listing(candidates)]
    {
      candidates := *;
      Record(Listing(candidates), terms);
    }

    /** Makes a copy of the library that can be injected. */
    method CopyLibrary(ghost terms: Terms) returns (ok: bool)
      requires Lawful(trace, terms)
      modifies this
      ensures Lawful(trace, terms) && now == old(now)
      ensures LastMarker(trace) == LastMarker(old(trace))
      ensures EarlyDone(trace) == EarlyDone(old(trace)) && Injected(trace) == Injected(old(trace))
      ensures trace == old(trace) + [Copied(ok)]
    {
      ok := *;
      Record(Copied(ok), terms);
    }

    /** Starts the game; the process may not come up. */
    method StartGame(ghost terms: Terms) returns (pid: Option<nat>)
      requires Lawful(trace, terms) && !terms.dryRun
      modifies this
      ensures Lawful(trace, terms) && now >= old(now)
      ensures LastMarker(trace) == LastMarker(old(trace))
      ensures EarlyDone(trace) == EarlyDone(old(trace)) && Injected(trace) == Injected(old(trace))
      ensures trace == old(trace) + [if pid.Some? then Start(pid.value) else NotStarted]
    {
      var started: bool, any: int := *, *;
      pid := if started && any >= 0 then Some(any) else None;
      Record(if pid.Some? then Start(pid.value) else NotStarted, terms);
      Pass(0);
    }

    /** Looks for the marker in the save that the process has open. */
    method CheckMarker(pid: nat, ghost terms: Terms) returns (info: MarkerInfo)
      requires Lawful(trace, terms)
      modifies this
      ensures Lawful(trace, terms) && now > old(now)
      ensures trace == old(trace) + [Marker(pid, info)]
      ensures LastMarker(trace) == Some(Marker(pid, info)) && EarlyDone(trace) == EarlyDone(old(trace))
      ensures Injected(trace) == Injected(old(trace))
    {
      info := *;
      Record(Marker(pid, info), terms);
      Pass(1);
    }

    /** One attempt at an injection. */
    method InjectInto(pid: nat, route: Route, ghost terms: Terms) returns (result: Attempt)
      requires Lawful(trace, terms) && Permitted(trace, Inject(pid, route, Worked), terms)
      modifies this
      ensures Lawful(trace, terms) && now >= old(now)
      ensures trace == old(trace) + [Inject(pid, route, result)]
      ensures LastMarker(trace) == LastMarker(old(trace)) && Injected(trace) == Injected(old(trace)) + {pid}
      ensures EarlyDone(trace) == EarlyDone(old(trace)) + if route == Early && result == Worked then {pid} else {}
    {
      result := *;
      Record(Inject(pid, route, result), terms);
      Pass(0);
    }
  }

  // ----- injecting -----

  /** A trace grown by n attempts on one process, all but the last of which a retry might mend. */
  ghost predicate Tried(before: seq<Event>, after: seq<Event>, n: nat, pid: nat, route: Route, result: Attempt) {
    && before <= after && |after| == |before| + n
    && (n > 0 ==> after[|after| - 1] == Inject(pid, route, result))
    && (forall k :: |before| <= k < |after| - 1 ==> after[k] == Inject(pid, route, Retryable))
    && LastMarker(after) == LastMarker(before)
    && Injected(after) == (if n == 0 then Injected(before) else Injected(before) + {pid})
    && EarlyDone(after) == EarlyDone(before) + if n > 0 && route == Early && result == Worked then {pid} else {}
  }

  lemma StillPermitted(before: seq<Event>, after: seq<Event>, n: nat, pid: nat, route: Route, terms: Terms)
    requires Tried(before, after, n, pid, route, Retryable) && Permitted(before, Inject(pid, route, Worked), terms)
    ensures Permitted(after, Inject(pid, route, Worked), terms)
  {
  }

  lemma TriedAgain(before: seq<Event>, middle: seq<Event>, after: seq<Event>, n: nat, pid: nat, route: Route,
        result: Attempt)
    requires Tried(before, middle, n, pid, route, Retryable) && Tried(middle, after, 1, pid, route, result)
    ensures Tried(before, after, n + 1, pid, route, result)
  {
    forall k | |before| <= k < |after| - 1 ensures after[k] == Inject(pid, route, Retryable) {
      assert after[k] == middle[k];
    }
  }

  method InjectDll(w: World, pid: nat, route: Route, ghost terms: Terms) returns (result: Attempt)
    requires Lawful(w.trace, terms) && Permitted(w.trace, Inject(pid, route, Worked), terms)
    modifies w
    ensures Lawful(w.trace, terms) && w.now >= old(w.now)
    ensures w.trace == old(w.trace) + [Inject(pid, route, result)]
    ensures Tried(old(w.trace), w.trace, 1, pid, route, result)
  {
    result := w.InjectInto(pid, route, terms);
  }

  /** At most five attempts; a sixth is not made, and nothing but a retryable failure is tried again. */
  method InjectDllWithShortRetry(w: World, pid: nat, route: Route, ghost terms: Terms) returns (result: Attempt,
        attempts: nat)
    requires Lawful(w.trace, terms) && Permitted(w.trace, Inject(pid, route, Worked), terms)
    modifies w
    ensures Lawful(w.trace, terms) && w.now >= old(w.now)
    ensures 0 < attempts <= 5 && Tried(old(w.trace), w.trace, attempts, pid, route, result)
    ensures result == Retryable ==> attempts == 5
    ensures w.now >= old(w.now) + 500 * (attempts - 1)
  {
    attempts, result := 0, Retryable;
    while attempts < MAX_ATTEMPTS && result == Retryable
      invariant 0 <= attempts <= MAX_ATTEMPTS && (attempts == 0 ==> result == Retryable)
      invariant Lawful(w.trace, terms) && w.now >= old(w.now)
      invariant w.now >= old(w.now) + 500 * (attempts - 1)
      invariant attempts < MAX_ATTEMPTS && result == Retryable ==> w.now >= old(w.now) + 500 * attempts
      invariant Tried(old(w.trace), w.trace, attempts, pid, route, result)
    {
      ghost var middle := w.trace;
      StillPermitted(old(w.trace), middle, attempts, pid, route, terms);
      result := InjectDll(w, pid, route, terms);
      TriedAgain(old(w.trace), middle, w.trace, attempts, pid, route, result);
      attempts := attempts + 1;
      if result == Retryable && attempts < MAX_ATTEMPTS {
        w.Pass(RETRY_SLEEP);
      }
    }
  }

  /** How the early injector leaves a process: gone, done before, loaded already, no copy to inject, or an attempt. */
  ghost predicate EarlyEnd(e: Event, pid: nat, done: bool) {
    || e == Running(pid, false) || (e == Running(pid, true) && done)
    || e == Loaded(pid, true) || e == Copied(false)
    || (e.Inject? && e.pid == pid && e.route == Early)
  }

  lemma EndsEarly(before: seq<Event>, middle: seq<Event>, after: seq<Event>, n: nat, pid: nat, result: Attempt)
    requires before <= middle && n > 0 && Tried(middle, after, n, pid, Early, result)
    ensures before < after && EarlyEnd(after[|after| - 1], pid, false)
    ensures LastMarker(after) == LastMarker(middle)
    ensures EarlyDone(after) == EarlyDone(middle) + if result == Worked then {pid} else {}
  {
  }

  /** A copy of the library to inject, unless there is one already. */
  method PrepareCopy(w: World, ready: bool, ghost terms: Terms) returns (ok: bool)
    requires Lawful(w.trace, terms)
    modifies w
    ensures Lawful(w.trace, terms) && w.now == old(w.now) && (ready ==> ok)
    ensures w.trace == old(w.trace) + if ready then [] else [Copied(ok)]
    ensures LastMarker(w.trace) == LastMarker(old(w.trace))
    ensures Injected(w.trace) == Injected(old(w.trace)) && EarlyDone(w.trace) == EarlyDone(old(w.trace))
  {
    ok := ready;
    if !ready {
      ok := w.CopyLibrary(terms);
    }
  }

  class PresaveEarlyInjector {
    const bootstrapRequested: bool
    var injectedPids: set<nat>
    var prepared: bool

    constructor (bootstrapRequested: bool)
      ensures this.bootstrapRequested == bootstrapRequested && injectedPids == {} && !prepared
    {
      this.bootstrapRequested := bootstrapRequested;
      injectedPids := {};
      prepared := false;
    }

    /** Knows exactly the processes it has injected, and acts under the bootstrap's terms only. */
    ghost predicate Fits(w: World, terms: Terms)
      reads this, w
    {
      && injectedPids == EarlyDone(w.trace)
      && (bootstrapRequested ==> terms.presave && terms.supported && !terms.dryRun)
    }

    /** Injects a candidate at most once, and tries to unless something is in the way; no failure leaves this method. */
    method TryInject(w: World, pid: nat, ghost terms: Terms)
      requires Lawful(w.trace, terms) && Fits(w, terms)
      modifies this, w
      ensures Lawful(w.trace, terms) && Fits(w, terms) && w.now >= old(w.now)
      ensures old(w.trace) <= w.trace && (!bootstrapRequested ==> w.trace == old(w.trace))
      ensures bootstrapRequested ==>
        |w.trace| > |old(w.trace)| && EarlyEnd(w.trace[|w.trace| - 1], pid, pid in injectedPids)
      ensures pid in old(injectedPids) ==> Injected(w.trace) == Injected(old(w.trace))
      ensures old(injectedPids) <= injectedPids <= old(injectedPids) + {pid}
      ensures LastMarker(w.trace) == LastMarker(old(w.trace))
    {
      if !bootstrapRequested {
        return;
      }
      var running := w.IsRunning(pid, terms);
      if !running || pid in injectedPids {
        return;
      }
      InjectNew(w, pid, terms);
    }

    /** The part of an early injection that may throw. */
    method InjectNew(w: World, pid: nat, ghost terms: Terms)
      requires Lawful(w.trace, terms) && Fits(w, terms) && bootstrapRequested && pid !in injectedPids
      modifies this, w
      ensures Lawful(w.trace, terms) && Fits(w, terms) && w.now >= old(w.now)
      ensures old(w.trace) < w.trace && EarlyEnd(w.trace[|w.trace| - 1], pid, false)
      ensures old(injectedPids) <= injectedPids <= old(injectedPids) + {pid}
      ensures LastMarker(w.trace) == LastMarker(old(w.trace))
    {
      var loaded := w.HasLibrary(pid, terms);
      if loaded {
        return;
      }
      prepared := PrepareCopy(w, prepared, terms);
      if !prepared {
        return;
      }
      ghost var middle := w.trace;
      var result, attempts := InjectDllWithShortRetry(w, pid, Early, terms);
      EndsEarly(old(w.trace), middle, w.trace, attempts, pid, result);
      if result == Worked {
        injectedPids := injectedPids + {pid};
      }
    }
  }

  /** The library is in the process: it was found there, or has just been injected after it was not. */
  ghost predicate Equipped(before: seq<Event>, after: seq<Event>, pid: nat) {
    && before < after
    && after[|before|] == Loaded(pid, |after| == |before| + 1)
    && (|after| > |before| + 1 ==>
          && after[|after| - 1] == Inject(pid, Main, Worked)
          && (forall k :: |before| < k < |after| - 1 ==>
               after[k] == Copied(true) || after[k] == Inject(pid, Main, Retryable)))
  }

  /** The library did not get into the process. */
  ghost predicate NotEquipped(e: Event, pid: nat) {
    e == Copied(false) || (e.Inject? && e.pid == pid && e.route == Main && e.result != Worked)
  }

  lemma EquippedByAttempts(before: seq<Event>, middle: seq<Event>, after: seq<Event>, n: nat, pid: nat, result: Attempt)
    requires before <= middle && |before| < |middle| <= |before| + 2 && middle[|before|] == Loaded(pid, false)
    requires |middle| == |before| + 2 ==> middle[|before| + 1] == Copied(true)
    requires 0 < n <= MAX_ATTEMPTS && Tried(middle, after, n, pid, Main, result)
    ensures before < after && |after| <= |before| + MAX_ATTEMPTS + 2
    ensures Injected(after) <= Injected(middle) + {pid} && EarlyDone(after) == EarlyDone(middle)
    ensures if result == Worked then Equipped(before, after, pid) else NotEquipped(after[|after| - 1], pid)
  {
    assert after[|before|] == middle[|before|];
    forall k | |before| < k < |after| - 1
      ensures after[k] == Copied(true) || after[k] == Inject(pid, Main, Retryable)
    {
      if k < |middle| {
        assert after[k] == middle[k];
      }
    }
  }

  /** Nothing to do when the library is loaded; otherwise up to five attempts, and an exception if none works. */
  method InjectIfNeeded(w: World, early: PresaveEarlyInjector, pid: nat, ghost terms: Terms) returns (fine: bool)
    requires Lawful(w.trace, terms) && early.Fits(w, terms) && Permitted(w.trace, Inject(pid, Main, Worked), terms)
    modifies w
    ensures Lawful(w.trace, terms) && early.Fits(w, terms) && w.now >= old(w.now)
    ensures LastMarker(w.trace) == LastMarker(old(w.trace))
    ensures Injected(w.trace) <= Injected(old(w.trace)) + {pid}
    ensures old(w.trace) < w.trace && |w.trace| <= |old(w.trace)| + MAX_ATTEMPTS + 2
    ensures fine ==> Equipped(old(w.trace), w.trace, pid)
    ensures !fine ==> NotEquipped(w.trace[|w.trace| - 1], pid)
  {
    var loaded := w.HasLibrary(pid, terms);
    if loaded {
      return true;
    }
    var copied := PrepareCopy(w, early.prepared, terms);
    if !copied {
      return false;
    }
    ghost var middle := w.trace;
    var result, attempts := InjectDllWithShortRetry(w, pid, Main, terms);
    fine := result == Worked;
    EquippedByAttempts(old(w.trace), middle, w.trace, attempts, pid, result);
  }

  // ----- finding the process -----

  /** The position of the first of n candidates that is at least as young as asked for. */
  function FirstSince(candidates: seq<Candidate>, since: int, n: nat): (r: Option<nat>)
    requires n <= |candidates|
    ensures r.Some? ==> r.value < n && candidates[r.value].startTime >= since
    ensures forall k :: 0 <= k < (if r.Some? then r.value else n) ==> candidates[k].startTime < since
  {
    if n == 0 then None
    else
      var earlier := FirstSince(candidates, since, n - 1);
      if earlier.Some? then earlier
      else if candidates[n - 1].startTime >= since then Some(n - 1)
      else None
  }

  predicate Offers(candidates: seq<Candidate>, pid: nat) {
    exists k :: 0 <= k < |candidates| && candidates[k].pid == pid
  }

  /** The candidate at position k is the first that started no earlier than five seconds before the launch. */
  ghost predicate FirstRecent(candidates: seq<Candidate>, launchStarted: int, k: nat) {
    && k < |candidates| && candidates[k].startTime >= launchStarted - 5000
    && forall i :: 0 <= i < k ==> candidates[i].startTime < launchStarted - 5000
  }

  /** The launched process if it is there, else the first recent one, else the first. */
  function Pick(candidates: seq<Candidate>, launched: nat, launchStarted: int): (r: Option<nat>)
    ensures r.None? <==> candidates == []
    ensures Offers(candidates, launched) ==> r == Some(launched)
    ensures r.Some? && !Offers(candidates, launched) ==> exists k: nat ::
      && k < |candidates| && r.value == candidates[k].pid
      && (FirstRecent(candidates, launchStarted, k)
          || (k == 0 && forall i :: 0 <= i < |candidates| ==> candidates[i].startTime < launchStarted - 5000))
  {
    if Offers(candidates, launched) then Some(launched)
    else
      var recent := FirstSince(candidates, launchStarted - 5000, |candidates|);
      if recent.Some? then
        assert FirstRecent(candidates, launchStarted, recent.value);
        Some(candidates[recent.value].pid)
      else if candidates != [] then Some(candidates[0].pid)
      else None
  }

  /** A round of the search: a listing, the early injector's turn, and a check that the process has lasted. */
  ghost predicate Looked(before: seq<Event>, after: seq<Event>, launched: nat, launchStarted: int, target: nat,
        bootstrap: bool, stable: bool)
  {
    && |before| + 2 <= |after| && before < after && after[|before|].Listing?
    && Pick(after[|before|].candidates, launched, launchStarted) == Some(target)
    && after[|after| - 1] == Stable(target, stable)
    && (bootstrap ==> |before| + 3 <= |after| && EarlyEnd(after[|after| - 2], target, target in EarlyDone(after)))
  }

  ghost predicate KeepsFirst(before: seq<Event>, after: seq<Event>) {
    before != [] ==> after != [] && after[0] == before[0]
  }

  /** The end of a successful search, whose last round began at the k-th event. */
  ghost predicate Settled(after: seq<Event>, k: nat, launched: nat, launchStarted: int, target: nat, bootstrap: bool) {
    k < |after| && Looked(after[..k], after, launched, launchStarted, target, bootstrap, true)
  }

  method Round(w: World, early: PresaveEarlyInjector, launched: nat, launchStarted: int, ghost terms: Terms)
    returns (candidate: Option<nat>, stable: bool)
    requires Lawful(w.trace, terms) && early.Fits(w, terms)
    modifies w, early
    ensures Lawful(w.trace, terms) && early.Fits(w, terms) && w.now >= old(w.now)
    ensures candidate.Some? ==> w.now >= old(w.now) + STABILITY_SLEEP
    ensures LastMarker(w.trace) == LastMarker(old(w.trace))
    ensures !early.bootstrapRequested ==> Injected(w.trace) == Injected(old(w.trace))
    ensures candidate.Some? ==>
      Looked(old(w.trace), w.trace, launched, launchStarted, candidate.value, early.bootstrapRequested, stable)
    ensures candidate.None? ==> w.trace == old(w.trace) + [Listing([])] && !stable
  {
    var candidates := w.List(terms);
    candidate := Pick(candidates, launched, launchStarted);
    if candidate.None? {
      return candidate, false;
    }
    ghost var listed := w.trace;
    stable := TryCandidate(w, early, candidate.value, terms);
    RoundLooked(old(w.trace), listed, w.trace, launched, launchStarted, candidate.value, early.bootstrapRequested,
      stable);
  }

  lemma RoundLooked(before: seq<Event>, listed: seq<Event>, after: seq<Event>, launched: nat, launchStarted: int,
        target: nat, bootstrap: bool, stable: bool)
    requires |listed| == |before| + 1 && before <= listed && listed[|before|].Listing?
    requires Pick(listed[|before|].candidates, launched, launchStarted) == Some(target)
    requires CandidateTried(listed, after, target, bootstrap, stable)
    ensures Looked(before, after, launched, launchStarted, target, bootstrap, stable)
  {
  }

  /** The early injector's turn on a candidate, and the check that it has lasted. */
  ghost predicate CandidateTried(before: seq<Event>, after: seq<Event>, target: nat, bootstrap: bool, stable: bool) {
    && before < after && after[|after| - 1] == Stable(target, stable)
    && (bootstrap ==> |before| + 2 <= |after| && EarlyEnd(after[|after| - 2], target, target in EarlyDone(after)))
  }

  lemma TriedThenLasted(before: seq<Event>, served: seq<Event>, after: seq<Event>, target: nat, bootstrap: bool,
        stable: bool)
    requires before <= served && after == served + [Stable(target, stable)]
    requires bootstrap ==>
      |served| > |before| && EarlyEnd(served[|served| - 1], target, target in EarlyDone(after))
    ensures CandidateTried(before, after, target, bootstrap, stable)
  {
  }

  method TryCandidate(w: World, early: PresaveEarlyInjector, pid: nat, ghost terms: Terms) returns (stable: bool)
    requires Lawful(w.trace, terms) && early.Fits(w, terms)
    modifies w, early
    ensures Lawful(w.trace, terms) && early.Fits(w, terms) && w.now >= old(w.now) + STABILITY_SLEEP
    ensures LastMarker(w.trace) == LastMarker(old(w.trace))
    ensures !early.bootstrapRequested ==> Injected(w.trace) == Injected(old(w.trace))
    ensures CandidateTried(old(w.trace), w.trace, pid, early.bootstrapRequested, stable)
  {
    early.TryInject(w, pid, terms);
    ghost var served := w.trace;
    w.Pass(STABILITY_SLEEP);
    stable := w.HasLasted(pid, terms);
    TriedThenLasted(old(w.trace), served, w.trace, pid, early.bootstrapRequested, stable);
  }

  /** A process that survived the stability sleep, or None for the timeout exception. */
  method WaitForStableProcess(w: World, early: PresaveEarlyInjector, launched: nat, launchStarted: int, timeout: int,
        ghost terms: Terms)
    returns (target: Option<nat>, ghost at: nat)
    requires Lawful(w.trace, terms) && early.Fits(w, terms)
    modifies w, early
    ensures Lawful(w.trace, terms) && early.Fits(w, terms) && w.now >= old(w.now)
    ensures target.Some? ==> w.now >= old(w.now) + 1500
    ensures target.Some? ==> Settled(w.trace, at, launched, launchStarted, target.value, early.bootstrapRequested)
    ensures KeepsFirst(old(w.trace), w.trace)
    ensures target.None? ==> w.now >= old(w.now) + timeout
    ensures LastMarker(w.trace) == LastMarker(old(w.trace))
    ensures !early.bootstrapRequested ==> Injected(w.trace) == Injected(old(w.trace))
  {
    var deadline := w.now + timeout;
    while w.now < deadline
      invariant Lawful(w.trace, terms) && early.Fits(w, terms) && w.now >= old(w.now)
      invariant KeepsFirst(old(w.trace), w.trace)
      invariant LastMarker(w.trace) == LastMarker(old(w.trace))
      invariant !early.bootstrapRequested ==> Injected(w.trace) == Injected(old(w.trace))
      decreases deadline - w.now
    {
      ghost var before := w.trace;
      var candidate, stable := Round(w, early, launched, launchStarted, terms);
      if stable {
        assert w.trace[..|before|] == before;
        return candidate, |before|;
      }
      w.Pass(RETRY_SLEEP);
    }
    return None, 0;
  }

  // ----- waiting for the marked save -----

  /** A trace grown by checks of one process, of which only the last may settle the matter. */
  ghost predicate Polled(before: seq<Event>, after: seq<Event>, pid: nat, info: MarkerInfo) {
    && before < after && after[|after| - 1] == Marker(pid, info)
    && forall k :: |before| <= k < |after| - 1 ==>
         after[k].Marker? && after[k].pid == pid && !after[k].info.ok && !Terminal(after[k].info)
  }

  lemma PolledAgain(before: seq<Event>, middle: seq<Event>, pid: nat, info: MarkerInfo, next: MarkerInfo)
    requires before <= middle
    requires middle == before || (Polled(before, middle, pid, info) && !info.ok && !Terminal(info))
    ensures Polled(before, middle + [Marker(pid, next)], pid, next)
  {
  }

  /**
   Polls until the marker is there, the failure is final, or time is up: no earlier, at most once in two seconds,
   and two more times.
   */
  method WaitForMarkedSave(w: World, pid: nat, timeout: nat, ghost terms: Terms) returns (info: MarkerInfo)
    requires Lawful(w.trace, terms)
    modifies w
    ensures Lawful(w.trace, terms) && w.now >= old(w.now)
    ensures LastMarker(w.trace) == Some(Marker(pid, info)) && EarlyDone(w.trace) == EarlyDone(old(w.trace))
    ensures Injected(w.trace) == Injected(old(w.trace))
    ensures Polled(old(w.trace), w.trace, pid, info)
    ensures info.ok || Terminal(info) || (info == MarkerInfo(false, TimedOut) && w.now > old(w.now) + timeout)
    ensures (|w.trace| - |old(w.trace)| - 3) * 2000 <= timeout
    ensures OnlyLooks(old(w.trace)) ==> OnlyLooks(w.trace)
  {
    var begun := w.now;
    var deadline := begun + timeout;
    info := MarkerInfo(false, OtherStatus);
    while w.now <= deadline
      invariant Lawful(w.trace, terms) && w.now >= begun
      invariant old(w.trace) <= w.trace && EarlyDone(w.trace) == EarlyDone(old(w.trace))
      invariant Injected(w.trace) == Injected(old(w.trace))
      invariant w.trace == old(w.trace) || Polled(old(w.trace), w.trace, pid, info)
      invariant !info.ok && !Terminal(info)
      invariant InTime(|w.trace| - |old(w.trace)|, w.now - begun, timeout)
      decreases deadline - w.now
    {
      ghost var middle, last := w.trace, info;
      info := w.CheckMarker(pid, terms);
      PolledAgain(old(w.trace), middle, pid, last, info);
      if info.ok {
        break;
      }
      if Terminal(info) {
        break;
      }
      var remaining := deadline - w.now;
      if remaining > 0 {
        w.Pass(if remaining < POLL_INTERVAL then remaining else POLL_INTERVAL);
      }
    }
    if !info.ok && !Terminal(info) {
      ghost var middle, last := w.trace, info;
      info := MarkerInfo(false, TimedOut);
      w.Record(Marker(pid, info), terms);
      PolledAgain(old(w.trace), middle, pid, last, info);
    }
    OnlyPolled(old(w.trace), w.trace, pid, info);
  }

  /** After n checks, each but the last two followed by a whole interval. */
  ghost predicate InTime(n: int, elapsed: int, timeout: int) {
    && (elapsed < timeout ==> n * POLL_INTERVAL <= elapsed)
    && (elapsed == timeout ==> (n - 1) * POLL_INTERVAL <= timeout)
    && (n - 2) * POLL_INTERVAL <= timeout
  }

  lemma OnlyPolled(before: seq<Event>, after: seq<Event>, pid: nat, info: MarkerInfo)
    requires Polled(before, after, pid, info)
    ensures OnlyLooks(before) ==> OnlyLooks(after)
  {
    if OnlyLooks(before) {
      forall k | 0 <= k < |after| ensures !after[k].Start? && !after[k].Inject? {
        assert k < |before| ==> after[k] == before[k];
      }
    }
  }

  method WaitForTarget(w: World, pid: nat, deadline: int, ghost terms: Terms) returns (info: MarkerInfo)
    requires Lawful(w.trace, terms)
    modifies w
    ensures Lawful(w.trace, terms) && w.now >= old(w.now)
    ensures LastMarker(w.trace) == Some(Marker(pid, info)) && EarlyDone(w.trace) == EarlyDone(old(w.trace))
    ensures Injected(w.trace) == Injected(old(w.trace))
    ensures Polled(old(w.trace), w.trace, pid, info)
    ensures info.ok || Terminal(info) || (info == MarkerInfo(false, TimedOut) && w.now > deadline)
  {
    var timeout := deadline - w.now;
    if timeout < 0 {
      timeout := 0;
    }
    info := WaitForMarkedSave(w, pid, timeout, terms);
  }

  /** Looks for another process only while time is left, and takes at least the stability sleep to find one. */
  method TryResolveReplacement(
    w: World, early: PresaveEarlyInjector, info: MarkerInfo, launched: nat, launchStarted: int, deadline: int,
    ghost terms: Terms)
    returns (replacement: Option<nat>, ghost at: nat)
    requires Lawful(w.trace, terms) && early.Fits(w, terms)
    modifies w, early
    ensures Lawful(w.trace, terms) && early.Fits(w, terms) && w.now >= old(w.now)
    ensures replacement.Some? ==>
      && info.status == ProcessUnavailable && old(w.now) < deadline && w.now >= old(w.now) + STABILITY_SLEEP
      && Settled(w.trace, at, launched, launchStarted, replacement.value, early.bootstrapRequested)
    ensures replacement.None? ==>
      info.status != ProcessUnavailable || w.now >= deadline || w.now >= old(w.now) + STABLE_TIMEOUT
    ensures KeepsFirst(old(w.trace), w.trace) && LastMarker(w.trace) == LastMarker(old(w.trace))
    ensures info.status != ProcessUnavailable ==> w.trace == old(w.trace)
    ensures !early.bootstrapRequested ==> Injected(w.trace) == Injected(old(w.trace))
  {
    if info.status != ProcessUnavailable {
      return None, 0;
    }
    var remaining := deadline - w.now;
    if remaining <= 0 {
      return None, 0;
    }
    var timeout := if remaining < STABLE_TIMEOUT then remaining else STABLE_TIMEOUT;
    replacement, at := WaitForStableProcess(w, early, launched, launchStarted, timeout, terms);
  }

  // ----- the flows -----

  /** The most replacements the marker deadline leaves room for. */
  const MAX_REPLACEMENTS: nat := MARKED_SAVE_WAIT / STABILITY_SLEEP

  /** Right after a good check of the process, with nothing else in between, the library got into it. */
  ghost predicate EquippedAfterMarker(trace: seq<Event>, pid: nat) {
    exists k :: 0 < k < |trace| && MarkedAt(trace, k - 1, pid) && Equipped(trace[..k], trace, pid)
  }

  predicate MarkedAt(trace: seq<Event>, k: nat, pid: nat)
    requires k < |trace|
  {
    trace[k].Marker? && trace[k].pid == pid && trace[k].info.ok
  }

  /** The library got into the process, and only then the polling for its marked save began. */
  ghost predicate EquippedBeforeMarker(trace: seq<Event>, pid: nat, info: MarkerInfo) {
    exists k, m :: 0 <= k < m < |trace| && Equipped(trace[..k], trace[..m], pid) && Polled(trace[..m], trace, pid, info)
  }

  lemma AfterMarker(before: seq<Event>, middle: seq<Event>, after: seq<Event>, pid: nat, info: MarkerInfo)
    requires Polled(before, middle, pid, info) && info.ok && Equipped(middle, after, pid)
    ensures EquippedAfterMarker(after, pid)
  {
    var k := |middle|;
    assert after[..k] == middle && after[k - 1] == middle[k - 1];
  }

  lemma BeforeMarker(before: seq<Event>, middle: seq<Event>, after: seq<Event>, pid: nat, info: MarkerInfo)
    requires Equipped(before, middle, pid) && Polled(middle, after, pid, info)
    ensures EquippedBeforeMarker(after, pid, info)
  {
    var k, m := |before|, |middle|;
    assert after[..m] == middle && after[..k] == middle[..k] == before;
  }

  /** How the launch loop exits with 0: the library is in a process with a marked save, in the order of the plan. */
  ghost predicate LaunchDone(trace: seq<Event>, target: nat, presave: bool) {
    && MarkedLast(trace, target)
    && if presave then EquippedBeforeMarker(trace, target, LastMarker(trace).value.info)
       else EquippedAfterMarker(trace, target)
  }

  /** With 9 when the target has no marked save, and no other process was found in time. */
  ghost predicate LaunchBlocked(trace: seq<Event>, target: nat, elapsed: int) {
    && LastMarker(trace).Some? && LastMarker(trace).value.pid == target && !LastMarker(trace).value.info.ok
    && (LastMarker(trace).value.info.status == ProcessUnavailable ==> elapsed >= 30000)
    && (LastMarker(trace).value.info.status == TimedOut ==> elapsed > 900000)
  }

  /** With an exception when no process lasted, or the library did not get in. */
  ghost predicate LaunchThrew(trace: seq<Event>, target: nat, elapsed: int) {
    elapsed >= 30000 || (trace != [] && NotEquipped(trace[|trace| - 1], target))
  }

  /** Each replacement has used up the stability sleep. */
  ghost predicate Replaced(rounds: nat, elapsed: int) {
    STABILITY_SLEEP * rounds <= elapsed && rounds <= MAX_REPLACEMENTS
  }

  lemma ReplacedAgain(rounds: nat, searched: int, elapsed: int)
    requires Replaced(rounds, searched) && searched < MARKED_SAVE_WAIT && elapsed >= searched + STABILITY_SLEEP
    ensures Replaced(rounds + 1, elapsed)
  {
  }

  datatype Served = Done | Broken | Unmarked

  /** One target: its marked save and then the library, or the other way round under the bootstrap. */
  method ServeTarget(w: World, early: PresaveEarlyInjector, process: nat, deadline: int, plan: Plan, ghost terms: Terms,
        ghost at: nat, ghost launched: nat, ghost launchStarted: int)
    returns (served: Served, info: MarkerInfo)
    requires Settled(w.trace, at, launched, launchStarted, process, terms.presave)
    requires Lawful(w.trace, terms) && early.Fits(w, terms) && terms.supported && !terms.dryRun
    requires terms.presave == plan.bootstrapRequested == plan.decision.allowsPresaveInjection
    modifies w
    ensures Lawful(w.trace, terms) && early.Fits(w, terms) && w.now >= old(w.now)
    ensures KeepsFirst(old(w.trace), w.trace)
    ensures served == Done ==> LaunchDone(w.trace, process, terms.presave)
    ensures served == Broken ==> w.trace != [] && NotEquipped(w.trace[|w.trace| - 1], process)
    ensures served == Unmarked ==> !info.ok && LastMarker(w.trace) == Some(Marker(process, info))
    ensures served == Unmarked ==> Terminal(info) || (info.status == TimedOut && w.now > deadline)
    ensures !terms.presave ==>
      Injected(w.trace) <= Injected(old(w.trace)) + if served == Unmarked then {} else {process}
    ensures served == Unmarked && !terms.presave ==> Injected(w.trace) == Injected(old(w.trace))
  {
    info := MarkerInfo(false, OtherStatus);
    ghost var begun := w.trace;
    if !plan.decision.allowsPresaveInjection {
      info := WaitForTarget(w, process, deadline, terms);
      if !info.ok {
        return Unmarked, info;
      }
    }
    ghost var before, marked := w.trace, info;
    var fine := InjectIfNeeded(w, early, process, terms);
    if !fine {
      return Broken, info;
    }
    if !plan.decision.allowsPresaveInjection {
      AfterMarker(begun, before, w.trace, process, marked);
      return Done, info;
    }
    ghost var middle := w.trace;
    info := WaitForTarget(w, process, deadline, terms);
    BeforeMarker(before, middle, w.trace, process, info);
    served := if info.ok then Done else Unmarked;
  }

  /**
   The launch loop. It ends: each further round needs time left and uses up the stability sleep. It exits with 0
   only when the library is in the target, found there or injected, and the target has a marked save; without the
   bootstrap the target is the only process injected, and none is when it exits with 9.
   */
  method InjectLaunchedProcess(w: World, launchStarted: int, launched: nat, plan: Plan, ghost terms: Terms)
    returns (ending: Ending, rounds: nat, ghost target: nat)
    requires Lawful(w.trace, terms) && EarlyDone(w.trace) == {}
    requires terms.supported && !terms.dryRun
    requires terms.presave == plan.bootstrapRequested == plan.decision.allowsPresaveInjection
    modifies w
    ensures Lawful(w.trace, terms)
    ensures KeepsFirst(old(w.trace), w.trace) && rounds <= 600
    ensures ending.Exit? ==> ending.code == 0 || ending.code == 9
    ensures ending == Exit(0) ==> LaunchDone(w.trace, target, terms.presave)
    ensures ending == Exit(9) ==> LaunchBlocked(w.trace, target, w.now - old(w.now))
    ensures ending == Threw ==> LaunchThrew(w.trace, target, w.now - old(w.now))
    ensures !terms.presave ==>
      Injected(w.trace) <= Injected(old(w.trace)) + if ending == Exit(9) then {} else {target}
  {
    var early := new PresaveEarlyInjector(plan.bootstrapRequested);
    var begun := w.now;
    var deadline := begun + MARKED_SAVE_WAIT;
    rounds := 0;
    ghost var at;
    var found;
    found, at := WaitForStableProcess(w, early, launched, launchStarted, STABLE_TIMEOUT, terms);
    if found.None? {
      return Threw, rounds, 0;
    }
    var process := found.value;
    while true
      invariant Lawful(w.trace, terms) && early.Fits(w, terms)
      invariant early.bootstrapRequested == plan.bootstrapRequested
      invariant KeepsFirst(old(w.trace), w.trace) && Replaced(rounds, w.now - begun)
      invariant Settled(w.trace, at, launched, launchStarted, process, terms.presave)
      invariant !terms.presave ==> Injected(w.trace) == Injected(old(w.trace))
      decreases deadline - w.now
    {
      var served, info := ServeTarget(w, early, process, deadline, plan, terms, at, launched, launchStarted);
      match served
      case Done => return Exit(0), rounds, process;
      case Broken => return Threw, rounds, process;
      case Unmarked =>
        ghost var searched := w.now;
        var replacement;
        replacement, at := TryResolveReplacement(w, early, info, launched, launchStarted, deadline, terms);
        if replacement.None? {
          return Exit(9), rounds, process;
        }
        ReplacedAgain(rounds, searched - begun, w.now - begun);
        process, rounds := replacement.value, rounds + 1;
    }
  }

  /** The game is started, unless the run is dry or another instance blocks it; the library follows if there is one. */
  method RunLaunchFlow(w: World, options: Options, plan: Plan, existing: seq<nat>, ghost terms: Terms)
    returns (ending: Ending, ghost target: nat)
    requires w.trace == [] && terms.dryRun == options.dryRun
    requires options.dll.Some? && !options.dryRun ==> terms.supported
    requires terms.presave == plan.bootstrapRequested == plan.decision.allowsPresaveInjection
    modifies w
    ensures Lawful(w.trace, terms)
    ensures options.dryRun ==> w.trace == [] && ending == Exit(0)
    ensures !options.dryRun && existing != [] && !options.allowSecondInstance ==> w.trace == [] && ending == Exit(3)
    ensures !options.dryRun && (existing == [] || options.allowSecondInstance) ==>
      (w.trace == [NotStarted] && ending == Exit(4)) || (w.trace != [] && w.trace[0].Start?)
    ensures options.dll.None? && w.trace != [] && w.trace[0].Start? ==> |w.trace| == 1 && ending == Exit(0)
    ensures options.dll.Some? && ending == Exit(0) && !options.dryRun ==> LaunchDone(w.trace, target, terms.presave)
    ensures ending == Exit(9) ==>
      LastMarker(w.trace).Some? && LastMarker(w.trace).value.pid == target && !LastMarker(w.trace).value.info.ok
    ensures !terms.presave ==> Injected(w.trace) <= if ending == Exit(9) then {} else {target}
  {
    target := 0;
    if options.dryRun {
      return Exit(0), target;
    }
    if |existing| > 0 && !options.allowSecondInstance {
      return Exit(3), target;
    }
    var launchStarted := w.now;
    var launched := w.StartGame(terms);
    if launched.None? {
      return Exit(4), target;
    }
    if options.dll.None? {
      return Exit(0), target;
    }
    ghost var before := w.trace;
    var rounds;
    ending, rounds, target := InjectLaunchedProcess(w, launchStarted, launched.value, plan, terms);
    assert w.trace[0] == before[0];
  }

  method CheckTarget(w: World, target: nat, isDefaultRun: bool, ghost terms: Terms) returns (info: MarkerInfo)
    requires w.trace == []
    modifies w
    ensures Lawful(w.trace, terms) && OnlyLooks(w.trace)
    ensures LastMarker(w.trace) == Some(Marker(target, info)) && Polled([], w.trace, target, info)
    ensures !isDefaultRun ==> w.trace == [Marker(target, info)]
    ensures isDefaultRun ==> info.ok || Terminal(info) || w.now > old(w.now) + 900000
  {
    if isDefaultRun {
      info := WaitForMarkedSave(w, target, MARKED_SAVE_WAIT, terms);
    } else {
      info := w.CheckMarker(target, terms);
    }
  }

  /** The library is in a process with a marked save: found there, or injected by a single attempt from a fresh copy. */
  ghost predicate AttachDone(trace: seq<Event>, target: nat) {
    && MarkedLast(trace, target) && trace != []
    && (|| trace[|trace| - 1] == Loaded(target, true)
        || (|trace| >= 3
            && trace[|trace| - 3..] == [Loaded(target, false), Copied(true), Inject(target, Attach, Worked)]))
  }

  /** The one process to attach to, if it is named or can be told. */
  function AttachTarget(options: Options, existing: seq<nat>): (r: Option<nat>)
    ensures options.attachPid.Some? ==> r == options.attachPid
    ensures options.attachPid.None? ==> (r.Some? <==> |existing| == 1) && (r.Some? ==> existing == [r.value])
  {
    if options.attachPid.Some? then options.attachPid
    else if |existing| == 1 then Some(existing[0]) else None
  }

  method RunAttachFlow(w: World, options: Options, isDefaultRun: bool, existing: seq<nat>, ghost terms: Terms)
    returns (ending: Ending)
    requires w.trace == [] && terms.dryRun == options.dryRun
    requires options.dll.Some? && !options.dryRun ==> terms.supported
    modifies w
    ensures Lawful(w.trace, terms) && NothingStarted(w.trace)
    ensures options.dryRun ==> OnlyLooks(w.trace)
    ensures ending == Exit(5) <==> options.dll.None?
    ensures ending == Exit(6) <==> options.dll.Some? && AttachTarget(options, existing).None?
    ensures ending == Exit(9) ==> OnlyLooks(w.trace)
    ensures options.dll.Some? && AttachTarget(options, existing).Some? ==>
      var target := AttachTarget(options, existing).value;
      && LastMarker(w.trace).Some? && LastMarker(w.trace).value.pid == target
      && (ending == Exit(9) <==> !options.dryRun && !LastMarker(w.trace).value.info.ok)
      && (ending == Exit(0) && !options.dryRun ==> AttachDone(w.trace, target))
      && (ending == Exit(0) || ending == Exit(9) || ending == Threw)
  {
    if options.dll.None? {
      return Exit(5);
    }
    if options.attachPid.None? && |existing| != 1 {
      return Exit(6);
    }
    var target := if options.attachPid.Some? then options.attachPid.value else existing[0];
    var info := CheckTarget(w, target, isDefaultRun, terms);
    if !info.ok {
      return if options.dryRun then Exit(0) else Exit(9);
    }
    if options.dryRun {
      return Exit(0);
    }
    ending := InjectAttached(w, target, terms);
  }

  /** The part of an attach run behind the marker check. */
  method InjectAttached(w: World, target: nat, ghost terms: Terms) returns (ending: Ending)
    requires Lawful(w.trace, terms) && MarkedLast(w.trace, target) && terms.supported && !terms.dryRun
    requires OnlyLooks(w.trace)
    modifies w
    ensures Lawful(w.trace, terms) && NothingStarted(w.trace) && LastMarker(w.trace) == LastMarker(old(w.trace))
    ensures ending == Exit(0) || ending == Threw
    ensures ending == Exit(0) ==> AttachDone(w.trace, target)
  {
    var loaded := w.HasLibrary(target, terms);
    if loaded {
      return Exit(0);
    }
    var copied := PrepareCopy(w, false, terms);
    if !copied {
      return Threw;
    }
    var result := InjectDll(w, target, Attach, terms);
    ending := if result == Worked then Exit(0) else Threw;
  }

  /**
   Every run. Nothing is injected on an unsupported build or in a dry run; an injection follows a marked
   save found in the same process, with no later check in between, unless the run launches the game with
   the all-star bootstrap in its plan; the early injector touches no process twice once it has succeeded. A run
   with a library that exits with 0 and is not dry has the library in a process with a marked save.
   */
  method RunParsed(w: World, options: Options, isDefaultRun: bool, m: Machine)
    returns (ending: Ending, ghost terms: Terms, ghost target: nat)
    requires w.trace == []
    modifies w
    ensures Lawful(w.trace, terms)
    ensures terms.supported == Supported(m) && terms.dryRun == options.dryRun
    ensures var p := Prepare(options, isDefaultRun, m);
      && (p.Stop? ==> ending == Exit(p.exit) && w.trace == [])
      && (terms.presave <==>
            && p.Go? && p.options.dll.Some? && terms.supported
            && p.options.attachPid.None? && !p.options.attachExisting
            && if p.options.allstarEvents.Some? then p.options.allstarEvents.value
               else m.runtimePatchesFlag && m.allstarEventsFlag)
      && (p.Go? && isDefaultRun && m.existing == [] && options.attachPid.None? ==>
            (terms.presave <==> m.defaultInjection && terms.supported))
    ensures !m.gameFound ==> ending == Exit(2) && w.trace == []
    ensures m.gameFound && isDefaultRun && m.defaultInjection && m.bundledDll.None? ==>
      ending == Exit(7) && w.trace == []
    ensures m.gameFound && !isDefaultRun && options.dll.Some? && !terms.supported && !options.dryRun ==>
      ending == Exit(8) && w.trace == []
    ensures var p := Prepare(options, isDefaultRun, m);
      p.Go? && p.options.dll.Some? && !options.dryRun && ending == Exit(0) ==>
        if p.options.attachPid.Some? || p.options.attachExisting then AttachDone(w.trace, target)
        else LaunchDone(w.trace, target, terms.presave)
    ensures var p := Prepare(options, isDefaultRun, m);
      p.Go? && (p.options.attachPid.Some? || p.options.attachExisting) ==> NothingStarted(w.trace)
  {
    StopsExactly(options, isDefaultRun, m);
    var prepared := Prepare(options, isDefaultRun, m);
    terms, target := Terms(Supported(m), options.dryRun, false), 0;
    if prepared.Stop? {
      return Exit(prepared.exit), terms, target;
    }
    GoesOnSupported(options, isDefaultRun, m);
    PresaveExactly(options, isDefaultRun, m);
    FlagAgreesWithPolicy(prepared.options, m);
    if AttachRequested(prepared.options) {
      ending := RunAttachFlow(w, prepared.options, isDefaultRun, m.existing, terms);
      ghost var attached := AttachTarget(prepared.options, m.existing);
      target := if attached.Some? then attached.value else 0;
    } else {
      terms := terms.(presave := prepared.plan.bootstrapRequested);
      PreparedPlan(options, isDefaultRun, m);
      ending, target := RunLaunchFlow(w, prepared.options, prepared.plan, m.existing, terms);
    }
  }

  lemma PreparedPlan(options: Options, isDefaultRun: bool, m: Machine)
    requires Prepare(options, isDefaultRun, m).Go?
    ensures var p := Prepare(options, isDefaultRun, m); p.plan == BuildLaunchPlan(p.options, m)
  {
  }
}
