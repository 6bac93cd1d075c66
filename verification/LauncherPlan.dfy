/** What the launcher decides before it touches any process: run options, build gate, injection policy. */
module LauncherPlan {
  import opened Optional

  datatype Options = Options(
    dll: Option<string>,
    attachPid: Option<nat>,
    attachExisting: bool,
    allstarEvents: Option<bool>,
    dryRun: bool,
    allowSecondInstance: bool)

  datatype BuildInfo = BuildInfo(ok: bool, timestamp: nat, sizeOfImage: nat)

  datatype Build = Build(timestamp: nat, sizeOfImage: nat, nativePatchesSupported: bool)

  /** What the launcher finds on the machine before it acts. */
  datatype Machine = Machine(
    gameFound: bool,
    existing: seq<nat>,
    build: BuildInfo,
    knownBuilds: seq<Build>,
    defaultInjection: bool,
    bundledDll: Option<string>,
    runtimePatchesFlag: bool,
    allstarEventsFlag: bool)

  predicate Supported(m: Machine) {
    m.build.ok && Build(m.build.timestamp, m.build.sizeOfImage, true) in m.knownBuilds
  }

  /** Options to go on with, or the exit code to stop with. */
  datatype Gate = Gate(options: Options, exit: Option<int>)

  function ApplyDefaultRunOptions(options: Options, isDefaultRun: bool, m: Machine): Gate {
    if !isDefaultRun then Gate(options, None)
    else if m.defaultInjection && m.bundledDll.None? then Gate(options, Some(7))
    else
      Gate(options.(
        dll := if m.defaultInjection then m.bundledDll else None,
        allstarEvents := Some(true),
        attachExisting := |m.existing| > 0), None)
  }

  function EvaluateBuildGate(options: Options, isDefaultRun: bool, m: Machine): Gate {
    if options.dll.None? || Supported(m) then Gate(options, None)
    else if options.dryRun then Gate(options, None)
    else if !isDefaultRun then Gate(options, Some(8))
    else
      Gate(options.(dll := None, attachExisting := false), if |m.existing| > 0 then Some(0) else None)
  }

  datatype Mode = NoInjection | AttachToExisting | LaunchThenWaitForMarkedSave | PresaveAllstarBootstrap

  datatype Decision = Decision(
    mode: Mode,
    shouldInject: bool,
    requiresSupportedBuild: bool,
    requiresRosterMarker: bool,
    allowsPresaveInjection: bool)

  function Decide(dll: Option<string>, supported: bool, attach: bool, bootstrap: bool): Decision {
    if dll.None? then Decision(NoInjection, false, false, false, false)
    else if !supported then Decision(NoInjection, false, true, false, false)
    else if attach then Decision(AttachToExisting, true, true, true, false)
    else if bootstrap then Decision(PresaveAllstarBootstrap, true, true, false, true)
    else Decision(LaunchThenWaitForMarkedSave, true, true, true, false)
  }

  datatype Plan = Plan(bootstrapRequested: bool, decision: Decision)

  predicate AttachRequested(options: Options) {
    options.attachPid.Some? || options.attachExisting
  }

  /** The all-star option, if given, is written to every flag of the feature before the flags are read. */
  function AfterOption(options: Options, stored: bool): bool {
    if options.allstarEvents.Some? then options.allstarEvents.value else stored
  }

  function BuildLaunchPlan(options: Options, m: Machine): Plan {
    var bootstrap :=
      options.dll.Some? && Supported(m)
      && AfterOption(options, m.runtimePatchesFlag) && AfterOption(options, m.allstarEventsFlag);
    Plan(bootstrap, Decide(options.dll, Supported(m), AttachRequested(options), bootstrap))
  }

  /** The steps from the command line to the plan: an exit code, or options and plan to run with. */
  datatype Prepared = Stop(exit: int) | Go(options: Options, plan: Plan)

  function Prepare(options: Options, isDefaultRun: bool, m: Machine): Prepared {
    if !m.gameFound then Stop(2)
    else
      var first := ApplyDefaultRunOptions(options, isDefaultRun, m);
      if first.exit.Some? then Stop(first.exit.value)
      else
        var gate := EvaluateBuildGate(first.options, isDefaultRun, m);
        if gate.exit.Some? then Stop(gate.exit.value)
        else Go(gate.options, BuildLaunchPlan(gate.options, m))
  }

  // ----- what the plan guarantees -----

  /** The options a run goes on with: a default run takes the bundled library, and attaches when the game is running. */
  lemma PreparedOptions(options: Options, isDefaultRun: bool, m: Machine)
    requires Prepare(options, isDefaultRun, m).Go?
    ensures var o := Prepare(options, isDefaultRun, m).options;
      && o.attachPid == options.attachPid && o.dryRun == options.dryRun
      && o.allowSecondInstance == options.allowSecondInstance
      && (!isDefaultRun ==> o == options)
      && (isDefaultRun ==>
            && o.allstarEvents == Some(true)
            && o.dll == (if m.defaultInjection && (Supported(m) || options.dryRun) then m.bundledDll else None)
            && (o.attachExisting <==> m.existing != []))
  {
  }

  ghost predicate Matches(known: Build, build: BuildInfo) {
    known.timestamp == build.timestamp && known.sizeOfImage == build.sizeOfImage && known.nativePatchesSupported
  }

  /** A build is supported when it was read and is known, with patches for it. */
  lemma SupportedMeans(m: Machine)
    ensures Supported(m) <==>
      m.build.ok && exists k :: 0 <= k < |m.knownBuilds| && Matches(m.knownBuilds[k], m.build)
  {
    var wanted := Build(m.build.timestamp, m.build.sizeOfImage, true);
    if wanted in m.knownBuilds {
      var k :| 0 <= k < |m.knownBuilds| && m.knownBuilds[k] == wanted;
    }
    if k :| 0 <= k < |m.knownBuilds| && m.knownBuilds[k] == wanted {
      assert wanted in m.knownBuilds;
    }
  }

  /** When injection before a marked save is planned; a default run that launches the game always plans it. */
  lemma PresaveExactly(options: Options, isDefaultRun: bool, m: Machine)
    requires Prepare(options, isDefaultRun, m).Go?
    ensures var p := Prepare(options, isDefaultRun, m);
      && (p.plan.decision.allowsPresaveInjection <==>
            && p.options.dll.Some? && Supported(m) && !AttachRequested(p.options)
            && if p.options.allstarEvents.Some? then p.options.allstarEvents.value
               else m.runtimePatchesFlag && m.allstarEventsFlag)
      && (isDefaultRun && m.existing == [] && options.attachPid.None? ==>
            (p.plan.decision.allowsPresaveInjection <==> m.defaultInjection && Supported(m)))
  {
  }

  /** A run that is not dry goes on with a library to inject exactly when the build supports it. */
  lemma GoesOnSupported(options: Options, isDefaultRun: bool, m: Machine)
    requires Prepare(options, isDefaultRun, m).Go?
    ensures var p := Prepare(options, isDefaultRun, m);
      && p.options.dryRun == options.dryRun
      && (p.options.dll.Some? && !p.options.dryRun ==> Supported(m))
      && (p.plan.decision.shouldInject <==> p.options.dll.Some? && Supported(m))
      && (isDefaultRun && !Supported(m) && !options.dryRun ==> p.options.dll.None?)
      && (isDefaultRun && !Supported(m) && !options.dryRun && m.defaultInjection ==>
            !p.options.attachExisting && m.existing == [])
  {
  }

  /**
   The early injector obeys the bootstrap flag and the main loop obeys the policy's decision: in a launch
   run the two agree, and in an attach run the decision never allows injection before a marked save.
   */
  lemma FlagAgreesWithPolicy(options: Options, m: Machine)
    ensures var plan := BuildLaunchPlan(options, m);
      && (!AttachRequested(options) ==> (plan.decision.allowsPresaveInjection <==> plan.bootstrapRequested))
      && (AttachRequested(options) ==> !plan.decision.allowsPresaveInjection)
      && (plan.decision.shouldInject <==> plan.decision.requiresRosterMarker || plan.decision.allowsPresaveInjection)
      && !(plan.decision.requiresRosterMarker && plan.decision.allowsPresaveInjection)
      && (plan.bootstrapRequested ==> Supported(m))
  {
  }

  /** When a run stops before it acts, and with which code. */
  lemma StopsExactly(options: Options, isDefaultRun: bool, m: Machine)
    ensures var p := Prepare(options, isDefaultRun, m);
      && (p == Stop(2) <==> !m.gameFound)
      && (p == Stop(7) <==> m.gameFound && isDefaultRun && m.defaultInjection && m.bundledDll.None?)
      && (p == Stop(8) <==> m.gameFound && !isDefaultRun && options.dll.Some? && !Supported(m) && !options.dryRun)
      && (p == Stop(0) <==>
            && m.gameFound && isDefaultRun && m.defaultInjection && m.bundledDll.Some?
            && !Supported(m) && !options.dryRun && |m.existing| > 0)
      && (p.Stop? ==> p.exit in {0, 2, 7, 8})
  {
  }
}
