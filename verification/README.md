# Verified model of the KBO mod's hard parts

This project models the parts of the KBO mod for OOTP Baseball that carry the most logic, and proves what they
promise. It is written in Dafny 4.11; `dafny verify dfyconfig.toml` checks all of it.

## What is modelled

**The amateur assignment** places a batch of players on school teams. `Targets` and `IncomingTargets` hand out seat
targets: a repair of minimum fills, a greedy fill by rank for existing batches, and a highest-averages apportionment
for incoming ones. `RoleBuckets` and `RoleSplit` split each target into role capacities. `TierScreen` states what the
tier screen decides, on top of a Hall-type theorem for shipments in `Transport` and `Placement`; `TierScreenRun` is the
screen with its counters and bit masks. `FlexibleFlow`, `RoleFlow` and `PlayerSide` are the two min-cost-flow networks,
and `FlexibleSolve`, `RoleSolve` and `Decoding` build them, ask the solver and read its flow back. `FlexibleTheorems`
joins the stages.

**The service-time guard** (`ServiceTimeGuard`, `ServiceTimeGuardRun`, `ServiceTimeRuns`) keeps the service time of
players on protected teams from rising, with a bounded record table and scans that can be cut short.

**The readable-region cache** (`RegionCache`) and **the one-shot initialiser** (`OneShotInit`) are the caching and the
concurrency of the native runtime.

**The launcher** (`LauncherPlan`, `LauncherRun`) decides whether and when a process may be injected.

**Free-agent compensation** (`FaCompensation`) selects the protected players, and **the settings migration**
(`SettingsMigration`) moves settings from one file to another across crashes.

`Sums`, `Ordering`, `Masks`, `Network`, `AmateurData`, `TeamTables` and `Optional` hold the shared vocabulary.

## How the source is represented

- The team dictionary is a table with one column per collected team, in insertion order; what the loops change in place
  are fields of classes (`TeamTable`, `BucketTable`, `HitterSplit`, `Guard`, `Cache`, `World`, `PresaveEarlyInjector`,
  `Files`). Each method is specified by functions of the old state, and the theorems are about those functions.
- Sorting is the stable order of lexicographic keys, and `max` is the first greatest element, as in Python.
- Node numbers of a network are replaced by what the node stands for, since the program never reuses a number.
- The solvers are parameters. A flow solver returns an integral optimal flow, an integral feasible one, or reports
  infeasibility truthfully; the selection solver returns an optimum, some selection, or nothing.
- The slot decay is any function whose 20th power is the 23rd power of the slot, which is the exponent 1.15.
- A run of the launcher is a trace of what it does and of every answer it gets, in a world that answers as it likes.
  Its clock never runs backwards, and a marker check takes at least one millisecond; without that the wait could turn
  forever at the very instant of its deadline, where the program no longer sleeps.
- Callers of the initialiser interleave at single field accesses, in any order of fields, on sequentially consistent
  memory.
- Preconditions that are not checks of the program are facts its input has: rows name each team with one tier, a
  player has one position bucket, collected teams have distinct ids, a team's capacity and role counts are not
  negative, and no migrated key ends in `.txt`.
- A hand-written settings or flag file is its list of properties, each with its normalised key and the form it is typed
  in; a file written by the program is a dictionary, whose names are normalised once more when it is read.

## What the proofs found

- The tier screen counts minimum fills that the solver would clamp. A fill above the capacity can reject a batch that
  could be placed, and incoming batches produce such fills (`FlexibleTheorems.UnclampedFillRejects`). The screen agrees
  with the solver exactly when every set of tiers has enough players within reach of its unclamped fills
  (`TierScreen.ScreenAgainstClamped`), and so whenever the fills are within the capacities (`TierScreen.ScreenExact`).
- The detailed attempt returns an empty result, not a failure, when no row is usable, and the ladder accepts it
  (`RoleSolve.SolveTable`, `RoleSolve.EmptyResultHappens`).
- The protection objective is lexicographic for any number of roles, not only for as many as the bonus of 25 suggests:
  improving the score by a point costs at most one role per exchanged player (`FaCompensation.ObjectiveIsLexicographic`).
- The settings migration can change a lookup in four ways: the settings hold a migrated key in an unreadable form while
  the flags hold it readably (`SettingsMigration.UnreadableSettingLosesFlag`); a hand-written file spells a key twice
  (`SettingsMigration.RepeatedSpellingChanges`); it repeats a name exactly, which empties the dictionary and loses every
  setting (`SettingsMigration.RepeatedNameLosesSetting`); or a name ends in `.txt` twice
  (`SettingsMigration.DoubledSuffixRunsTwice`). `SettingsMigration.LookupAfterMigration` gives the answer for all files.
- For the same reason a second migration is not always idle: each rewrite strips one `.txt` from a name that still has
  one, and a flag can come to life that way (`SettingsMigration.SecondRunIsIdle`).
- A region in the readable-region cache comes back to life for 100 ticks every 2^32 ticks
  (`RegionCache.CoversExactly`); while the memory does not change this is harmless.
- A default run that launches the game plans injection before a marked save whenever it injects at all, because it
  switches on every flag of the all-star feature first (`LauncherRun.RunParsed`). The marker check before
  injection therefore guards attach runs and launches with explicit options.

## Model

| member | source | states |
|---|---|---|
| TierScreen.ScreenIsTwoSided | tools/kbo_optimizer_lib/amateur_batch.py:100-130 | for every input, the subset tests over tiers hold exactly when both Hall conditions hold over individual players and teams: every set of players finds capacity within the gap, every set of teams finds players for its minimum fills |
| TierScreen.ScreenExact | tools/kbo_optimizer_lib/amateur_batch.py:58-131 | when no minimum fill exceeds its capacity, passing the screen is equivalent to the existence of a placement of all players within the gap, at least the minimum fill and at most the capacity at every team |
| TierScreen.ScreenSound | tools/kbo_optimizer_lib/amateur_batch.py:88-131 | for every input, a passed screen leaves a placement possible under the fills the solver uses, which are clamped to the capacity |
| TierScreen.RejectionIsFinal | tools/kbo_optimizer_lib/amateur_batch.py:97-130 | whenever a placement with the unclamped fills exists on rows inside the gap, the screen passes; so a rejection never hides such a placement |
| TierScreen.ScreenAgainstClamped | tools/kbo_optimizer_lib/amateur_batch.py:58-131 | for every input, the screen passes exactly when the clamped problem of the solver has a placement and the second loop finds the unclamped fills of every set of team tiers within reach of enough players |
| FlexibleTheorems.UnclampedFillRejects | tools/kbo_optimizer_lib/amateur_batch.py:88-130 | a wrong rejection that can happen: fifteen incoming players and three empty teams, whose repaired fills are 15, 0 and 0 under a cap of 14; with fourteen players at the tier of the first team the screen rejects what the clamped problem can place |
| Transport.HallImpliesShipment | tools/kbo_optimizer_lib/amateur_batch.py:101-113 | the subset condition is enough: if no set of rows exceeds the capacity of its neighbours, an integral shipment of all rows within the capacities exists |
| Transport.ShipmentImpliesHall | tools/kbo_optimizer_lib/amateur_batch.py:101-113 | the subset condition is necessary for any shipment |
| Transport.JoinBounds | tools/kbo_optimizer_lib/amateur_batch.py:115-130 | a shipment within the capacities and a shipment reaching the minima can be joined into one shipment that does both |
| Transport.FeasibleIffHall | tools/kbo_optimizer_lib/amateur_batch.py:97-131 | a shipment between minima and capacities exists exactly when the subset conditions hold on both sides |
| Placement.PlacementIffHall | tools/kbo_optimizer_lib/amateur_batch.py:97-131 | the same for placements of individual players, one team each |
| TierScreenRun.CountPlayerTiers | tools/kbo_optimizer_lib/amateur_batch.py:62-71 | the counter holds, for each tier, exactly the players whose first row has it; the loop gives up exactly when some player tier is unknown |
| TierScreenRun.ResolveTeamTiers | tools/kbo_optimizer_lib/amateur_batch.py:73-95 | every collected team gets the tier of the first acceptable row that names it; the loop gives up exactly when some team stays without a known tier |
| TierScreenRun.CountTeamTiers | tools/kbo_optimizer_lib/amateur_batch.py:84-88 | each tier is credited with the total of its teams that have capacity |
| TierScreenRun.Reachable | tools/kbo_optimizer_lib/amateur_batch.py:108-111 | the inner loop returns the total weight of all individuals within the gap of the selected tiers |
| TierScreenRun.SubsetsFit | tools/kbo_optimizer_lib/amateur_batch.py:100-113 | the bit-mask loop answers yes exactly when every set of tiers fits into its reach, for sets of tiers of any kind and not only those a mask can select |
| TierScreenRun.TierCapacityFeasible | tools/kbo_optimizer_lib/amateur_batch.py:58-131 | the screen as a whole returns false exactly when it can decide and one of the subset conditions fails |
| TierScreenRun.UndecidedMeans | tools/kbo_optimizer_lib/amateur_batch.py:62-95 | the screen lets a batch through unseen exactly without a gap, without rows, or when the first row of a player, or the first acceptable row of a team, has no readable tier |
| TierScreenRun.TierOverflow | tools/kbo_optimizer_lib/amateur_batch.py:100-113 | told by rows: more players at one tier than places at the teams within the gap are rejected |
| TierScreenRun.FillOverflow | tools/kbo_optimizer_lib/amateur_batch.py:115-130 | told by rows: minimum fills at one tier that ask for more players than there are within the gap are rejected |
| FlexibleFlow.AssignmentIsFlow | tools/kbo_optimizer_lib/amateur_batch.py:216-273 | every assignment of all players to usable rows with every team between clamped minimum fill and capacity is a feasible flow, of cost minus its weight |
| FlexibleFlow.FlowIsAssignment | tools/kbo_optimizer_lib/amateur_batch.py:216-273 | every integral flow that meets the supplies is the flow of exactly such an assignment |
| FlexibleFlow.EncodeInjective | tools/kbo_optimizer_lib/amateur_batch.py:231-265 | different assignments have different flows |
| FlexibleFlow.OptimalFlowIsBest | tools/kbo_optimizer_lib/amateur_batch.py:260-281 | an optimal flow is the flow of an assignment of greatest total weight among all that respect the quotas |
| FlexibleSolve.BuildTeams | tools/kbo_optimizer_lib/amateur_batch.py:216-229 | the arcs and supplies built for the teams are those of the network, and the loop gives up only when the clamped fills need more players than there are |
| FlexibleSolve.Build | tools/kbo_optimizer_lib/amateur_batch.py:209-273 | the finished arc list and supplies are the network; nothing is built only when no assignment can respect the quotas |
| FlexibleSolve.DecodeEncode | tools/kbo_optimizer_lib/amateur_batch.py:278-282 | decoding the flow of an assignment yields exactly that assignment |
| FlexibleSolve.QuotasMean | tools/kbo_optimizer_lib/amateur_batch.py:216-265 | the assignments of the network are exactly those that take for every player a row that is not rejected, names a team with capacity and stays within the gap, and that keep every team between its fill and its capacity under the cap in use |
| FlexibleSolve.SolveFlexible | tools/kbo_optimizer_lib/amateur_batch.py:164-282 | a result comes from such an assignment, of greatest weight if the solver optimises: every entry is an admitted row of its player, everyone is listed, and head counts lie between fill and capacity; no result means that the screen rejected or that no such assignment exists |
| Decoding.BuildPlayers | tools/kbo_optimizer_lib/amateur_batch.py:231-265 | the player arcs built row by row are the arcs of the usable rows, each remembering its player and row |
| Decoding.Decode | tools/kbo_optimizer_lib/amateur_batch.py:278-282 | the decoded dictionary lists the players whose placing arc carries flow, at the team of that row |
| Decoding.ResultPlacesEveryone | tools/kbo_optimizer_lib/amateur_batch.py:278-282 | with distinct player ids a decoded choice lists every player of the batch, at the team of its own row |
| PlayerSide.ReadPlayers | tools/kbo_optimizer_lib/amateur_batch.py:231-265 | a flow that balances at the source and at every player is the flow of one usable row per player |
| PlayerSide.ChoiceFlowBalance | tools/kbo_optimizer_lib/amateur_batch.py:231-265 | the flow of a choice sends one unit per player and enters each team node as often as the choice visits it, at minus the chosen weight |
| FlexibleTheorems.PlaceablePasses | tools/kbo_optimizer_lib/amateur_batch.py:58-131 | with constant tiers, a batch that can be assigned within the gap passes the screen exactly when its unclamped fills are within reach of enough players |
| FlexibleTheorems.NoFalseAlarm | tools/kbo_optimizer_lib/amateur_batch.py:58-131 | with constant tiers and no fill above its capacity, a batch that can be assigned within the gap passes the screen |
| FlexibleTheorems.PassedIsPlaceable | tools/kbo_optimizer_lib/amateur_batch.py:58-131 | if every player has an acceptable row for every team within the gap, passing the screen is enough for a quota-respecting assignment |
| FlexibleTheorems.RelaxedIsPlaceable | tools/kbo_optimizer_lib/amateur_batch.py:216-273 | without a tier gap and with complete rows, an assignment exists whenever the clamped fills sum to at most the players and the capacities to at least |
| FlexibleTheorems.PrepareContext | tools/kbo_optimizer_lib/amateur_batch.py:133-162 | the teams of a context keep their facts and get the repaired fills; a roster batch keeps the capacities of its teams exactly when their open places cover it, and every other batch uses 2.65 times the average, rounded up, for all teams; an empty batch has no teams, and with any team at all there is room for everyone |
| FlexibleTheorems.RelaxedAttemptFeasible | tools/kbo_optimizer_lib/amateur_batch.py:488-501 | the fully relaxed attempt on a prepared context has a solution whenever rows are complete |
| FlexibleTheorems.FlexibleLadder | tools/kbo_optimizer_lib/amateur_batch.py:488-501 | a result is that of the first attempt that can have one, in the order gap 1, gap 2, any gap, each under its own label: every entry is a row within that gap, head counts respect the teams, and every earlier attempt was rejected by the screen or had no such assignment; without a result all attempts fail so; if some context has complete rows there is a result |
| Targets.MakeMinFillsFeasible | tools/kbo_optimizer_lib/amateur_targets.py:61-88 | fills that fit are untouched; otherwise they are handed out in order of need to exactly the number of players, none raised, and the second loop never changes anything |
| Targets.NeediestKeepFills | tools/kbo_optimizer_lib/amateur_targets.py:66-81 | told by the facts of the teams: while a team with fewer players, hitters or pitchers, a greater fill or a smaller id is below its fill, a team behind it keeps none |
| Targets.RepairSettles | tools/kbo_optimizer_lib/amateur_targets.py:61-88 | repair only lowers fills, brings their positive total to the smaller of players and former total, and does nothing the second time |
| Targets.HandedOutUnique | tools/kbo_optimizer_lib/amateur_targets.py:67-82 | the order of need and the total determine the repaired fills |
| Targets.SpreadRemaining | tools/kbo_optimizer_lib/amateur_targets.py:82-88 | the second loop with players left would raise fills within capacity only; with none left it changes nothing |
| Targets.FillByRank | tools/kbo_optimizer_lib/amateur_targets.py:217-232 | teams are filled in rank order: a team exceeds its fill only if every better-ranked team is full, and players are left over exactly when capacity is short |
| Targets.AllocateExistingTargets | tools/kbo_optimizer_lib/amateur_targets.py:195-234 | success exactly when there is a team and total capacity covers the players; then targets sum to the players, lie between fill and capacity, and while a team of better percentile, reputation or greater id has room, a team behind it has no more than its fill |
| IncomingTargets.CapsCoverBatch | tools/kbo_optimizer_lib/amateur_batch.py:43-45 | 2.65 times the average, rounded up, times the number of teams is at least the batch |
| IncomingTargets.CapIsRounded | tools/kbo_optimizer_lib/amateur_batch.py:43-45 | for a batch and a table that are not empty the cap is 2.65 times the average, rounded up |
| IncomingTargets.SeatScoresFall | tools/kbo_optimizer_lib/amateur_targets.py:175-180 | with the slot exponent 1.15, no further seat of a team scores higher than an earlier one |
| IncomingTargets.WeightRises | tools/kbo_optimizer_lib/amateur_targets.py:29-35 | the reputation weight is 0.03 at percentile 0, 1.03 at percentile 1, and strictly rising in between |
| IncomingTargets.PercentileIs | tools/kbo_optimizer_lib/amateur_targets.py:29-31 | every penalty stage lowers the percentile by one part in the number of teams, within 0 and 1 |
| IncomingTargets.BetterSchoolsFirst | tools/kbo_optimizer_lib/amateur_targets.py:172-192 | a school that is no worse and has room is never more than one seat behind a school with a seat above its minimum; one of strictly greater effective percentile is not behind at all |
| IncomingTargets.NextTeam | tools/kbo_optimizer_lib/amateur_targets.py:172-190 | the chosen team is below the cap and its next seat scores highest among all teams below the cap; ties go to the better percentile, the better reputation, the fewer seats and the greater id |
| IncomingTargets.SeatStep | tools/kbo_optimizer_lib/amateur_targets.py:172-192 | giving the highest-scoring seat keeps the hand-out stable |
| IncomingTargets.RoomLeft | tools/kbo_optimizer_lib/amateur_targets.py:187-188 | while seats are left some team is below the cap, so the empty-candidates failure never happens |
| IncomingTargets.HandOutSeats | tools/kbo_optimizer_lib/amateur_targets.py:172-192 | the seat loop ends with all seats given within base and cap and highest-averages stable |
| IncomingTargets.StableIsOptimal | tools/kbo_optimizer_lib/amateur_targets.py:172-192 | a stable hand-out has the greatest total score among all hand-outs of the same seats within the same bounds |
| IncomingTargets.AllocateIncomingTargets | tools/kbo_optimizer_lib/amateur_targets.py:144-193 | for every non-empty team set and batch size the allocation succeeds; targets sum to the players, lie between repaired fill and cap, are highest-averages stable, and favour better schools as told by percentiles and penalty stages |
| RoleBuckets.BucketTable.GiveSeat | tools/kbo_optimizer_lib/amateur_role_capacities.py:108-110 | one seat moves from the open slots and the open role count into the table, keeping both margins |
| RoleBuckets.BucketTable.WorstTeam | tools/kbo_optimizer_lib/amateur_role_capacities.py:80-98 | the candidate list is empty exactly when no team with an open slot is below its floor; otherwise the chosen team has the worst deficit, ties going to fewer players, the better percentile, the better reputation and the greater id |
| RoleBuckets.FloorDeficitIs | tools/kbo_optimizer_lib/amateur_role_capacities.py:47-60 | what a team lacks to its floor of pitchers, or of hitters, with the seats of the table counted |
| RoleBuckets.BucketTable.SeedOne | tools/kbo_optimizer_lib/amateur_role_capacities.py:99-111 | a floor seat goes to the open bucket of the group with the most players left over those the team has already |
| RoleBuckets.FairStep | tools/kbo_optimizer_lib/amateur_role_capacities.py:79-111 | serving the worst deficit keeps every served team within one seat of the worst team still waiting |
| RoleBuckets.BucketTable.SeedFloors | tools/kbo_optimizer_lib/amateur_role_capacities.py:62-111 | a seeding pass keeps the margins, stays levelled, touches its own role group only, and ends with the group used up or nobody left below the floor with an open slot |
| RoleBuckets.BucketTable.PlaceOne | tools/kbo_optimizer_lib/amateur_role_capacities.py:153-171 | a seat of a bucket goes to the team with an open slot whose need for that bucket is greatest |
| RoleBuckets.SlotForLeftPlayer | tools/kbo_optimizer_lib/amateur_role_capacities.py:152-159 | while a player of some bucket is left and targets sum to the role counts, some team has an open slot, so the loop never fails |
| RoleBuckets.BucketTable.PlaceAll | tools/kbo_optimizer_lib/amateur_role_capacities.py:141-171 | the main loop places every remaining player when targets sum to the role counts; in the finished table every seat of a bucket went to a team that needed it at least as much as any team with a slot open after the pass of that bucket |
| RoleBuckets.BucketOrder | tools/kbo_optimizer_lib/amateur_role_capacities.py:141-147 | the scarcer bucket is placed first, on a tie in bucket order, and pitchers last |
| RoleBuckets.RoleNeedIs | tools/kbo_optimizer_lib/amateur_role_capacities.py:32-38 | need is what the team lacks to its share of the bucket, as a part of its final size |
| RoleBuckets.MarginsAgree | tools/kbo_optimizer_lib/amateur_role_capacities.py:130-173 | open slots and open role counts always have the same total |
| RoleBuckets.PreparePositionBuckets | tools/kbo_optimizer_lib/amateur_role_capacities.py:113-173 | success exactly when the role counts have a positive total equal to the targets; then each team row sums to its target and each role column to its players, and the table comes from levelled pitcher floors, levelled hitter floors, and all buckets by need, in this order |
| RoleSplit.RoleBounds | tools/kbo_optimizer_lib/amateur_role_capacities.py:7-23 | per-team bounds satisfy 0 <= minimum <= maximum <= target |
| RoleSplit.RoleBoundsMean | tools/kbo_optimizer_lib/amateur_role_capacities.py:7-23 | told by the finished team: the minimum asks for the whole hitters of the lower share and never more, the maximum allows the upper share rounded up, both as far as the target goes |
| RoleSplit.NeedPriorityIs | tools/kbo_optimizer_lib/amateur_role_capacities.py:25-30 | need is what the present hitters lack to the share, as a part of the final size |
| RoleSplit.ToleranceWidens | tools/kbo_optimizer_lib/amateur_role_capacities.py:7-23 | a larger tolerance never raises the minimum and never lowers the maximum |
| RoleSplit.ShrinkMinimums | tools/kbo_optimizer_lib/amateur_role_capacities.py:234-249 | excess minimum hitters are given up one by one in ascending priority until exactly the hitters remain |
| RoleSplit.GrowMaximums | tools/kbo_optimizer_lib/amateur_role_capacities.py:251-267 | missing maximum hitters are added one by one in descending priority up to the targets |
| RoleSplit.RepairedRangeHolds | tools/kbo_optimizer_lib/amateur_role_capacities.py:234-279 | after both repairs 0 <= minimum <= maximum <= target holds, the minimums fit the hitters, the maximums reach them exactly when the targets do, and at most one of the repairs changed anything |
| RoleSplit.PrepareExistingSplit | tools/kbo_optimizer_lib/amateur_role_capacities.py:208-286 | the existing-batch split succeeds exactly when the hitters are at most the sum of the targets; the capacities are the maximums and the targets minus the minimums |
| RoleSplit.FirstToGiveUp | tools/kbo_optimizer_lib/amateur_role_capacities.py:234-249 | the team of smaller need, then of worse percentile, then of smaller id, is down to no required hitters before the next gives up any |
| RoleSplit.FirstToTake | tools/kbo_optimizer_lib/amateur_role_capacities.py:251-267 | the team of greater need, then of better percentile, then of smaller id, is full before the next takes a further hitter |
| RoleSplit.SplitExists | tools/kbo_optimizer_lib/amateur_role_capacities.py:280-286 | the capacities leave room for a split of every team into hitters and pitchers that adds up to the hitters of the batch |
| RoleSplit.SpreadRound | tools/kbo_optimizer_lib/amateur_role_capacities.py:196-203 | one round gives a hitter to each team with room, in priority order, and keeps the water-fill shape |
| RoleSplit.SpreadIncomingHitters | tools/kbo_optimizer_lib/amateur_role_capacities.py:175-206 | the round robin succeeds exactly when the hitters fit the targets and leaves every team at the smaller of its target and a common level, with one more for the teams served first |
| RoleSplit.SpreadOrder | tools/kbo_optimizer_lib/amateur_role_capacities.py:179-189 | teams are served in the order of need, then percentile, then reputation, each the greater first |
| RoleSplit.WaterIsFair | tools/kbo_optimizer_lib/amateur_role_capacities.py:194-205 | no team with room is more than one hitter behind any other, and earlier teams are never behind later ones |
| RoleSplit.WaterIsUnique | tools/kbo_optimizer_lib/amateur_role_capacities.py:194-205 | the order and the number of hitters determine the result |
| RoleFlow.SeatsAreFull | tools/kbo_optimizer_lib/amateur_batch.py:401-461 | supplies equal to the targets leave no slack: every role-to-team and team-to-sink arc is saturated by any flow |
| RoleFlow.FlowFillsTable | tools/kbo_optimizer_lib/amateur_batch.py:401-461 | every flow that meets the supplies is the flow of an assignment that gives each team exactly its capacity of each role |
| RoleFlow.TableFillingIsFlow | tools/kbo_optimizer_lib/amateur_batch.py:401-461 | every assignment that fills the table exactly is a flow, of cost minus its weight |
| RoleFlow.OptimalFlowIsBest | tools/kbo_optimizer_lib/amateur_batch.py:453-469 | an optimal flow is the flow of a heaviest assignment that fills the table |
| RoleFlow.FillingMeetsTargets | tools/kbo_optimizer_lib/amateur_batch.py:401-418 | an assignment that fills the table gives each team exactly its target |
| RoleSolve.NeverShort | tools/kbo_optimizer_lib/amateur_batch.py:401-408 | with exact margins the check that role capacities reach the target never fires |
| RoleSolve.Build | tools/kbo_optimizer_lib/amateur_batch.py:401-460 | the arcs and supplies built are the network of the table; the flag for placing arcs is false exactly when no row of any player is usable |
| RoleSolve.SolveTable | tools/kbo_optimizer_lib/amateur_batch.py:456-469 | an attempt with no usable row returns an empty result; otherwise a result is a table-filling assignment, a heaviest one if the solver optimises, and no result means none exists |
| RoleSolve.EmptyResultHappens | tools/kbo_optimizer_lib/amateur_batch.py:425-457 | a batch with exact margins and no usable row exists: one player whose only row is beyond the gap; no assignment fills its table, and yet its attempt has a result |
| RoleSolve.FillsMeans | tools/kbo_optimizer_lib/amateur_batch.py:401-454 | the assignments of the network are exactly those that take for every player a row that is not rejected, within the gap, for a team with a seat of its bucket, and that fill the seats of every team and bucket exactly |
| RoleSolve.BucketCountIs | tools/kbo_optimizer_lib/amateur_batch.py:395-395 | the count of a bucket is the number of its players |
| RoleSolve.SolveDetailed | tools/kbo_optimizer_lib/amateur_batch.py:366-469 | the detailed attempt as a whole: the table has exact margins; the result is empty exactly when no row is open; any other result lists everyone at an open row and exactly the target at every team, of greatest weight if the solver optimises; no result means that no assignment fills the table |
| RoleSolve.DetailedResultIsComplete | tools/kbo_optimizer_lib/amateur_batch.py:465-469 | a non-empty result lists every player and gives every team exactly its target |
| ServiceTimeGuard.ScanKeeps | native/src/service_time_guard/service_time_guard.c:152-215 | a scan keeps ids unique, the table within capacity and every field but the service days, and writes no player whose teams are not protected |
| ServiceTimeGuard.ApplyRefinesMap | native/src/service_time_guard/service_time_guard.c:116-215 | the record table refines a finite map from player ids, full at 8192 entries: a visit updates it at the visited id and nowhere else |
| ServiceTimeGuard.MapSize | native/src/service_time_guard/service_time_guard.c:116-150 | the map has as many entries as the table, so no record is shadowed by another |
| ServiceTimeGuard.VisitSettles | native/src/service_time_guard/service_time_guard.c:152-215 | after a visit the player is settled: inactive if unprotected, standing at its baseline if recorded, else the table is full |
| ServiceTimeGuard.VisitRedates | native/src/service_time_guard/service_time_guard.c:191-206 | two dates of the same visit differ in the date of that record only |
| ServiceTimeGuard.ScanRedates | native/src/service_time_guard/service_time_guard.c:278-316 | scans at two dates leave equal memory and equal tables except for the dates of protected players |
| ServiceTimeGuard.RestartIsSafe | native/src/service_time_guard/service_time_guard.c:278-316 | a scan aborted after any number of players at any date, followed by a scan at least as long, leaves the memory and the table of that second scan alone, also when the table fills up |
| ServiceTimeGuard.RetriesAreSafe | native/src/service_time_guard/service_time_guard.c:325-361 | any series of aborted scans before a complete one has no further effect |
| ServiceTimeGuardRun.Guard.FindRecord | native/src/service_time_guard/service_time_guard.c:116-131 | the search over the record array returns the first slot holding the id, and nothing for id zero |
| ServiceTimeGuardRun.Guard.GetOrAddRecord | native/src/service_time_guard/service_time_guard.c:133-150 | an existing record is returned, a new one is appended, and a full table is left unchanged with the counter restored |
| ServiceTimeGuardRun.Guard.SetPlayerDays | native/src/service_time_guard/service_time_guard.c:57-70 | a readable player gets the days capped at sixteen bits and nothing else changes |
| ServiceTimeGuardRun.Guard.ApplyPlayer | native/src/service_time_guard/service_time_guard.c:152-215 | one visit is the step of the specification; it protects exactly a readable player with an id whose current or loan team is excluded, the current one first; it registers a baseline exactly at the start of a stint, lowers service time exactly when it reports a restoration and never raises it |
| ServiceTimeGuardRun.Guard.ScanPlayers | native/src/service_time_guard/service_time_guard.c:217-323 | a scan that cannot start visits nobody; a save at the start or at a look before every 128th player cuts it there, at the first such look; otherwise it visits everyone; which of the three happens is determined by what the scan finds |
| ServiceTimeGuardRun.Guard.ProcessWork | native/src/service_time_guard/service_time_guard.c:325-361 | work stays unprocessed exactly when a save cut its scan short |
| ServiceTimeGuardRun.Guard.ProcessPulses | native/src/service_time_guard/service_time_guard.c:374-385 | every attempt but the last was cut short by a save; if the last is complete, the state is that of one uninterrupted scan at its date |
| ServiceTimeRuns.RunHolds | native/src/service_time_guard/service_time_guard.c:152-215 | in every reachable state of any interleaving of game writes and scans, each record is active exactly while its player is in a protected stint, names that team, and holds the least value seen in the stint |
| ServiceTimeRuns.TickRestores | native/src/service_time_guard/service_time_guard.c:100-114 | after a tick a visited player on an excluded current or loan team, with a record, stands at the baseline, the least value seen in the stint; one without a record was left alone because the table is full |
| ServiceTimeRuns.ServiceTimeNeverRises | native/src/service_time_guard/service_time_guard.c:152-215 | within one stint at one team, what a later tick leaves is at most what an earlier tick left, whatever the game writes in between |
| ServiceTimeRuns.NeverListed | native/src/service_time_guard/service_time_guard.c:133-150 | a player who has no record at the end of a scan keeps its service time through that scan |
| RegionCache.UncachedExactly | native/src/runtime_memory/runtime_memory.c:78-111 | the query answers yes exactly when all pages of the range share the attributes of the first, which is committed, no guard page and of one of the six readable kinds, and the region does not reach the top of the address space |
| RegionCache.RunIsUniform | native/src/runtime_memory/runtime_memory.c:97-108 | all pages of a region report the same region end and attributes |
| RegionCache.LookupIsTransparent | native/src/runtime_memory/runtime_memory.c:49-111 | a call on a cache filled from the same memory gives the answer of the query, at any tick and after any slot collision, and keeps the cache sound |
| RegionCache.AnswersAreRecent | native/src/runtime_memory/runtime_memory.c:49-111 | in any history of a changing memory an answer is that of the query now, or the positive answer of the query in the memory of an earlier call at most 100 ticks back on the 32-bit clock |
| RegionCache.HistoryIsTransparent | native/src/runtime_memory/runtime_memory.c:49-111 | in an unchanging memory every call of every history gets the answer of the query |
| RegionCache.CoversExactly | native/src/runtime_memory/runtime_memory.c:52-61 | a stored region answers exactly while its age modulo 2^32 is at most 100 and it was not stored at clock zero |
| RegionCache.Cache.FindHit | native/src/runtime_memory/runtime_memory.c:49-64 | the slot loop returns whether some slot covers the range |
| RegionCache.Cache.Store | native/src/runtime_memory/runtime_memory.c:66-76 | the slot of the page number is overwritten, and only for a region that does not wrap |
| RegionCache.Cache.RangeReadable | native/src/runtime_memory/runtime_memory.c:78-111 | the call on the slot array is the step of the specification and agrees with the query on a sound cache |
| OneShotInit.StepSafe | native/src/build_verify/build_verify.c:51-70 | every atomic step of any caller keeps the invariant: one owner while the flag is 1, fields written so far equal to the value read, copies equal to the published struct |
| OneShotInit.StepMonotone | native/src/build_verify/build_verify.c:56-69 | the flag moves up by at most one, never back, and a published struct is never written |
| OneShotInit.HeadersReadOnce | native/src/build_verify/build_verify.c:60-64 | in every run of any number of callers the headers are read at most once and at most one caller owns the struct |
| OneShotInit.EveryCallerAgrees | native/src/build_verify/build_verify.c:51-70 | all callers that ever return in a run return the same struct, equal in every field to the single header read |
| OneShotInit.RunIsBounded | native/src/build_verify/build_verify.c:66-68 | in every run at most twelve steps per caller change anything; the rest spin |
| OneShotInit.NeverStuck | native/src/build_verify/build_verify.c:66-68 | as long as some caller has not returned, some caller has a step that changes the state |
| LauncherRun.EveryInjectionIsAuthorised | src/KBOLauncher/Application/LauncherLaunchFlow.cs:78-170 | in a lawful run each injection is on a supported build and not dry, and without the bootstrap it follows a successful marker check of the same process with no later check in between |
| LauncherRun.EarlyNeverRepeats | src/KBOLauncher/Application/LauncherLaunchFlow.cs:308-341 | after a successful early injection the early injector never injects that process again |
| LauncherRun.HarmlessRuns | src/KBOLauncher/Application/LauncherLaunchFlow.cs:22-27 | a dry run only looks, and a run on an unsupported build never injects |
| LauncherRun.Pick | src/KBOLauncher/Infrastructure/InjectionTargetResolver.cs:28-30 | the launched process if it is listed, else the first that started no earlier than five seconds before the launch, else the first |
| LauncherRun.InjectDllWithShortRetry | src/KBOLauncher/Application/LauncherLaunchFlow.cs:257-290 | at most five attempts on the one process, half a second apart; only a retryable failure is followed by another attempt, and it stays unrepaired only after the fifth |
| LauncherRun.PresaveEarlyInjector.TryInject | src/KBOLauncher/Application/LauncherLaunchFlow.cs:308-341 | the early injector keeps the run lawful and does nothing without the bootstrap; with it, it tries to inject unless the process is gone, done before or has the library, or no copy can be made; it remembers exactly its successes |
| LauncherRun.WaitForStableProcess | src/KBOLauncher/Infrastructure/InjectionTargetResolver.cs:6-61 | a process it returns was picked from a listing, offered to the early injector and found to outlive the stability sleep; it gives up no earlier than its timeout, and without the bootstrap nothing is injected meanwhile |
| LauncherRun.WaitForMarkedSave | src/KBOLauncher/Infrastructure/InjectionRosterMarkerWaiter.cs:7-65 | checks the process until the first good or final answer, or until the time is over, at most once in two seconds and two more times; what it returns is the last recorded check |
| LauncherRun.TryResolveReplacement | src/KBOLauncher/Application/LauncherLaunchFlow.cs:194-240 | a replacement is sought only after the process was lost and with time left; it comes from a successful search, and without one the search lasted 30 seconds or to the deadline |
| LauncherRun.InjectLaunchedProcess | src/KBOLauncher/Application/LauncherLaunchFlow.cs:78-170 | the launch loop ends after at most 600 replacements and keeps the run lawful; with exit 0 the library is in the target, found there or injected by the last event, right after a good marker check, or before the check under the bootstrap; with exit 9 the target has no marked save and without the bootstrap nothing is injected |
| LauncherRun.RunLaunchFlow | src/KBOLauncher/Application/LauncherLaunchFlow.cs:15-49 | a dry run and a blocked second instance do nothing; every other run starts the game or fails to; without a library that is all, and with one exit 0 means that the library is in a process with a marked save |
| LauncherRun.RunAttachFlow | src/KBOLauncher/Application/LauncherAttachFlow.cs:12-69 | an attach run never starts the game and stays lawful; it checks the named or single process; exit 9 means exactly a failed check, exit 0 of a run that is not dry that the library is in that process, found there or injected; 5 and 6 mean exactly a missing library and no single target |
| LauncherRun.RunParsed | src/KBOLauncher/Application/LauncherApp.cs:54-96 | every run is lawful for its build, its dry-run flag and its plan; it may inject before a marked save exactly when it launches the game on a supported build with a library and the option, or else both stored flags, ask for it; a default launch may whenever it injects at all; the early exit codes come from exactly the inputs named; exit 0 of a run with a library that is not dry means that the library is in a process with a marked save |
| LauncherPlan.PreparedOptions | src/KBOLauncher/Application/LauncherRunSetup.cs:25-58 | a default run goes on with the bundled library if injection is on and the build supported, or dry, and attaches exactly when the game is running; any other run keeps its options |
| LauncherPlan.SupportedMeans | src/KBOLauncher/Infrastructure/OotpBuildGuard.cs:50-61 | a build is supported exactly when it was read and is known by timestamp and size, with patches for it |
| FaCompensation.ObjectiveIsLexicographic | tools/kbo_optimizer_lib/fa_compensation.py:28-40 | for every request and any number of roles, the optima of the weighted objective are exactly the selections of greatest total score that cover the most roles |
| FaCompensation.OptimalIsTop | tools/kbo_optimizer_lib/fa_compensation.py:34-40 | an optimum leaves out nobody who scores more than a selected player: the 25 per role can never outweigh a point of score |
| FaCompensation.TopIsGreatest | tools/kbo_optimizer_lib/fa_compensation.py:52-55 | a selection with no better outsider has the greatest total score of its size |
| FaCompensation.OptimalBeatsFallback | tools/kbo_optimizer_lib/fa_compensation.py:45-55 | an optimum has the same total score as sorting and cutting, and covers at least as many roles |
| FaCompensation.FallbackIsTop | tools/kbo_optimizer_lib/fa_compensation.py:51-55 | sorting and cutting selects the requested number, none outscored by an outsider |
| FaCompensation.SelectedIs | tools/kbo_optimizer_lib/fa_compensation.py:24-55 | whatever the solver answers, a selection of the requested size; with an optimum or no answer one of greatest total score, with an optimum one that covers the most roles at that score |
| FaCompensation.MostRequestedIs | tools/kbo_optimizer_lib/fa_compensation.py:22-23 | the count is the largest any row asks for |
| FaCompensation.ProtectCount | tools/kbo_optimizer_lib/fa_compensation.py:22-23 | the loop finds that count, between zero and the number of rows |
| FaCompensation.Rank | tools/kbo_optimizer_lib/fa_compensation.py:57-71 | ranks run from 1 to n with each row once; rows with the given ids come first by score and then id, the others after them by decision score, or score where there is none, then age and id |
| FaCompensation.NamedIs | tools/kbo_optimizer_lib/fa_compensation.py:20-20 | exactly the rows with a player id are ranked |
| FaCompensation.CutAtSelection | tools/kbo_optimizer_lib/fa_compensation.py:46-58 | with distinct players, protecting by id protects exactly the selected rows |
| FaCompensation.OptimizeFaCompensation | tools/kbo_optimizer_lib/fa_compensation.py:18-72 | the whole run writes such a ranking, and with distinct players protects exactly the selection, as many as requested |
| SettingsMigration.RerunConverges | src/KBOLauncher/Infrastructure/KboFlags.cs:87-127 | from before or between the two writes, a complete run ends with the same pair of files as an uninterrupted one; after its end exactly when no flag was migrated or none was a migrated key behind a suffix that is still there |
| SettingsMigration.SecondRunIsIdle | src/KBOLauncher/Infrastructure/KboFlags.cs:87-127 | a second run changes neither file, exactly under that condition |
| SettingsMigration.EntriesAfter | src/KBOLauncher/Infrastructure/KboFlags.cs:97-125 | for every pair of files and every key, what both files hold after the migration and where it comes from |
| SettingsMigration.SettingsKept | src/KBOLauncher/Infrastructure/KboFlags.cs:97-121 | every setting keeps its value, exactly when the settings are not written, or repeat no name and hold no suffixed key; when they do repeat a name, exactly when every setting is a migrated flag of the same value |
| SettingsMigration.FlagsKept | src/KBOLauncher/Infrastructure/KboFlags.cs:101-125 | every flag that is not migrated keeps its value, exactly when the flags are not written or hold no suffixed key |
| SettingsMigration.FlagsArrive | src/KBOLauncher/Infrastructure/KboFlags.cs:101-121 | every migrated flag has a setting afterwards: the one there was, or else the flag |
| SettingsMigration.LookupBetweenWrites | src/KBOLauncher/Infrastructure/KboFlags.cs:386-404 | for every pair of files, the answer of a lookup between the two writes, computed from the files before them, and that it is the old answer exactly when no setting was missing or the two readings answer alike |
| SettingsMigration.LookupAfterMigration | src/KBOLauncher/Infrastructure/KboFlags.cs:386-404 | for every pair of files, the answer of a lookup after both writes, computed from the files before them, and that it is the old answer exactly when no flag was migrated or the two pairs of readings answer alike |
| SettingsMigration.SteadyLookup | src/KBOLauncher/Infrastructure/KboFlags.cs:386-404 | for a key on which lookup and dictionary agree, nothing changes between the writes, and after them a lookup answers as before exactly unless the key is migrated, present in the settings in an unreadable form, and backed by a readable flag that clamps to something other than the default |
| SettingsMigration.UnreadableSettingLosesFlag | src/KBOLauncher/Infrastructure/KboFlags.cs:109-115 | a failing case in the concrete: an unreadable setting hides a flag of 18, and migration turns the answer into the default 1 |
| SettingsMigration.RepeatedSpellingChanges | src/KBOLauncher/Infrastructure/KboFlags.cs:274-277 | two spellings of one key: the lookup answered with the first, the migrated file holds the last |
| SettingsMigration.RepeatsMeans | src/KBOLauncher/Infrastructure/KboFlags.cs:251-284 | the dictionary reader gives up exactly when two properties at different places have the same name |
| SettingsMigration.RepeatedNameLosesSetting | src/KBOLauncher/Infrastructure/KboFlags.cs:259-284 | a name that the settings repeat exactly: the dictionary reader gives up and returns nothing, and the migration of any other key overwrites the file, so that a setting of 5 is gone |
| SettingsMigration.DoubledSuffixRunsTwice | src/KBOLauncher/Infrastructure/KboFlags.cs:490-496 | a flag name that ends in the suffix twice: the rewritten file holds it with one, so that a lookup now finds it and a second run migrates it |
| SettingsMigration.SpelledOnceIsSteady | src/KBOLauncher/Infrastructure/KboFlags.cs:406-445 | in a file that spells each key once, and in a saved file without suffixed keys, lookup and dictionary agree |
| SettingsMigration.MoveKeys | src/KBOLauncher/Infrastructure/KboFlags.cs:97-116 | the key loop computes the new dictionaries, and its two flags say exactly whether each changed |
| SettingsMigration.Files.Migrate | src/KBOLauncher/Infrastructure/KboFlags.cs:87-127 | a run that gets as far as it is let leaves the files at exactly that one of the three stages |

## Left out

- The solvers themselves (min-cost flow, CP-SAT), their time limits and worker counts.
- Floating point: shares, percentiles, scores and averages are reals, and rounding in `math.ceil` and `math.pow` is not modelled.
- Candidate weights, rank-fit scores, percentiles and draft penalties: a row carries an arbitrary integer weight, a team arbitrary facts.
- Collecting the team facts from rows (`_collect_batch_team_info`, `_team_min_fill`): the facts and minimum fills are inputs.
- The wiring of the "H" and "P" role nodes for batches without detailed buckets: only the capacities are modelled, and the flow theorem is for detailed buckets.
- `_solve_batch_min_cost_flow`, which no shown code calls.
- The order of the detailed attempts around the flexible ladder (`_solve_batch_final_assignment`): the detailed attempt and the flexible ladder are modelled separately.
- Role buckets outside the nine named ones, which the bucket code appends after them.
- Reading and writing of CSV and JSON text, logging, diagnostics, fonts and library staging.
- TierScreen.ScreenExact: needs every minimum fill within its capacity, because the screen does not clamp the fills; the statement for all fills is ScreenAgainstClamped.
- FlexibleTheorems.PassedIsPlaceable: needs an acceptable row of every player for every team within the gap, because the screen does not look at missing rows.
- ServiceTimeGuardRun.Guard.GetOrAddRecord: runs on one thread; the interlocked counter is an ordinary integer.
- The guard's reading of process memory, its logging and its scan statistics: a player is a record of the fields the guard reads, and whether it is readable is one of them.
- RegionCache.Cache.RangeReadable: the cache is per thread, so one instance is one thread's cache.
- OneShotInit.EveryCallerAgrees: for sequentially consistent memory; the parsing of the headers is an arbitrary value.
- The lookup tables of build offsets and supported builds: finite data.
- The launcher's probing of processes, files and save descriptions: every answer is arbitrary.
- LauncherRun.WaitForMarkedSave: which save descriptions count as marked is not modelled, only what follows from the answer.
- Settings files: a `flags` object inside a file the program has written, a drive prefix inside a name, and temporary files left by a crash.
- The 32-bit range of integer settings: a value outside it counts as unreadable.
