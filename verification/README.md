# Verification of the LAN access scheduler and its discovery service

LIAS decides which devices of a LAN may be online and when; DIS discovers the devices and
decides which records are the same device. This project models the state machines of both in
Dafny and proves what they keep. `dafny verify dfyconfig.toml` checks all of it.

- **Schedules** (`Schedule*.dfy`, `BundleAnswers.dfy`, `ConflictReport.dfy`, `NextStateChange.dfy`). Rules are compiled to segments of the
  week, swept for contradictions and merged; the merged schedule is interpreted at an instant;
  merged schedules are cached under a key that forgets the order of their ids. Compiler and
  interpreter are shown to agree on exactly the portable rules, the sweep to report exactly the
  contradictions, and the cached engine to answer like one without a cache over every run.
- **Policies** (`PolicyModel.dfy`, `PolicyEngine.dfy`, `PolicyAnswers.dfy`, `PolicyAgreement.dfy`,
  `PolicySwitch.dfy`). Two evaluators scan an unordered map; loops over it pick their
  next element arbitrarily or follow a given order. The condition under which the order is irrelevant, and the one under
  which both agree, are exact.
- **Firewall** (`Firewall*.dfy`, `Bits.dfy`). A builder mirrors desired sets into kernel sets by differences,
  through a controller that can fail; a chain of rules judges frames by these sets.
- **Identities** (`Redirects.dfy`, `DisIdentity.dfy`, `PolicyMigration.dfy`,
  `MigrationOrder.dfy`, `IdentityMigration.dfy`, `Coordinator.dfy`). DIS chains the redirects of merged devices, LIAS
  compresses its own; both are tied to one reference, the survivor of a history of merges. A
  migration moves every reference in one transaction.
- **Enrichment** (`Orchestrator*.dfy`). Callers, workers and a clean-up loop share a bounded queue, a
  map of pending work and a concurrent map of attempts; each lock section, each channel operation
  and each operation on the concurrent map is one step, and the theorems hold for every
  interleaving.
- **Inventory, parsers, events** (`Inventory.dfy`, `NetBios*.dfy`, `SseBroker.dfy`,
  `KeaLeases.dfy`). Indexes over shared mutable records, a bounded walk over compressed names, a
  ring of events, and an append-only lease log.

Time is a number of seconds since a Sunday midnight in UTC, and a time zone is a fixed offset.
Objects that the program updates in place are classes whose methods are proved against
specification functions or predicates; where a step is too large for one proof, a part of a loop
body or of a locked section is a method of its own, named after it in a comment.

## What the proofs found

- A rule with identical clock texts is a full day to the interpreter and nothing to the
  projection; a long day name is known to the projection only (`AgreementIffPortable`,
  `FullDayRulesMakeOrderMatter`). The handlers refuse the former (`apps/lias/internal/api/handlers.go:1590`).
- A bar in schedule ids makes the report mistake one clash for another (`BarHidesClash`); a plus
  sign makes the cache answer one bundle with the composite of another (`PlusGivesWrongAnswer`), and
  when it can do so is exact (`CacheAnswersFreshIff`). Two schedules
  with one id would hide their contradictions (`SharedIdHidesContradiction`), which no caller can
  pass: bundles are resolved from a map keyed by id (`ResolvedAreConsistent`).
- `GetEffectivePolicy` obeys a disabled global switch, `EvaluateAction` does not
  (`DisabledSwitchParts`, `AgreeEverywhereIff`).
- A rebuild after a failed batch can lose the set handles (`RefusedBatchLosesHandles`), and then
  later batches succeed without effect (`LostHandlesFreezeTheKernel`, `MirrorRecoversIff`); what the
  kernel kept from before a failure stays until it is desired (`RecoveryExactIffNothingStale`).
- A redirect chain of eight hops is given up although it ends (`LongChainIsGivenUp`).
- A replayed migration takes policies out of memory that the store still has, if new ones have
  come to target the old PDID (`ReplayInSync`, `ReplayDropsPolicy`); a migration fails when a
  renamed policy meets an id held by another, and between two policies of the old PDID that depends
  on the order of the rows (`ClashDependsOnRowOrder`).
- A force request that arrives after the worker has read the flag is lost (`LateForceIsLost`), and
  only then, or when its reservation is dropped (`JoiningForceServedIff`, `ReservedForceServedIff`).
- The clean-up of old attempts tests and deletes in two steps. An attempt noted in between is deleted
  unread, and the next unforced enrichment starts within the cooldown (`UnforcedStartsCoincide`);
  without such a deletion it never does (`PassesCheckIff`, `StartsAreSpaced`).
- A replay of events is out of order once the ring has turned (`ReplayInOrderIff`).

## Model

| member | source | states |
|---|---|---|
| `ScheduleParser.MatchRule` | apps/lias/internal/schedule/parser.go:90-152 | one rule against one instant, day by day, gives the window length exactly when the rule is in force |
| `ScheduleParser.Evaluate` | apps/lias/internal/schedule/parser.go:28-172 | the loop over the rules returns the action of the first rule with the shortest window in force, else the default of the mode |
| `ScheduleParser.BestOfIsFirstShortest` | apps/lias/internal/schedule/parser.go:154-172 | the chosen rule is in force, no rule in force is shorter, and of equals the first wins; none is chosen exactly when none is in force |
| `ScheduleMeaning.MatchesIsWindow` | apps/lias/internal/schedule/parser.go:90-152 | the interpreter applies a rule exactly in the windows that open on its days, wrapping over midnight and over the end of the week |
| `ScheduleAnswers.ParseClockIff` | apps/lias/internal/schedule/parser.go:110-118 | exactly the texts of one or two hour digits, a colon and two minute digits below 24:00 are read, each as the minute it writes |
| `ScheduleAnswers.EvaluateMeaning` | apps/lias/internal/schedule/parser.go:28-172 | at every instant the action is that of the first of the shortest rules in force, by their clock texts and days on the clock of the zone, or of UTC if the host does not know it; without one a whitelist blocks and any other schedule allows |
| `ScheduleAnswers.ZoneShiftsClock` | apps/lias/internal/schedule/parser.go:29-33 | a schedule in a zone acts as it would in UTC later by the offset of the zone |
| `ScheduleAnswers.OneRuleMeaning` | apps/lias/internal/schedule/parser.go:28-172 | in UTC, a schedule of one rule acts as the rule exactly when the minute of the week lies in a window of one of its short days |
| `ScheduleConflict.ProjectSchedule` | apps/lias/internal/scheduleconflict/conflict.go:71-139 | projection fails exactly on an unreadable clock, and otherwise gives the segments of all rules in order |
| `ScheduleMeaning.ProjectionIsWindow` | apps/lias/internal/scheduleconflict/conflict.go:84-135 | a projected segment covers a minute exactly when the minute lies in a window of the rule, whichever of the five shapes the window is cut into |
| `ScheduleMeaning.AgreementIffPortable` | apps/lias/internal/scheduleconflict/conflict.go:84-135 | projection and interpreter agree on a rule at every instant if and only if the rule is portable: its clock texts differ and its days are short names, or it lasts no time; any other rule disagrees somewhere |
| `ScheduleConflict.Sweep` | apps/lias/internal/scheduleconflict/conflict.go:185-229 | the nested sweep with its early break visits every overlapping pair of the sorted segments |
| `ScheduleConflict.NoOverlapBeyond` | apps/lias/internal/scheduleconflict/conflict.go:197-199 | past the first segment that starts at or after the end of another, no later one overlaps it |
| `ScheduleConflict.SweepIsFaithful` | apps/lias/internal/scheduleconflict/conflict.go:185-229 | every reported conflict is a real clash with its earlier segment first, every clash has its key reported, and no key is reported twice |
| `ConflictReport.KeyDeterminesReport` | apps/lias/internal/scheduleconflict/conflict.go:210-212 | for ids without a bar a key determines both ids, the day and the times of the overlap |
| `ConflictReport.BarHidesClash` | apps/lias/internal/scheduleconflict/conflict.go:210-212 | four schedules, two with a bar in their id, and two clashes between different pairs of them, of which no report has both |
| `ConflictReport.EveryClashIsReported` | apps/lias/internal/scheduleconflict/conflict.go:185-229 | for ids without a bar every clash has a report that names its two schedules and its very overlap |
| `ScheduleConflict.FindConflicts` | apps/lias/internal/scheduleconflict/conflict.go:176-229 | sorting and sweeping together give a faithful report of the segments as they were handed in |
| `ScheduleConflict.ReportEmptyIffNoClash` | apps/lias/internal/scheduleconflict/conflict.go:185-229 | the report is empty if and only if no two segments clash |
| `ScheduleMeaning.ClashIffTaggedContradiction` | apps/lias/internal/scheduleconflict/conflict.go:205-206 | whatever the ids, segments clash if and only if some minute of the week is covered with different actions by rules that differ in number or in the id of their schedule |
| `ScheduleMeaning.ClashIffContradiction` | apps/lias/internal/scheduleconflict/conflict.go:185-229 | segments clash if and only if some minute of the week is covered with two different actions, when equal ids mean equal schedules, as for every bundle resolved from a map keyed by id |
| `ScheduleMeaning.SharedIdHidesContradiction` | apps/lias/internal/scheduleconflict/conflict.go:205-206 | two different schedules with one id, which no caller can pass, would contradict each other without a report |
| `ScheduleConflict.MergeSchedules` | apps/lias/internal/scheduleconflict/conflict.go:143-248 | a bundle merges exactly when it is empty of clashes, in one time zone and readable, and then gives the composite; otherwise the error or a faithful list of conflicts |
| `ScheduleMeaning.CompositeMeaning` | apps/lias/internal/scheduleconflict/conflict.go:143-248 | at every instant the composite acts as every projected segment over that minute says, and otherwise blocks if a schedule is a whitelist or allows something, else allows |
| `ScheduleMeaning.CompositeFollowsRules` | apps/lias/internal/schedule/parser.go:90-172 | a merged bundle of validated schedules acts as every rule in force says, whatever names its days have, and with the default if none is |
| `BundleAnswers.CompositeGrows` | apps/lias/internal/scheduleconflict/conflict.go:231-248 | how id, name and rules of a composite grow by one schedule |
| `BundleAnswers.ReportIsTrue` | apps/lias/internal/scheduleconflict/conflict.go:185-229 | a reported conflict names two schedules of the bundle, rules of theirs with the reported and different actions, and a stretch of the week, by its day and clocks, over which both have their windows open |
| `BundleAnswers.FreshActionOfNothing` | apps/lias/internal/schedule/engine.go:104-128 | an empty bundle allows, one with a missing schedule blocks |
| `BundleAnswers.FreshActionMeaning` | apps/lias/internal/schedule/engine.go:104-152 | a bundle blocks if its zones differ, a clock text cannot be read or two rules contradict each other at some instant; otherwise it acts, on the clock of its zone, as every rule in force says, and without one blocks if a schedule is a whitelist or allows something, else allows |
| `ScheduleOrder.MergeableIgnoresRuleOrder` | apps/lias/internal/scheduleconflict/conflict.go:185-229 | which bundles merge depends neither on the order of the schedules nor on that of the rules in them |
| `ScheduleOrder.EvaluateDependsOnRules` | apps/lias/internal/scheduleconflict/conflict.go:231-248 | two bundles with the same rules and the same default act alike |
| `ScheduleOrder.EvaluateIgnoresRuleOrder` | apps/lias/internal/scheduleconflict/conflict.go:143-248 | the action of a merged bundle of validated schedules depends neither on the order of the schedules nor on that of the rules in them |
| `ScheduleOrder.EvaluateIgnoresOrder` | apps/lias/internal/scheduleconflict/conflict.go:143-248 | nor on the repetition of schedules |
| `ScheduleOrder.FullDayRulesMakeOrderMatter` | apps/lias/internal/schedule/parser.go:121-152 | with identical clock texts, which the handlers refuse, the order of the schedules decides |
| `NextStateChange.NextStateChange` | apps/lias/internal/schedule/parser.go:175-229 | the predicted change is after now, at most a day ahead, at a clock of a rule, and none is earlier; without a readable clock it is a day ahead |
| `NextStateChange.ConstantUntil` | apps/lias/internal/schedule/parser.go:175-229 | the action does not change from now up to, not including, the predicted change |
| `NextStateChange.ConstantBetweenBoundaries` | apps/lias/internal/schedule/parser.go:175-229 | between two boundaries of its rules a schedule prescribes one action, over midnight too |
| `ScheduleEngine.KeyIdentifiesBundle` | apps/lias/internal/schedule/engine.go:49-54 | for ids without a plus sign the sorted and joined keys of two bundles are equal if and only if the bundles are permutations of each other |
| `ScheduleEngine.CacheAnswersFreshIff` | apps/lias/internal/schedule/engine.go:104-152 | whatever the ids and rules: every cache that is right for the schedules answers a bundle as a fresh merge does if and only if all bundles that merge and have its key come to its action |
| `ScheduleEngine.PlusGivesWrongAnswer` | apps/lias/internal/schedule/engine.go:104-152 | a run that stores three schedules and asks for a bundle of two, and then for the third, which is answered with the action of the two |
| `ScheduleEngine.PlusMakesKeysCollide` | apps/lias/internal/schedule/engine.go:49-54 | an id joined from two parts with a plus sign shares its key with the bundle of the parts if and only if the parts are in sorted order |
| `ScheduleEngine.FreshActionIgnoresOrder` | apps/lias/internal/schedule/engine.go:104-152 | a bundle of validated schedules comes to one action in every order and with repetitions, whatever its ids |
| `ScheduleEngine.InvalidationKeepsCacheValid` | apps/lias/internal/schedule/engine.go:56-63 | dropping the entries that the reverse index lists for a schedule leaves only entries that a fresh merge would give |
| `ScheduleEngine.RememberKeepsCacheValid` | apps/lias/internal/schedule/engine.go:137-142 | storing a composite and indexing it under each id keeps every entry right and reachable from all of its ids |
| `ScheduleEngine.CachedAnswer` | apps/lias/internal/schedule/engine.go:104-152 | a composite cached for another order of the same ids gives the action of a fresh merge in the order of the caller |
| `ScheduleEngine.Engine.UpsertSchedule` | apps/lias/internal/schedule/engine.go:65-70 | the schedule is replaced, exactly the cached bundles indexed under its id are dropped, and the cache stays valid |
| `ScheduleEngine.Engine.DeleteSchedule` | apps/lias/internal/schedule/engine.go:72-77 | the schedule is gone with exactly the cached bundles indexed under its id, and the cache stays valid |
| `ScheduleEngine.Engine.EvaluateBundle` | apps/lias/internal/schedule/engine.go:104-152 | a hit is answered from what the key holds and changes nothing; a miss stores and indexes the merge of the current schedules and answers from it, or blocks and stores nothing; the empty bundle allows; for ids without a plus sign and rules with two clock texts the answer is the fresh action |
| `ScheduleEngine.Engine.EvaluateNow` | apps/lias/internal/schedule/engine.go:97-102 | a single schedule is a bundle of one, and no schedule allows |
| `ScheduleEngine.Run` | apps/lias/internal/schedule/engine.go:49-152 | any run of upserts, deletions and evaluations gives exactly the answers of the cache on values; they are those of an engine without a cache under the same condition, and always fresh up to the key |
| `PolicyEngine.Engine.BestDevicePolicy` | apps/lias/internal/policy/engine.go:132-147 | for the order in which the map is visited, the first policy of the device that none of its enabled policies outranks |
| `PolicyEngine.EveryBestIsFound` | apps/lias/internal/policy/engine.go:132-147 | each best policy of the device is what the scan finds in some order |
| `PolicyEngine.ReachedInSomeOrder` | apps/lias/internal/policy/engine.go:209-290 | the verdicts that the precedence of the layers allows are exactly those that some iteration orders, one for each loop over the map, lead to, up to the arrangement of a bundle gathered from tags |
| `PolicyEngine.Engine.ScanTags` | apps/lias/internal/policy/engine.go:149-173 | for the orders in which the map is visited: the first blocking tag, whether a tag allows, and the schedules attached to the tags, as they are appended |
| `PolicyEngine.Engine.GetEffectivePolicy` | apps/lias/internal/policy/engine.go:91-205 | which policy is in effect, with the ids and names of those that are made up, and that its verdict is one the layers allow |
| `PolicyEngine.Engine.EvaluateAction` | apps/lias/internal/policy/engine.go:209-290 | the action is that of the verdict the iteration orders lead to; the schedule engine is consulted once for a bundle, and otherwise not at all |
| `PolicyAnswers.SettledFirst` | apps/lias/internal/policy/engine.go:209-230 | immunity allows, and then an enabled global switch that is not on schedule says its action |
| `PolicyAnswers.DevicePolicyDecides` | apps/lias/internal/policy/engine.go:232-251 | else an enabled policy of the device that none of them outranks speaks alone: with its action, or on schedule with its list of schedules, or without one with its legacy schedule |
| `PolicyAnswers.TagPoliciesDecide` | apps/lias/internal/policy/engine.go:253-290 | else the enabled policies of the tags speak: a block wins over an allowance, that over schedules, which are exactly those the policies name; else the global default, with the schedules it names while it is enabled |
| `PolicyAgreement.OrderIrrelevantIffTiesAgree` | apps/lias/internal/policy/engine.go:209-290 | all iteration orders give one action if and only if the top-priority policies of the device, where they are reached, come to one action |
| `PolicyAgreement.DistinctPrioritiesNeverTie` | apps/lias/internal/policy/engine.go:232-244 | distinct priorities among the enabled policies of a device are enough for that |
| `PolicyAgreement.EvaluatorsAgreeIffSwitchHarmless` | apps/lias/internal/policy/engine.go:91-290 | for one state of the schedules the two evaluators come to the same action if and only if the global switch is absent, enabled, or what it would say is what the layers say |
| `PolicySwitch.AgreeAlwaysIffHarmless` | apps/lias/internal/policy/engine.go:91-290 | for one device the evaluators agree whatever the schedules are if and only if the switch is absent or enabled, or the policies of the device and its tags come to its fixed action anyway, or they keep a disabled switch on schedule from being reached |
| `PolicySwitch.AgreeEverywhereIff` | apps/lias/internal/policy/engine.go:91-290 | the evaluators agree on every device, whatever the schedules are, if and only if the switch is absent or enabled, or has a fixed action that every other policy comes to anyway |
| `PolicySwitch.DisabledSwitchParts` | apps/lias/internal/policy/engine.go:111-130 | a disabled switch that blocks and an enabled policy that allows a device part the evaluators in every state of the schedules |
| `PolicyAgreement.EvaluateActionIsFresh` | apps/lias/internal/policy/engine.go:209-290 | the action is the fresh action of the verdict, whatever the schedule cache holds |
| `PolicyEngine.Engine.ReconcileDeviceIdentity` | apps/lias/internal/policy/engine.go:78-89 | policies of neither device stay, those of both are replaced by the rows |
| `Firewall.CollectDesired` | apps/lias/internal/nftables/builder.go:63-120 | the six desired sets mirror the devices: blocked ones always, allowed ones when online, infrastructure always allowed |
| `Firewall.Diff` | apps/lias/internal/nftables/builder.go:175-199 | the additions are what is desired and not current, the removals what is current and not desired |
| `Firewall.Controller.Apply` | apps/lias/internal/nftables/controller.go:332-353 | one batch reaches exactly the sets that have a handle, all or nothing; a failure rebuilds the connection |
| `Firewall.Builder.Sync` | apps/lias/internal/nftables/builder.go:59-173 | one synchronisation takes the state of builder, controller and kernel one step as specified |
| `Firewall.Builder.ResetState` | apps/lias/internal/nftables/builder.go:45-57 | the builder believes all sets empty |
| `FirewallRuns.RemovalsArePresent` | apps/lias/internal/nftables/builder.go:175-199 | in a tracked state no removal is of an absent element, and in an exact mirror no addition is of a present one |
| `FirewallRuns.SyncEffect` | apps/lias/internal/nftables/builder.go:137-173 | after a success every kernel set is the desired one with what was stale before, after a failure the builder starts over |
| `FirewallRuns.MirrorIsExact` | apps/lias/internal/nftables/builder.go:59-173 | over any run of successful synchronisations from empty sets, the kernel equals the desired sets after each |
| `FirewallRuns.SuccessHoldsIff` | apps/lias/internal/nftables/controller.go:355-359 | a synchronisation that reports success leaves the kernel with all that is desired if and only if the sets skipped for want of a handle held it already |
| `FirewallRuns.HandlesAllOrNone` | apps/lias/internal/nftables/controller.go:408-427 | over any run the handles are all there until a failed batch is followed by a rebuild that fails early, and none is there from then on |
| `FirewallRuns.MirrorRecoversIff` | apps/lias/internal/nftables/builder.go:59-173 | over any run, whatever fails and whatever the kernel is left with: a success leaves the kernel with all that is desired if and only if the handles were there, or the kernel held it before |
| `FirewallRuns.MirrorRecovers` | apps/lias/internal/nftables/builder.go:59-173 | as long as no rebuild loses the handles, each success leaves the kernel with all that is desired |
| `FirewallRuns.RefusedBatchLosesHandles` | apps/lias/internal/nftables/controller.go:347-350 | from the empty start a refused batch and a rebuild that fails early lose all handles |
| `FirewallRuns.RecoveryExactIffNothingStale` | apps/lias/internal/nftables/builder.go:153-172 | after a recovery the kernel equals the desired sets if and only if all that was left over is desired too |
| `FirewallRuns.MissingHandleLosesUpdate` | apps/lias/internal/nftables/controller.go:355-359 | without a handle an update reports success and does not happen |
| `FirewallRuns.LostHandlesFreezeTheKernel` | apps/lias/internal/nftables/controller.go:355-359 | once no handle is left, every later synchronisation reports success and the kernel never changes |
| `FirewallRuns.AddRules` | apps/lias/internal/nftables/controller.go:173-296 | the chain is the bypasses of the readable subnets in order, the six set rules, and the final accept |
| `FirewallRuns.BypassedMeans` | apps/lias/internal/nftables/controller.go:202-229 | a frame is bypassed if and only if its destination, of the family of a subnet that parsed, has the bits of the network wherever the mask has bits |
| `FirewallRuns.ChainDropsExactly` | apps/lias/internal/nftables/controller.go:173-296 | the exact set of frames the ordered chain drops |
| `FirewallRuns.DevicesDecide` | apps/lias/internal/nftables/controller.go:202-290 | over mirrored sets the devices alone decide: which frames are dropped, by who is blocked, allowed, online or infrastructure and owns the source MAC or address |
| `FirewallRuns.MacDecides` | apps/lias/internal/nftables/controller.go:232-296 | with mirrored sets, a frame not bypassed is dropped if its source MAC is of a blocked device, and accepted if it is of an infrastructure or online allowed device and of no blocked one, whatever the address sets say |
| `Chains.EndIsUnique` | apps/discovery-service/internal/storage/identity.go:456-477 | a chain of redirects has at most one end |
| `Chains.EndingChainNeverRevisits` | apps/discovery-service/internal/storage/identity.go:456-477 | a chain that ends visits nothing twice |
| `Redirects.ChainEndsAtSurvivor` | apps/discovery-service/internal/storage/identity.go:539-551 | after any history of merges of live devices the chain from any PDID ends at its survivor, which was not merged away |
| `Redirects.ResolvePDID` | apps/discovery-service/internal/storage/identity.go:456-477 | on any table: the end of a chain of at most seven hops, a cycle met within eight, or a chain of eight without repetition |
| `Redirects.ResolutionOfHistory` | apps/discovery-service/internal/storage/identity.go:456-477 | over any history there is no cycle; the live survivor is returned if and only if the chain has at most seven hops |
| `Redirects.LongChainIsGivenUp` | apps/discovery-service/internal/storage/identity.go:456-477 | a history of eight or more renamings of one device, which resolution gives up although the device is live |
| `Redirects.CompressKeepsOneHop` | apps/lias/internal/storage/identity_migration.go:97-105 | compression keeps targets from being sources if and only if the new PDID is not itself a source |
| `Redirects.OneLookupGivesSurvivor` | apps/lias/internal/storage/identity_migration.go:97-105 | the single lookup in the compressed table gives the survivor that the whole chain gives, and no target is a source |
| `DisIdentity.Engine.UpsertCandidate` | apps/discovery-service/internal/storage/identity.go:274-313 | a re-observed pair keeps its status, a new pair is pending |
| `DisIdentity.Engine.RejectIdentityCandidate` | apps/discovery-service/internal/correlation/identity_engine.go:375-396 | only a pending candidate that is the expected one is rejected |
| `DisIdentity.Engine.ReopenIdentityCandidate` | apps/discovery-service/internal/correlation/identity_engine.go:398-422 | only a rejected candidate is reopened |
| `DisIdentity.Engine.ConfirmIdentityCandidate` | apps/discovery-service/internal/correlation/identity_engine.go:424-465 | a confirmation merges two live devices once and leaves a redirect row; a repeated one changes nothing and returns the survivor of the target |
| `DisIdentity.MergeStep` | apps/discovery-service/internal/storage/identity.go:557-607 | confirming a candidate of live devices extends the history of merges and keeps redirects, devices and decisions in step |
| `DisIdentity.ConfirmedIsMergedOnce` | apps/discovery-service/internal/storage/identity.go:557-607 | in every reachable state a confirmed candidate has exactly one merge and its source a redirect row |
| `DisIdentity.Run` | apps/discovery-service/internal/correlation/identity_engine.go:375-465 | over any run a confirmed candidate stays confirmed, its merge is never repeated or undone, and its source keeps a redirect row |
| `PolicyMigration.RetargetFacts` | apps/lias/internal/storage/identity_migration.go:213-220 | the renaming of temporary policies moves two ids onto two others and nothing else, and is not undone or repeated |
| `PolicyMigration.MoveRowIsRight` | apps/lias/internal/storage/identity_migration.go:153-183 | moving one more row, in any order, takes the table from the reference for the rows moved so far to the next |
| `PolicyMigration.MoveRowCollides` | apps/lias/internal/storage/identity_migration.go:158-175 | the collisions recorded so far are exactly those of the rows moved so far, one for each key |
| `PolicyMigration.RecordPrecedence` | apps/lias/internal/storage/identity_migration.go:184-209 | exactly the active policies that the first in order of enforcement overrules with another action are recorded |
| `PolicyMigration.PrecedenceMeaning` | apps/lias/internal/storage/identity_migration.go:184-209 | the winner of every recorded precedence is the enabled policy of highest priority, of equals the one with the first id in byte order, and every enabled policy with another action is recorded as a loser |
| `PolicyMigration.MigratePolicies` | apps/lias/internal/storage/identity_migration.go:123-211 | for the order in which the rows are read: all policies are moved and survive so, unless, and only if, a row finds its new id held when it is its turn |
| `MigrationOrder.EveryOrderSucceedsIff` | apps/lias/internal/storage/identity_migration.go:153-183 | every order of the rows succeeds if and only if no renamed policy finds its new id in the table, other than with a policy of the target |
| `MigrationOrder.SomeOrderSucceedsIff` | apps/lias/internal/storage/identity_migration.go:153-183 | some order succeeds if and only if every such id is held by a policy of the old PDID |
| `MigrationOrder.ForeignHolderSticks` | apps/lias/internal/storage/identity_migration.go:222-241 | a renamed policy whose new id is held by a policy of neither PDID stops the migration in every order of the rows |
| `MigrationOrder.ClashDependsOnRowOrder` | apps/lias/internal/storage/identity_migration.go:153-183 | two temporary policies of the old PDID for which one order fails and the other succeeds |
| `PolicyMigration.PoliciesSurvive` | apps/lias/internal/storage/identity_migration.go:123-211 | no device policy is left under the old PDID; every policy of either survives, field by field as it was but for target, time and a temporary id, except the lower in priority of two with one id, where the own policy of the target wins a tie; no other policy is touched, and none is invented |
| `IdentityMigration.MoveTags` | apps/lias/internal/storage/identity_migration.go:63-69 | the target has the tags of both with its own MAC first, the source none |
| `IdentityMigration.MoveText` | apps/lias/internal/storage/identity_migration.go:70-89 | the text of the target wins if not empty, the source is emptied |
| `IdentityMigration.LoadState` | apps/lias/internal/storage/identity_migration.go:243-288 | the report lists the tags in order, the texts, and the policies in order of enforcement |
| `IdentityMigration.ReportMeaning` | apps/lias/internal/storage/identity_migration.go:243-288 | the report lists exactly the tags of the device in byte order and exactly its policies by priority and then id |
| `IdentityMigration.Storage.MigrateIdentityState` | apps/lias/internal/storage/identity_migration.go:34-121 | the whole transaction, all or nothing: what every table holds afterwards, each kind of error exactly when it occurs, and that a replay changes nothing |
| `IdentityMigration.NothingLeftBehind` | apps/lias/internal/storage/identity_migration.go:63-105 | nothing in the store refers to the old PDID, the target has the tags of both, with its own MAC where it had one, and its own texts where not empty, else those of the old PDID |
| `IdentityMigration.OthersUntouched` | apps/lias/internal/storage/identity_migration.go:63-105 | tags, texts, policies and log entries of every other device are as they were |
| `IdentityMigration.ReplayReportsTheSame` | apps/lias/internal/storage/identity_migration.go:48-58 | asking for a migration again reports what the first time reported |
| `IdentityMigration.MigrationIsHistoric` | apps/lias/internal/storage/identity_migration.go:94-108 | a migration keeps every log entry ever written under the survivor of the PDID it was written for, if and only if its target is live |
| `IdentityMigration.MigrationFollowsLookup` | apps/lias/internal/storage/identity_migration.go:94-105 | whatever the target, every log entry ever written is kept and stands where a lookup of the PDID it was written for leads |
| `IdentityMigration.LogsStayOnSurvivors` | apps/lias/internal/storage/identity_migration.go:94-105 | log entries stay on PDIDs that were not migrated away if and only if the target was not, or there was none to move |
| `IdentityMigration.Storage.SaveFlowLog` | apps/lias/internal/storage/sqlite.go:661-670 | a late write lands on the survivor of the PDID it was written for |
| `Coordinator.MemoryFollowsStore` | apps/lias/internal/identitymigration/coordinator.go:55-60 | replacing the policies of both PDIDs in memory by the committed rows gives the committed table |
| `Coordinator.ReplayInSync` | apps/lias/internal/identitymigration/coordinator.go:55-60 | on a replay memory equals the store afterwards if and only if no stored policy targets the old PDID |
| `Coordinator.ReplayDropsPolicy` | apps/lias/internal/identitymigration/coordinator.go:55-60 | a stored policy that has come to target the old PDID and that a replay takes out of memory |
| `Coordinator.Coordinator.MigrateIdentity` | apps/lias/internal/identitymigration/coordinator.go:28-66 | memory and store stay equal on success and on error, and on a replay exactly under that condition |
| `Orchestrator.Orchestrator.constructor` | apps/discovery-service/internal/discovery/orchestrator.go:71-116 | the options fall back to two workers and a queue of 128, and are capped at 8 and 4096 |
| `Orchestrator.Orchestrator.AdmitRequest` | apps/discovery-service/internal/discovery/orchestrator.go:181-200 | the checks of a trigger before the lock |
| `Orchestrator.Orchestrator.EnterPending` | apps/discovery-service/internal/discovery/orchestrator.go:202-210 | a pending PDID takes the request in, otherwise it is reserved |
| `Orchestrator.Orchestrator.OfferToQueue` | apps/discovery-service/internal/discovery/orchestrator.go:212-219 | queued while there is room, otherwise on the way to being dropped |
| `Orchestrator.Orchestrator.ReadForce` | apps/discovery-service/internal/discovery/orchestrator.go:234-240 | the worker reads the flag as it is now |
| `Orchestrator.Orchestrator.CheckCooldown` | apps/discovery-service/internal/discovery/orchestrator.go:246-257 | the cooldown is checked again when the request is run |
| `Orchestrator.Orchestrator.ClearFinished` | apps/discovery-service/internal/discovery/orchestrator.go:222-226 | the PDID is no longer pending |
| `Orchestrator.Orchestrator.TestAttempt` | apps/discovery-service/internal/discovery/orchestrator.go:140-141 | the clean-up remembers a PDID whose attempt is older than the cutoff of its round |
| `Orchestrator.Orchestrator.DeleteAttempt` | apps/discovery-service/internal/discovery/orchestrator.go:142 | it deletes whatever attempt of that PDID is stored by then |
| `OrchestratorRuns.StepKeepsValid` | apps/discovery-service/internal/discovery/orchestrator.go:129-258 | every atomic step keeps the invariant |
| `OrchestratorRuns.PendingIsDisjointUnion` | apps/discovery-service/internal/discovery/orchestrator.go:181-244 | in every state that any interleaving reaches, pending PDIDs are the disjoint union of reserved, queued and held ones, none is queued or run twice, and queued plus held work is at most the queue size plus the workers |
| `OrchestratorForce.ReadSeesForce` | apps/discovery-service/internal/discovery/orchestrator.go:202-240 | in every interleaving a worker reads force if and only if force was asked for since the PDID was last cleared, and reads once between two clearings |
| `OrchestratorForce.WaitingIsRead` | apps/discovery-service/internal/discovery/orchestrator.go:202-241 | while a forced PDID is queued, or with a worker that has not read yet, every later clearing in every interleaving comes after a read of the force |
| `OrchestratorForce.JoiningForceServedIff` | apps/discovery-service/internal/discovery/orchestrator.go:202-241 | a force for a PDID that is queued, held or being dropped is read before the next clearing if and only if, when it enters, the PDID is queued or its worker has not read yet |
| `OrchestratorForce.ReservedForceServedIff` | apps/discovery-service/internal/discovery/orchestrator.go:212-226 | a force for a reserved PDID is read before the next clearing if and only if its caller, at its offer, finds room and is not turned away by the cancellation |
| `OrchestratorStarts.AdmittedIff` | apps/discovery-service/internal/discovery/orchestrator.go:181-200 | in every interleaving a request is admitted if and only if it names a known device and is forced, or each start within the cooldown was deleted on a verdict passed before it |
| `OrchestratorStarts.ReadStartsIff` | apps/discovery-service/internal/discovery/orchestrator.go:228-258 | once read, a request leads to an enrichment before the PDID is cleared if and only if the device is known at the check and the request is forced or comes without such a start |
| `OrchestratorStarts.ReadForceStartsIff` | apps/discovery-service/internal/discovery/orchestrator.go:228-258 | in every interleaving, between the read of a force and the next clearing there is an enrichment if and only if the device was known when the worker checked, whatever attempts are recorded |
| `OrchestratorForce.ForceServedIffReadAfter` | apps/discovery-service/internal/discovery/orchestrator.go:202-241 | in terms of the trace: a force request is served if and only if the worker reads after it and before the PDID is cleared |
| `OrchestratorForce.LateForceIsLost` | apps/discovery-service/internal/discovery/orchestrator.go:202-241 | a run in which a force request that comes after the read is lost |
| `OrchestratorSpacing.PassesCheckIff` | apps/discovery-service/internal/discovery/orchestrator.go:246-257 | in every interleaving an unforced request passes the check of its worker if and only if each start of the PDID within the cooldown was deleted on a verdict that the clean-up had passed before that start |
| `OrchestratorSpacing.StartsAreSpaced` | apps/discovery-service/internal/discovery/orchestrator.go:246-258 | in every interleaving two enrichments of one PDID are a cooldown apart, unless the later was forced or the clean-up deleted the earlier between them on a verdict passed before it |
| `OrchestratorSpacing.UnforcedStartsCoincide` | apps/discovery-service/internal/discovery/orchestrator.go:139-145 | a run with one worker in which two unforced enrichments of one PDID start at the same second |
| `Inventory.Library.NormalizedIsStable` | apps/discovery-service/internal/inventory/pdid.go:115-139 | a normalized address survives being stored and normalized again |
| `Inventory.Library.NormalizeMeaning` | apps/discovery-service/internal/inventory/pdid.go:115-139 | an address that parses takes its printed form, another with twelve characters besides its separators that of these in pairs, and anything else none |
| `Inventory.RememberedMeaning` | shared/models/device.go:188-198 | a known address leaves the history alone, a new one is appended, and of more than thirty-two the oldest go |
| `Inventory.WithoutTextMeaning` | apps/discovery-service/internal/inventory/cache.go:236-242 | every occurrence of the address goes and nothing else |
| `Inventory.Device.AddMac` | shared/models/device.go:176-199 | the address becomes current; the history keeps the latest thirty-two |
| `Inventory.RefiledSound` | apps/discovery-service/internal/inventory/cache.go:356-388 | filing a new copy in place of the old record keeps an index sound |
| `Inventory.UnfiledSound` | apps/discovery-service/internal/inventory/cache.go:406-420 | taking a record out with its key keeps an index sound, whoever owned the entry |
| `Inventory.Cache.Upsert` | apps/discovery-service/internal/inventory/cache.go:348-389 | a copy is stored and filed in place of the record before it; every index entry still leads to a live record that has that key |
| `Inventory.Cache.Delete` | apps/discovery-service/internal/inventory/cache.go:403-430 | the record, its keys and the hostname it owns are gone, and the indexes stay sound |
| `Inventory.Cache.SetCurrentMac` | apps/discovery-service/internal/inventory/cache.go:278-304 | the record takes the address in place, and the indexes stay sound |
| `Inventory.Cache.RemoveIpIndex` | apps/discovery-service/internal/inventory/cache.go:227-253 | the holder falls back to the address before it, and the indexes stay sound |
| `Inventory.Cache.DemoteStale` | apps/discovery-service/internal/inventory/cache.go:169-182 | exactly the devices online and not seen for three minutes go offline |
| `Inventory.Cache.PurgeOffline` | apps/discovery-service/internal/inventory/cache.go:450-475 | exactly the devices offline for a day are removed, and the indexes stay sound |
| `Inventory.Cache.GetByMac` | apps/discovery-service/internal/inventory/cache.go:184-195 | a lookup gives a copy of a live record that holds the address today, never of a superseded one |
| `NetBios.SkipDnsName` | apps/discovery-service/internal/discovery/netbios_enricher.go:186-231 | the walk has exactly the outcome its chain of labels and jumps calls for, within bounds |
| `NetBios.SkipIsDetermined` | apps/discovery-service/internal/discovery/netbios_enricher.go:186-231 | each input has exactly one outcome: the name is skipped if and only if its chain reaches a terminator within 128 items |
| `NetBios.CyclesAreRefused` | apps/discovery-service/internal/discovery/netbios_enricher.go:192-199 | a chain that comes back to an item is never accepted |
| `NetBios.SkippedMovesForward` | apps/discovery-service/internal/discovery/netbios_enricher.go:186-231 | the offset behind a skipped name is after its start and within the data |
| `NetBios.ParseTable` | apps/discovery-service/internal/discovery/netbios_enricher.go:233-256 | all entries of a table of at most a hundred printable names, or a rejection |
| `NetBios.ParseNodeStatusResponse` | apps/discovery-service/internal/discovery/netbios_enricher.go:135-184 | the names of the first NBSTAT answer behind the questions, at most a hundred, or a rejection |
| `NetBiosWire.TableMeaning` | apps/discovery-service/internal/discovery/netbios_enricher.go:233-256 | byte by byte: a table is rejected when empty, too long or with a control byte in a name, and otherwise every name, suffix and flag word is read |
| `NetBiosWire.ResponseReadsBack` | apps/discovery-service/internal/discovery/netbios_enricher.go:135-184 | completeness: a well-formed response with a node status record behind its questions and any records of other kinds reads back as exactly its names |
| `SseBroker.TurnOfRing` | apps/discovery-service/internal/api/sse.go:107-112 | writing over the head of the full ring and moving it on drops the oldest event |
| `SseBroker.Broker.Broadcast` | apps/discovery-service/internal/api/sse.go:103-121 | read from its head on, the ring holds the latest hundred events; every client with room is sent the event |
| `SseBroker.Broker.Subscribe` | apps/discovery-service/internal/api/sse.go:74-90 | a new client is sent everything it missed of the latest hundred events, as it lies in the ring, cut nowhere |
| `SseBroker.ReplayIsComplete` | apps/discovery-service/internal/api/sse.go:123-146 | the replay has every missed one of the latest events, as often as it was broadcast |
| `SseBroker.ReplayInOrderIff` | apps/discovery-service/internal/api/sse.go:123-146 | the replay is in the order of the broadcasts if and only if what was missed lies on one side of the head of the ring |
| `KeaLeases.HeaderIsUnique` | apps/discovery-service/internal/discovery/dhcp_provider.go:314-317 | a header determines its columns, repeated names included |
| `KeaLeases.LastRowDecides` | apps/discovery-service/internal/discovery/dhcp_provider.go:344-363 | the last well-formed row about an address decides; an older lease is never resurrected |
| `KeaLeases.ListingMeaning` | apps/discovery-service/internal/discovery/dhcp_provider.go:325-375 | a lease is listed if and only if some row grants it, by the texts of its columns, and no later row is about its address; the listing is in byte order |
| `KeaLeases.ReplayRows` | apps/discovery-service/internal/discovery/dhcp_provider.go:323-364 | the replay gives up if and only if at some row more addresses are leased than allowed |
| `KeaLeases.ParseKeaLeases` | apps/discovery-service/internal/discovery/dhcp_provider.go:304-375 | the columns are those of the header; the leases are of exactly the addresses whose last row is a lease, in the order of the addresses, or the error that applies |

## Left out

- Calendar-date rules, daylight saving and IANA zones: instants are offset by a fixed number of seconds.
- Spelling of day names: a day is a short name, a long name or unrecognised, without case folding and trimming.
- Next-change bookkeeping of the schedule engine, timers, triggers and logging.
- The double check of the schedule cache between its read and write lock: one evaluation is one step.
- HTTP handlers, sessions, dashboards, probes, configuration, metrics and network I/O.
- `SweepExpired`, `UpsertPolicy`, `DeletePolicy` and the temporary policies that create them.
- The six maps of the builder are one table keyed by the name of the set, and an address is an abstract value that fits IPv4, IPv6 or MAC sets.
- Building the netlink table, and the byte offsets at which rules read a frame: a frame is the fields the rules read.
- Aliases, evidence, scoring, splits and the retention of candidates in DIS; `mergeDeviceData` is left abstract, a device being its PDID and online flag.
- SQL and JSON: tables are maps and sequences, `details` of a conflict is the pair of policies; the times of migrations and conflicts are not kept.
- The memory-only mode of the coordinator and the device cache it updates after a migration.
- The instant between reading the clock and the operation on the map of attempts: both are one step of a worker.
- What enrichers do to a device, and when nmap runs: an enrichment is its start and its end.
- Fields of a device that no index and no removal reads; hostname acquisition; `SetCurrentIP`, which leaves the old key behind and has no caller.
- Completeness of the inventory indexes: a deletion also removes a key that another record has taken over.
- ScheduleEngine.KeyIdentifiesBundle: is about ids without a plus sign, because others share keys.
- ScheduleEngine.CachedAnswer: is about ids without a plus sign and rules with two clock texts, because the answers of one key differ otherwise, as `PlusGivesWrongAnswer` and `FullDayRulesMakeOrderMatter` show; `CacheAnswersFreshIff` covers the rest.
- ScheduleMeaning.CompositeMeaning: is about days that have their short name, because long names are projected and not interpreted; `CompositeFollowsRules` covers them.
- SseBroker.Broker.Subscribe: the heartbeat and the reading side of a client are not modelled.
- NetBios.ParseNodeStatusResponse: the messages of the errors are not told apart, and the request and the use of the names are not modelled.
- KeaLeases.ParseKeaLeases: rows come split into fields, so errors of the CSV reader are not modelled.
