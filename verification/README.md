# Verified model of the Aardvark runtime's caches, pools and walks

A Dafny 4.11 model of the parts of Aardvark in which a property spans a loop, a
recursion or a whole protocol, with proofs of what those parts promise. Check it with
`dafny verify dfyconfig.toml`.

The form follows the source: what updates fields under a lock or in a loop is a class
or a method with a loop here, tied by its postcondition to a function of the old
state, and the properties are proved of those functions. Protocols between threads are
state machines with one step per critical section. What an operation's result amounts to
is stated once more without the operation's own function: over the states before and
after, the strings, the metadata or the events.

- **Warmed-host registry** (`Lru`, `WarmedArtifacts`, `WarmedHosts`, `Registry`): both
  caches and the calls by bytes and by artifact. `RegistryRuns` proves why the artifact
  limit is coerced to at least the host limit, `RegistryLimits` that each condition of
  that result is needed, `RegistryFailures`, `RegistryOneHost` and `RegistryArtifacts`
  what exactly becomes of it when constructions fail, when there is room for one host
  only, and when calls by artifact are mixed in. `AgedCache` compares both caches with a
  reference that has time stamps instead of a list. `RegistryProtocol` and
  `RegistryHistory` are the registry shared by any number of threads: create-once, the
  generation barrier of `clear`, and the condition variable; `RegistryRaces` is what
  several callers do to the promise.
- **Runtime pool** (`RuntimePool`, `PoolProtocol`, `PoolInvariant`, `PoolOrder`,
  `PoolStarvation`): conservation of slots, no lost wake-up, first in first out, and who
  can still be served.
- **JavaScript polyfills**: `Base64` and `Base64Decode` over 32-bit words;
  `ObjectGraph`, `LeafCopies`, `StructuredClone` and `CloneProperties` over cyclic object
  graphs; `TimerLog` and `Timers`, where the history of a timer wheel is a log that
  every operation keeps legal.
- **Walks and folds**: `EsModules`, `ModuleSpecifiers`, `ModuleCompile` and
  `ModuleLimits`; `PackageNames`,
  `Lockfile`, `LockfileOrder`, `HostPackages`, `HostListing` and `PackageClosures`; `Paths`,
  `BundlePaths`, `BundleReader` and `BundleFingerprint`; `OverlayCache`, `OverlayEviction`,
  `OverlayLimits` and `OverlayOutcome`.

What comes from outside is a parameter or an oracle: whether a construction, a reset, a
parse or a compilation succeeds, what a callback does, what a directory or an archive
lists, which files refuse removal, and the clock. Ghost state that the program does not
have is marked where it is declared.

## Where the code does not keep its documentation's promise

- `warmed_host.rs:62-66` promises that byte-based checks can still find retained hosts
  when both limits are set. For one caller that holds for runs of byte-addressed calls
  in which every construction succeeds and no two payloads share a pool key
  (`ReadyHostsAnswerByBytes`); it fails without any one of these conditions.
  - Which limits and which payloads suffice is `LimitsSufficeExactly` and
    `DistinctnessExactly`; which failures do harm, judged by the calls that may follow,
    is `FailureIsHarmlessExactly`, and `OneHostFailureExactly` with room for one host.
  - Calls by artifact, which `docs/api/rust-host.md:453` recommends as well, use a host
    without using its artifact, so a host that is checked by artifact outlives the
    artifact (`CheckByArtifactLosesAHost`). With such checks in the run the promise holds
    exactly if there is no artifact limit or room for one host only
    (`MixedRunsExactly`). A host prewarmed by artifact is lost at once exactly if its
    payload is not cached (`OwnHostLostExactly`).
  - With several callers it holds exactly if there is no artifact limit, provided that
    nobody removes or clears (`SharedServingExactly`), and a removal at the wrong moment
    breaks it under any limits (`RemovedWhileBuilding`).
- `pool.rs:94` says a checkout blocks until a runtime is available. A failed
  construction keeps its slot, so after as many failures as the pool has slots a
  checkout blocks for good (`PoolStarvation.FailuresStarveACheckout`);
  `PoolStarvation.CheckoutServableExactly` is the exact condition.
- `structuredClone` copies dates, regular expressions and buffers once per place
  (`polyfills.js:913-924`), so sharing of these is not preserved
  (`CloneProperties.PathsMeetExactly`; `CloneProperties.OneDateBecomesTwo` is an input).
- A failed module compilation may leave modules in the cache whose imports are missing,
  and asking for the same module again then succeeds
  (`ModuleCompile.FailureKeepsCompleteExactly`, `ModuleLimits.SecondCallSucceeds`).
- The two normalisations of package names differ on names that end in a separator or
  hold other characters (`PackageNames.FormsAgreeExactly`). For each such spelling there
  is an otherwise well-named lockfile on which the two walks disagree, and for no other
  spelling (`PackageClosures.WalksAgreeExactly`); with keys that are not canonical both
  can succeed with different lists (`PackageClosures.ListsDiffer`).

## Model

| member | source | states |
|---|---|---|
| RegistryRuns.ReadyHostsAnswerByBytes | crates/aardvark-core/src/persistent/warmed_host.rs:62-66 | the promise behind the two limits, for callers that use byte-addressed calls only: with both limits set and distinct pool keys, after any run of such calls whose constructions succeed, a payload whose host is ready is answered with that host from its bytes alone; with calls by artifact among them the promise can fail, see RegistryArtifacts.MixedRunsExactly |
| RegistryArtifacts.MixedRunsExactly | crates/aardvark-core/src/persistent/warmed_host.rs:509-536 | when the promise survives calls by artifact, from any sound state that has lost nothing, for distinct pools and bundles that never run out: no run of successful calls by bytes with checks and removals by artifact among them, and hosts asked for by artifact only where a cached payload has the key, ever loses a ready host's artifact if and only if there is no artifact limit or room for one host only |
| RegistryArtifacts.CheckByArtifactLosesAHost | crates/aardvark-core/src/persistent/warmed_host.rs:516-536 | with two slots each: warm two bundles by bytes, check the first by artifact, warm a third, and the first host is ready without its artifact |
| RegistryArtifacts.HostOfLosesExactly | crates/aardvark-core/src/persistent/warmed_host.rs:437-507 | a host asked for by artifact is ready afterwards, and nothing is lost by the call if and only if every payload with its host key was cached before |
| RegistryArtifacts.OwnHostLostExactly | crates/aardvark-core/src/persistent/warmed_host.rs:437-514 | with distinct host keys: that host is lost to its own bytes if and only if its payload was not cached |
| RegistryArtifacts.PrewarmedByArtifactIsLost | crates/aardvark-core/src/persistent/warmed_host.rs:509-514 | under any limits, prewarming by artifact in an empty registry leaves a ready host that its bytes do not find |
| RegistryArtifacts.RemoveOfKeepsCoupled | crates/aardvark-core/src/persistent/warmed_host.rs:549-565 | removal by artifact, with its removal of the pool's artifacts, keeps the two caches coupled |
| RegistryArtifacts.RemovalIsByBytes | crates/aardvark-core/src/persistent/warmed_host.rs:549-565 | with distinct pools, removing a ready host by an artifact does what removing it by the bytes of the cached payload with its key does |
| RegistryRaces.SharedServingExactly | crates/aardvark-core/src/persistent/warmed_host.rs:358-381 | with any number of callers that ask for hosts by bytes and check for them, and nobody removing or clearing, every ready host keeps its artifact in all executions if and only if there is no artifact limit |
| RegistryRaces.EvictedWhileBuilding | crates/aardvark-core/src/persistent/warmed_host.rs:437-482 | for every artifact limit: while one caller builds its host, others warm bundles until its artifact is evicted, and then the host is published |
| RegistryRaces.RemovedWhileBuilding | crates/aardvark-core/src/persistent/warmed_host.rs:393-406 | under any limits: a removal by bytes between a caller's two critical sections leaves that caller's host ready without its artifact |
| RegistryRuns.RunsStayCoupled | crates/aardvark-core/src/persistent/warmed_host.rs:62-67 | in every run of successful byte-addressed calls the host recency list is the artifact recency list restricted to ready keys, and artifacts without a host never exceed the difference of the limits |
| RegistryRuns.EvictionsInLockstep | crates/aardvark-core/src/persistent/warmed_host.rs:197-207 | when an insertion evicts from a full artifact cache, the artifact that goes has no ready host left: the host cache was full too and evicts the very same key |
| RegistryRuns.HitKeepsOrder | crates/aardvark-core/src/persistent/warmed_host.rs:516-536 | a hit moves digest and host key to the newest end of their lists together |
| RegistryRuns.RemoveForKeepsCoupled | crates/aardvark-core/src/persistent/warmed_host.rs:393-406 | removal by bytes, with its removal of the pool's artifacts, keeps the two caches coupled |
| RegistryRuns.CoupledCovers | crates/aardvark-core/src/persistent/warmed_host.rs:368-381 | coupling implies that no ready host is without its cached artifact |
| RegistryRuns.CoercionSuffices | crates/aardvark-core/src/persistent/warmed_host.rs:322-330 | the coerced limits are never zero, keep a positive host limit, and are a sufficient pair exactly if a host limit accompanies the artifact limit |
| RegistryRuns.CoercionIsLeast | crates/aardvark-core/src/persistent/warmed_host.rs:322-330 | the coerced limits are the least pair that has no zero, is not below what was asked for, and has the artifact limit not below the host limit |
| RegistryLimits.LimitsSufficeExactly | crates/aardvark-core/src/persistent/warmed_host.rs:323-330 | the coercion cannot be weakened: no run of successful calls on distinct pools ever loses a host's artifact if and only if the artifact limit is absent or at least as large as a host limit that is set |
| RegistryLimits.InsufficientLimitsLoseAHost | crates/aardvark-core/src/persistent/warmed_host.rs:62-66 | for every insufficient pair of limits, warming one bundle more than the artifact limit loses a ready host's artifact |
| RegistryLimits.UnevenEvictionLosesAHost | crates/aardvark-core/src/persistent/warmed_host.rs:197-207 | how it is lost: a full artifact cache beside a host cache with room evicts the oldest artifact while its host stays ready |
| RegistryLimits.FailedWarmupKeepsCouplingExactly | crates/aardvark-core/src/persistent/warmed_host.rs:490-502 | a failed construction keeps the caches coupled (same order and spare room for the cold artifacts) if and only if the payload was known or unparsable, the evicted artifact had no ready host, or spare room remained; what that means for the promise is FailureIsHarmlessExactly |
| RegistryFailures.HarmlessRunsStayCoupled | crates/aardvark-core/src/persistent/warmed_host.rs:62-66 | runs in which constructions may also fail, each without harm in the state it meets, keep the caches coupled and lose no host |
| RegistryFailures.FailureIsHarmlessExactly | crates/aardvark-core/src/persistent/warmed_host.rs:490-502 | with room for two hosts and bundles that never run out, a failure is harmless in that sense if and only if no successful calls after it can ever lose a ready host |
| RegistryFailures.SafeExactly | crates/aardvark-core/src/persistent/warmed_host.rs:62-66 | from any sound state in one order and within both limits, no successful calls can lose a host if and only if the cold artifacts are no more than the artifact limit exceeds the host limit |
| RegistryFailures.SafeAfterFailuresExactly | crates/aardvark-core/src/persistent/warmed_host.rs:62-66 | the same after any run of byte-addressed calls, failures included, that has lost no host so far |
| RegistryOneHost.OneHostFailureExactly | crates/aardvark-core/src/persistent/warmed_host.rs:490-502 | with room for one host a failed construction does harm, now or later, if and only if it pushes out the ready host's artifact |
| RegistryOneHost.SafeWhileNothingLost | crates/aardvark-core/src/persistent/warmed_host.rs:62-66 | with room for one host, after any run, failures included, that has lost no host so far, successful calls lose none |
| RegistryLimits.HarmfulFailureBreaksCoupled | crates/aardvark-core/src/persistent/warmed_host.rs:598-608 | a harmful failure leaves a ready host without its artifact at once exactly if the artifact cache was full |
| RegistryLimits.FailedWarmupLosesAHostLater | crates/aardvark-core/src/persistent/warmed_host.rs:62-66 | with two slots each: warm, fail, warm a third, and a ready host can no longer be found by its bytes |
| RegistryOneHost.DistinctnessExactly | crates/aardvark-core/src/persistent/warmed_host.rs:214-229 | with sufficient limits every run of successful calls keeps all ready hosts findable if and only if no two payloads share a pool key or, with room for one host only, a host key |
| RegistryOneHost.OnlyLatestReady | crates/aardvark-core/src/persistent/warmed_host.rs:262-276 | with a limit of one, whatever was ready before, the host asked for last is the one that is ready |
| RegistryLimits.SharedPoolLosesAHost | crates/aardvark-core/src/persistent/warmed_host.rs:549-565 | with room for two hosts, for any two payloads with one pool key there is a short run of successful calls after which a ready host has no artifact |
| WarmedArtifacts.EvictKeepsNewest | crates/aardvark-core/src/persistent/warmed_host.rs:197-207 | eviction keeps exactly the newest digests up to the limit, each with its artifact, and the list never runs dry, so the early exit is dead |
| WarmedArtifacts.InsertSurvives | crates/aardvark-core/src/persistent/warmed_host.rs:181-195 | after an insertion the list and the map agree, the limit holds, and the entry inserted or found is the newest and is not the victim |
| WarmedArtifacts.RemovePoolKeepsValid | crates/aardvark-core/src/persistent/warmed_host.rs:214-229 | removing a pool's artifacts takes the same digests out of list and map |
| WarmedArtifacts.WarmedArtifactCache.Get | crates/aardvark-core/src/persistent/warmed_host.rs:175-179 | in place: the cache becomes the value the lookup function gives, which the refinement lemmas characterise |
| WarmedArtifacts.WarmedArtifactCache.Insert | crates/aardvark-core/src/persistent/warmed_host.rs:181-195 | in place: an existing artifact wins over the new one, a new one is appended and the limit applied |
| WarmedArtifacts.WarmedArtifactCache.EvictOverLimit | crates/aardvark-core/src/persistent/warmed_host.rs:197-207 | the loop performs the eviction whose outcome is characterised above |
| WarmedArtifacts.WarmedArtifactCache.RemovePool | crates/aardvark-core/src/persistent/warmed_host.rs:214-229 | in place, and the count is the number of digests of that pool |
| WarmedHosts.EvictKeepsNewest | crates/aardvark-core/src/persistent/warmed_host.rs:262-276 | eviction keeps the most recently used ready hosts up to the limit and every creation in flight; a victim is always found |
| WarmedHosts.PublishedSurvives | crates/aardvark-core/src/persistent/warmed_host.rs:477-482 | a host that may be published is ready afterwards, most recently used, and never the victim of its own eviction |
| WarmedHosts.FinishErrKeepsValid | crates/aardvark-core/src/persistent/warmed_host.rs:490-502 | a failed creation takes its own slot away and leaves list and ready keys in agreement and within the limit |
| WarmedHosts.WarmedHostCache.LookUp | crates/aardvark-core/src/persistent/warmed_host.rs:445-461 | one locked round of the retry loop: hit, wait, or claim the slot with the current generation |
| WarmedHosts.WarmedHostCache.FinishOk | crates/aardvark-core/src/persistent/warmed_host.rs:467-489 | the locked end of a successful creation: published only if its slot and the generation are still its own |
| WarmedHosts.WarmedHostCache.FinishErr | crates/aardvark-core/src/persistent/warmed_host.rs:490-502 | the locked end of a failed creation |
| WarmedHosts.WarmedHostCache.EvictReadyOverLimit | crates/aardvark-core/src/persistent/warmed_host.rs:262-276 | the loop performs the eviction characterised above |
| WarmedHosts.WarmedHostCache.RemoveReady | crates/aardvark-core/src/persistent/warmed_host.rs:278-287 | a creation slot is never removed |
| WarmedHosts.WarmedHostCache.ClearReadyAndInvalidateCreating | crates/aardvark-core/src/persistent/warmed_host.rs:289-296 | all ready hosts go, creation slots stay, the generation advances, and the count is that of the ready hosts |
| AgedCache.ArtifactInsertRefines | crates/aardvark-core/src/persistent/warmed_host.rs:181-195 | insertion does what a cache of time-stamped entries does that drops every entry with at least `limit` more recently used ones |
| AgedCache.ArtifactGetRefines | crates/aardvark-core/src/persistent/warmed_host.rs:175-179 | a lookup is a use in that reference cache |
| AgedCache.ArtifactRemoveRefines | crates/aardvark-core/src/persistent/warmed_host.rs:209-212 | removal of a digest is removal there |
| AgedCache.ArtifactRemovePoolRefines | crates/aardvark-core/src/persistent/warmed_host.rs:214-229 | removal of a pool is removal of its digests there |
| AgedCache.HostUseRefines | crates/aardvark-core/src/persistent/warmed_host.rs:520-536 | a ready check and a hit of the retry loop are uses in the reference cache |
| AgedCache.HostRemoveRefines | crates/aardvark-core/src/persistent/warmed_host.rs:278-287 | removing a ready host is removal there |
| AgedCache.HostPublishRefines | crates/aardvark-core/src/persistent/warmed_host.rs:477-482 | publishing is insertion followed by the limit, over the ready hosts alone |
| AgedCache.VictimsAreOldest | crates/aardvark-core/src/persistent/warmed_host.rs:299-305 | the victims by time stamps are exactly the keys outside the newest positions of the recency list |
| Registry.WarmedBundleHostRegistry.HostForBytes | crates/aardvark-core/src/persistent/warmed_host.rs:358-361 | the two caches together, in place: the host ready before, or else the one just built, is answered and is the one ready now; nothing is answered only for what is no bundle or after a failed construction; both caches stay sound |
| Registry.WarmedBundleHostRegistry.HostForArtifact | crates/aardvark-core/src/persistent/warmed_host.rs:437-507 | the same for a host asked for by artifact, of the host cache alone: no artifact is cached |
| Registry.WarmedBundleHostRegistry.ReadyHostForArtifact | crates/aardvark-core/src/persistent/warmed_host.rs:516-536 | answers the host ready under the artifact's key, if any; no entry of either cache changes |
| Registry.WarmedBundleHostRegistry.RemoveForArtifact | crates/aardvark-core/src/persistent/warmed_host.rs:549-565 | the ready host under the artifact's key is answered and goes, and with it exactly the artifacts of the pool; without one nothing goes |
| Registry.WarmedBundleHostRegistry.ReadyHostForBytes | crates/aardvark-core/src/persistent/warmed_host.rs:368-381 | a payload that is not cached is answered nothing, without parsing; a cached one the host ready under its key, if any; no entry of either cache changes |
| Registry.WarmedBundleHostRegistry.RemoveForBytes | crates/aardvark-core/src/persistent/warmed_host.rs:393-406 | removes artifact, ready host and, if a host went, the whole pool's artifacts |
| Registry.WarmedBundleHostRegistry.ClearAll | crates/aardvark-core/src/persistent/warmed_host.rs:572-581 | both caches are emptied, creation slots apart, and the number of ready hosts is reported |
| Registry.WarmedBundleHostRegistry.constructor | crates/aardvark-core/src/persistent/warmed_host.rs:322-341 | an empty registry with the coerced limits |
| Registry.HostForAnswers | crates/aardvark-core/src/persistent/warmed_host.rs:437-502 | of the registry's state, whichever way the call goes: a call by bytes answers the host ready before or else the one just constructed, which is the one ready afterwards, and nothing exactly if the payload is no bundle or the construction failed |
| Registry.HostOfAnswers | crates/aardvark-core/src/persistent/warmed_host.rs:437-502 | the same for a call by artifact |
| Registry.ReadyAnswers | crates/aardvark-core/src/persistent/warmed_host.rs:368-381 | both checks answer the host that is ready, by bytes only if the payload is cached, and change no entry |
| Registry.RemoveOfAnswers | crates/aardvark-core/src/persistent/warmed_host.rs:549-565 | removal by artifact takes away exactly the ready host and then exactly the pool's artifacts |
| Registry.RemoveForAnswers | crates/aardvark-core/src/persistent/warmed_host.rs:393-406 | removal by bytes takes the payload's artifact and then does as removal by that artifact |
| Registry.SameKeyExactly | crates/aardvark-core/src/persistent/warmed_host.rs:695-702 | two artifacts share a host if and only if they share the pool and, an override considered, entry point and language |
| RegistryProtocol.ReachableStatesSatisfyInv | crates/aardvark-core/src/persistent/warmed_host.rs:445-507 | over every interleaving of any number of threads: slots and builders match, generations are ordered, sleepers are awaited, both caches are sound |
| RegistryHistory.SlotsMatchBuilders | crates/aardvark-core/src/persistent/warmed_host.rs:437-439 | creation slots and building threads match one to one by key and generation, so no key is ever built twice at once |
| RegistryHistory.EndingTouchesOwnSlotOnly | crates/aardvark-core/src/persistent/warmed_host.rs:467-502 | a construction that ends finds its own slot in place, so both generation checks on the slot succeed, and touches no other creation |
| RegistryHistory.ClearIsABarrier | crates/aardvark-core/src/persistent/warmed_host.rs:567-581 | whatever is ready after a clear was begun after that clear |
| RegistryHistory.PublishedUnlessCleared | crates/aardvark-core/src/persistent/warmed_host.rs:567-572 | a successful creation always reaches its own caller, and is ready at once if and only if nobody cleared since it began |
| RegistryHistory.SleeperWillBeWoken | crates/aardvark-core/src/persistent/warmed_host.rs:453-455 | a thread asleep on a key has a thread building that key, and either end of that construction makes the sleeper look again |
| RegistryHistory.NeverStuck | crates/aardvark-core/src/persistent/warmed_host.rs:445-507 | while any thread is inside a call, some thread has a step of its own to take |
| RegistryHistory.GenerationCountsClears | crates/aardvark-core/src/persistent/warmed_host.rs:289-296 | the generation stands still between two states if and only if nobody cleared between them |
| RegistryHistory.ReadyHostBegan | crates/aardvark-core/src/persistent/warmed_host.rs:471-476 | every ready host goes back to one thread's look in the current generation |
| RegistryHistory.LookIsAnswered | crates/aardvark-core/src/persistent/warmed_host.rs:445-461 | a look, a woken sleeper's included, is answered the ready host of its key, sleeps if and only if the key is under construction, and takes the slot if and only if there is none |
| RegistryHistory.ReadyHostBuilt | crates/aardvark-core/src/persistent/warmed_host.rs:467-489 | every ready host is one that some thread built for that very key, with no clear since |
| RegistryHistory.HitWasBuilt | crates/aardvark-core/src/persistent/warmed_host.rs:448-452 | a caller served without building gets a host that somebody built for its key since the last clear |
| RegistryHistory.ClearHasEmptied | crates/aardvark-core/src/persistent/warmed_host.rs:572-581 | a clear that ends has emptied the hosts and after them the artifacts, kept every creation slot, and leaves nobody asleep |
| PoolInvariant.ReachableStatesSatisfyInv | crates/aardvark-core/src/pool.rs:95-127 | over every interleaving of checkouts, returns, failed constructions and failed resets: slots are conserved, the maximum holds, identifiers are distinct, no wake-up is lost |
| PoolInvariant.StepConserves | crates/aardvark-core/src/pool.rs:98-109 | the total is always queued plus lent plus under construction plus lost to failed constructions, and at most the maximum |
| PoolInvariant.DiscardNeverSaturates | crates/aardvark-core/src/pool.rs:205-208 | the saturating subtraction of a failed reset always subtracts one |
| PoolInvariant.StepOnePlace | crates/aardvark-core/src/pool.rs:176-238 | no runtime is in two places and no identifier is issued twice |
| PoolInvariant.StepKeepsWakeups | crates/aardvark-core/src/pool.rs:230-236 | while a checkout sleeps, the available slots are at most the threads awake in the loop plus the notifications not yet delivered, barging included |
| PoolInvariant.SleeperNotForgotten | crates/aardvark-core/src/pool.rs:94-127 | if a sleeper could be served, some thread is about to take its turn or to notify |
| PoolInvariant.ServesWhileSlotsRemain | crates/aardvark-core/src/pool.rs:104-109 | some continuation still hands a runtime to some caller if and only if fewer constructions have failed than the pool may hold |
| PoolStarvation.CheckoutServableExactly | crates/aardvark-core/src/pool.rs:94-127 | some continuation hands a runtime to a given checkout under way, asleep or not, if and only if fewer constructions have failed than the pool may hold |
| PoolStarvation.FailuresStarveACheckout | crates/aardvark-core/src/pool.rs:104-125 | for every size of the pool: after as many failed constructions as it has slots the next checkout sleeps, in every continuation, for good |
| PoolInvariant.WedgedOnlyByFailures | crates/aardvark-core/src/pool.rs:104-125 | sleepers that nobody could ever wake occur only when every slot was lost to a failed construction |
| RuntimePool.PyRuntimePool.CheckoutRound | crates/aardvark-core/src/pool.rs:97-125 | one locked round: the front of the queue of idle runtimes, or a slot and a new identifier, or a wait; which runtime that is, TakesFirstReturned says |
| RuntimePool.PyRuntimePool.Return | crates/aardvark-core/src/pool.rs:230-235 | the runtime goes to the back of the queue |
| RuntimePool.PyRuntimePool.Discard | crates/aardvark-core/src/pool.rs:205-206 | the total shrinks, saturating at zero |
| PoolOrder.QueueIsByReturn | crates/aardvark-core/src/pool.rs:230-235 | in every state of every execution the idle runtimes are queued in the order in which they came back |
| PoolOrder.TakesFirstReturned | crates/aardvark-core/src/pool.rs:98-103 | a checkout that takes its turn while runtimes are idle gets, of all idle ones, that which was returned first |
| PoolOrder.FirstReturnedGoesFirst | crates/aardvark-core/src/pool.rs:98-103 | of two idle runtimes, no step takes the one returned later |
| Base64.Btoa | crates/aardvark-core/src/js/polyfills.js:152-167 | the quarter-step loop over 32-bit words emits exactly the base 64 encoding of section 4 of RFC 4648 for strings of bytes and refuses all others |
| Base64.EncodeLength | crates/aardvark-core/src/js/polyfills.js:152-167 | the encoding has four characters per started group of three bytes |
| Base64.EncodedAtIsEncode | crates/aardvark-core/src/js/polyfills.js:157-164 | position by position: which sextet of which group stands there, and where padding stands |
| Base64.TurnPicksSextet | crates/aardvark-core/src/js/polyfills.js:158-164 | turn j picks the j-th sextet although every third byte is read twice and the word overflows |
| Base64.TurnAppends | crates/aardvark-core/src/js/polyfills.js:157-158 | in the padding turns the sextet is zero, so the pad string yields a pad and the loop emits the j-th character of the encoding |
| Base64Decode.RoundTrip | crates/aardvark-core/src/js/polyfills.js:150-190 | decoding the encoding of any string of bytes gives the string back, through stripped padding and the shift schedule |
| Base64Decode.BtoaThenAtob | crates/aardvark-core/src/js/polyfills.js:150-190 | the two loops one after the other: success exactly on strings of bytes, and then the identity |
| Base64Decode.Atob | crates/aardvark-core/src/js/polyfills.js:172-189 | the loop computes the decoding function that the round trip is about; its accumulator never overflows |
| Base64Decode.ShiftSchedule | crates/aardvark-core/src/js/polyfills.js:185 | the shift `(-2 * bc) & 6` runs through 6, 4, 2, 0 |
| Base64Decode.AccumulateBounded | crates/aardvark-core/src/js/polyfills.js:183 | the accumulator stays below 2^25 whatever the input, so double arithmetic and 32-bit shifts agree |
| Base64Decode.UnknownCharactersSkipped | crates/aardvark-core/src/js/polyfills.js:179-182 | characters outside the alphabet make no difference |
| Base64Decode.RefusesExactly | crates/aardvark-core/src/js/polyfills.js:173-175 | pads at the end make no difference; refused if and only if one character more than a multiple of four stands before them |
| Base64.AlphabetIsTable1 | crates/aardvark-core/src/js/polyfills.js:151 | the symbols are A to Z, a to z, 0 to 9, + and /, and looking one up is the inverse, with the pad behind them and nothing else found |
| StructuredClone.Cloner.CloneValue | crates/aardvark-core/src/js/polyfills.js:906-947 | terminates on every finite graph, cyclic ones included; the source is untouched; every container newly in the memo is reachable from the argument and completely copied; no two places of the copies hold one leaf copy |
| CloneProperties.Clone | crates/aardvark-core/src/js/polyfills.js:949-951 | the whole clone, from an empty memo |
| CloneProperties.CopiedIffReachable | crates/aardvark-core/src/js/polyfills.js:941-946 | exactly the containers reachable from the argument are copied, each to one new object |
| CloneProperties.CopySharesNothing | crates/aardvark-core/src/js/polyfills.js:906-947 | nothing reachable from the copy belongs to the source |
| CloneProperties.PathsCorrespond | crates/aardvark-core/src/js/polyfills.js:925-946 | a path leads somewhere in the copy if and only if it does in the source, to the same kind with the same keys, in the same order |
| CloneProperties.SharingPreserved | crates/aardvark-core/src/js/polyfills.js:910-912 | two paths that do not end in a leaf meet in the copy if and only if they meet in the source, so sharing and cycles survive |
| CloneProperties.PathsMeetExactly | crates/aardvark-core/src/js/polyfills.js:910-924 | for all paths: two meet in the copy if and only if they meet in the source and, where they end in a date, regular expression or buffer, end at one position of one container |
| CloneProperties.LeafSharingLost | crates/aardvark-core/src/js/polyfills.js:913-921 | two places of a container that held one object hold one copy if and only if it is not a date, regular expression or buffer |
| CloneProperties.OneDateBecomesTwo | crates/aardvark-core/src/js/polyfills.js:910-924 | one date under two properties of an object: in every clone the two paths lead to different dates |
| CloneProperties.CloneOneDate | crates/aardvark-core/src/js/polyfills.js:949-951 | the clone of that object is made, and there are two dates |
| CloneProperties.SourceUnchanged | crates/aardvark-core/src/js/polyfills.js:906-947 | every source object is as it was |
| Timers.TimerWheel.Pump | crates/aardvark-core/src/js/polyfills.js:1019-1054 | whatever the callbacks set or clear: due timeouts are pending no more, no other fires; due intervals still pending fired exactly once and count their delay anew; timeouts fire first, both in order of setting; the least remaining delay is returned |
| Timers.TimerWheel.RunInterval | crates/aardvark-core/src/js/polyfills.js:1044-1051 | one due interval: its callback runs and, unless it cleared the interval, the delay counts anew from the moment the callback ended |
| Timers.TimerWheel.SetTimeout | crates/aardvark-core/src/js/polyfills.js:979-993 | a fresh id, due as much later as was asked for, or at once if that is not a finite positive delay; the history stays legal |
| Timers.TimerWheel.SetInterval | crates/aardvark-core/src/js/polyfills.js:999-1013 | the same for intervals, which keep that delay |
| Timers.TimerWheel.ClearTimeout | crates/aardvark-core/src/js/polyfills.js:995-997 | only a pending timeout is cleared |
| Timers.TimerWheel.NextDelay | crates/aardvark-core/src/js/polyfills.js:963-976 | the least remaining delay over both maps, never negative, nothing if nothing is pending |
| TimerLog.TimeoutsFireInTime | crates/aardvark-core/src/js/polyfills.js:1033-1039 | in every history a timeout that fires was set, once, before that pump began and due by then, with at least the delay asked for between, and has neither fired nor been cleared before |
| TimerLog.IntervalsFireInTime | crates/aardvark-core/src/js/polyfills.js:1040-1052 | an interval that fires was due, by the due time it was last given, when the pump began, at least the delay asked for when it was set after it was given it, was not cleared, and fires at most once in a pump |
| TimerLog.ExactlyOneFate | crates/aardvark-core/src/js/polyfills.js:979-1039 | every timeout that was set is exactly one of pending, fired once, cleared once |
| ModuleCompile.ModuleGraph.Compile | crates/aardvark-core/src/engine/modules.rs:19-83 | wherever the recursion ends, cyclic imports included: does in place what the depth-bounded compile function says; what it caches is what the assets compile to and is reached from the specifier |
| ModuleCompile.SuccessKeepsComplete | crates/aardvark-core/src/engine/modules.rs:69-82 | a success leaves a cache in which everything imported is cached, if it was so before |
| ModuleCompile.SucceedsExactly | crates/aardvark-core/src/engine/modules.rs:27-61 | success if and only if everything reached that was not cached can be loaded |
| ModuleCompile.CachesExactlyReached | crates/aardvark-core/src/engine/modules.rs:62-80 | on success the new modules are exactly the uncached specifiers reached |
| ModuleCompile.FailureKeepsCompleteExactly | crates/aardvark-core/src/engine/modules.rs:63-77 | after a failure the cache is complete if and only if the specifier asked for could itself not be loaded; otherwise asking again succeeds from the cache |
| ModuleCompile.CallbackResolves | crates/aardvark-core/src/engine/modules.rs:126-169 | in a complete cache with distinct identity hashes the callback finds every import |
| ModuleLimits.CollisionMisleads | crates/aardvark-core/src/engine/modules.rs:145-157 | with colliding hashes the callback misses an import that is cached |
| ModuleCompile.FiniteReachEnds | crates/aardvark-core/src/engine/modules.rs:24-26 | compilation ends if the uncached specifiers it reaches lie in a finite set, at a depth of at most their number |
| ModuleCompile.EndsExactly | crates/aardvark-core/src/engine/modules.rs:24-80 | where everything reached can be loaded, compilation ends if and only if finitely many uncached specifiers are reached |
| ModuleLimits.NeverReturns | crates/aardvark-core/src/asset_store.rs:53-57 | one asset and the last-segment fallback suffice for a program whose compilation never returns |
| ModuleLimits.SecondCallSucceeds | crates/aardvark-core/src/engine/modules.rs:62-80 | a module whose import is missing: the first call fails and leaves it cached, the second call succeeds from the incomplete cache |
| EsModules.ResolveSpecifier | crates/aardvark-core/src/engine/modules.rs:171-192 | the loop computes the resolution that ResolvesExactly states over the strings |
| EsModules.WalkIsRelative | crates/aardvark-core/src/engine/modules.rs:180-188 | a walk drops as many segments of its start as it climbs above the top, at most all, and appends what it reaches from the top |
| EsModules.ResolvedIsClean | crates/aardvark-core/src/engine/modules.rs:171-190 | from a base with a clean directory a relative request leads to clean segments only |
| EsModules.DirectoryIsAllButLast | crates/aardvark-core/src/engine/modules.rs:173-179 | the base's directory is all its segments but the last |
| ModuleSpecifiers.ResolvesExactly | crates/aardvark-core/src/engine/modules.rs:171-192 | a request whose first of several segments is `.` or `..` leads to the base's segments without the last, less one for each level the request ever goes above them, followed by the names it never climbs back out of; any other request is its own answer |
| ModuleSpecifiers.ResolvesToNothing | crates/aardvark-core/src/engine/modules.rs:180-189 | a relative request that leaves no segment leads to the empty specifier |
| ModuleSpecifiers.RelativeByFirstSegment | crates/aardvark-core/src/engine/modules.rs:172 | a request is relative if and only if its first segment is `.` or `..` and a slash follows |
| ModuleSpecifiers.FindsNearest | crates/aardvark-core/src/asset_store.rs:43-59 | an asset is found under its own name first, then under the name a leading `./` hides, then under the bare file name, and otherwise not at all |
| PackageNames.CanonicalizePackageName | crates/aardvark-cli/src/overlay/catalog.rs:49-66 | the loop computes the canonical form |
| PackageNames.CanonicalizeIsIdempotent | crates/aardvark-cli/src/overlay/catalog.rs:49-66 | results are canonical; a name is left alone if and only if it is canonical; twice is once |
| PackageNames.CanonicalPackageName | perf/runner/src/host.rs:257-272 | the loop computes the host's form of a name |
| PackageNames.WordStays | crates/aardvark-cli/src/overlay/catalog.rs:53-56 | in both forms letters and digits stay, in lower case |
| PackageNames.GapBecomesDash | crates/aardvark-cli/src/overlay/catalog.rs:57-64 | the catalog's form: any run of dashes, underscores and dots between words becomes one dash, and none is left at the end |
| PackageNames.OddIsDropped | crates/aardvark-cli/src/overlay/catalog.rs:54-60 | the catalog's form: any other character makes no difference |
| PackageNames.HostGapBecomesDash | perf/runner/src/host.rs:261-265 | the host's form: any run of separators becomes one dash wherever it stands |
| PackageNames.HostKeepsOthers | perf/runner/src/host.rs:266-269 | the host's form: any other character stays, ASCII capitals in lower case |
| PackageNames.FormsAgreeExactly | perf/runner/src/host.rs:257-272 | the host's form and the catalog's agree on a name if and only if it consists of ASCII letters, digits and separators and does not end in a separator |
| Lockfile.TerminatesExactlyIfAcyclic | crates/aardvark-cli/src/overlay/catalog.rs:89-102 | the walk ends if and only if no chain of known dependencies from the request repeats a package |
| Lockfile.ListedExactly | crates/aardvark-cli/src/overlay/catalog.rs:82-111 | the list has no duplicates, has each package after its known dependencies, and is exactly what can be reached through known packages |
| Lockfile.ResolveLockfileRequirements | crates/aardvark-cli/src/overlay/catalog.rs:82-111 | the same, of the walk performed in place, on acyclic lockfiles |
| Lockfile.Walk.VisitPackage | crates/aardvark-cli/src/overlay/catalog.rs:83-103 | one visit, in place, does what the depth-bounded visit function says |
| LockfileOrder.ListsInTurn | crates/aardvark-cli/src/overlay/catalog.rs:105-110 | the order of the list: for one name more it is the list so far and then what that name alone would list, less what is there already |
| LockfileOrder.ListsDependenciesFirst | crates/aardvark-cli/src/overlay/catalog.rs:97-102 | a known name lists what its dependencies list, in turn, and then itself; an unknown one nothing |
| LockfileOrder.NotAmongItsOwn | crates/aardvark-cli/src/overlay/catalog.rs:100-102 | a package is never listed while its own dependencies are walked, so the second look at the marks is without effect |
| HostPackages.Closure.Collect | perf/runner/src/host.rs:174-233 | terminates on every dependency graph and every lockfile; the list, or the failure, is that of the preorder walk; keys, marks and lines tell the same story |
| HostPackages.Closure.CollectAll | perf/runner/src/host.rs:134-137 | the same for the requested names in turn, through shared marks |
| HostPackages.SucceedsExactly | perf/runner/src/host.rs:181-228 | with keys unique up to canonical form: success if and only if every name resolves and everything reached has a version and only string dependencies that resolve |
| HostPackages.ListsExactly | perf/runner/src/host.rs:174-233 | with keys unique up to canonical form: on success each package of the transitive closure of the names is listed exactly once, the first requested one first, each line with the declared name, or the key without one, and the declared version |
| HostPackages.ResolvesToFirst | perf/runner/src/host.rs:235-255 | a request that is a key resolves to itself; any other to the first key in order whose form, or whose declared name's form, is the request's, and to nothing if there is none |
| HostListing.ListedUpToSpelling | perf/runner/src/host.rs:174-233 | on any lockfile: each key listed is what some name resolves to or is required by a key listed earlier; every listed package is sound, and what the names and the dependencies resolve to is listed in some spelling |
| PackageClosures.WalksAgreeExactly | crates/aardvark-cli/src/overlay/catalog.rs:49-111 | a spelling decides: on all well-named acyclic lockfiles whose other names in use have agreeing forms, the host's walk succeeds exactly on what is complete for the overlay and reaches the same packages, if and only if the two forms of the spelling agree |
| PackageClosures.PairDisagrees | perf/runner/src/host.rs:235-272 | for every spelling whose forms differ: a lockfile of two packages on which the overlay lists both and the host's walk fails |
| PackageClosures.SamePackages | crates/aardvark-cli/src/overlay/catalog.rs:82-111 | on an acyclic lockfile with canonical keys, where the forms of the requested names and of the dependencies of packages reached agree, both walks list the same packages |
| PackageClosures.BothClosures | perf/runner/src/host.rs:174-233 | both walks performed one after the other on such a lockfile: the host's succeeds if and only if the overlay knows all names requested and all packages it lists are complete, and then both end with the same packages |
| PackageClosures.ListsDiffer | perf/runner/src/host.rs:235-272 | where a key is not canonical, a dependency spelled with a trailing separator leads the two walks to different packages although both succeed: each list has one that the other lacks |
| PackageClosures.LookupsAgree | perf/runner/src/host.rs:235-255 | where the forms of a name agree, the host's lookup, exact or by canonical name, finds the canonical key, or nothing if there is none |
| BundlePaths.NormalizeEntryPath | crates/aardvark-core/src/bundle.rs:279-320 | succeeds if and only if the name is relative, no prefix has more `..` than names and something is left; the result is lexical resolution; traversal is reported exactly when a prefix climbs out |
| BundlePaths.NormalizedIsFixed | crates/aardvark-core/src/bundle.rs:279-320 | a result has no `.`, `..` or empty segment and normalises to itself |
| BundlePaths.StackIsSurvivors | crates/aardvark-core/src/bundle.rs:289-314 | lexical resolution without a stack, also of paths that climb above their start: exactly the names the path never climbs back out of |
| BundleReader.FromReader | crates/aardvark-core/src/bundle.rs:121-184 | accepted if and only if the records are few enough, all open, every file fits beside those before it, and there is one; then it holds all files |
| BundleReader.AcceptedBundleIsBounded | crates/aardvark-core/src/bundle.rs:121-184 | every accepted bundle has normalised names, each file within the entry limit and their sum within the total limit, whatever sizes the archive declares |
| BundleReader.ReadZipFile | crates/aardvark-core/src/bundle.rs:248-266 | reading one byte past the limit decides exactly whether the stream fits |
| BundleReader.ReadEntry | crates/aardvark-core/src/bundle.rs:141-174 | one file is kept if and only if it fits beside the bytes kept before |
| BundleFingerprint.OrderDoesNotMatter | crates/aardvark-core/src/bundle.rs:192-206 | bundles with distinct paths and the same files hash the same bytes in whatever order they list them |
| BundleFingerprint.OrderMattersForDuplicates | crates/aardvark-core/src/bundle.rs:200-206 | two different files under one path, of whatever lengths and among whatever other files, are hashed differently when listed the other way round |
| BundleFingerprint.OrderDoesNotMatterExactly | crates/aardvark-core/src/bundle.rs:192-206 | all reorderings of a list of entries hash the same bytes if and only if entries that share a path have equal data |
| BundleFingerprint.HashInput | crates/aardvark-core/src/bundle.rs:192-206 | the loop feeds the hasher path, length and data of the entries sorted by path |
| BundleFingerprint.ChunkParts | crates/aardvark-core/src/bundle.rs:201-205 | what one entry feeds the hasher: the bytes of the path, then eight bytes whose value, each weighing 256 times the one before, is the length of the data, then the data |
| BundleFingerprint.PathLessIsLexicographic | crates/aardvark-core/src/bundle.rs:200 | one path sorts before another if and only if they agree up to a place where it ends or has the smaller character |
| OverlayEviction.EnforceOverlayCachePolicy | crates/aardvark-cli/src/overlay/cache.rs:146-258 | what is gone afterwards is exactly the removable expired blobs and then what the size pass takes; bytes and files on disk before are those after plus the statistics |
| OverlayEviction.EvictOldest | crates/aardvark-cli/src/overlay/cache.rs:232-254 | oldest first until the rest fits; refusals are passed over; the tracked total is always the bytes of tracked files still on disk, so the subtraction never saturates |
| OverlayCache.Scan | crates/aardvark-cli/src/overlay/cache.rs:171-230 | the scan with its age pass: removable expired blobs go and are counted, unexpired ones are tracked |
| OverlayCache.RemovingFrees | crates/aardvark-cli/src/overlay/cache.rs:207-210 | removing a listed file takes exactly its bytes off the disk total |
| OverlayEviction.SortedIsStable | crates/aardvark-cli/src/overlay/cache.rs:235 | the order is by modification time, equal times keep their order, nothing is lost or doubled |
| OverlayLimits.EndsWithinLimitExactly | crates/aardvark-cli/src/overlay/cache.rs:236-254 | the pass ends within its limit if and only if the tracked files that refuse removal fit in it; otherwise they are all that is left |
| OverlayLimits.ShortestPrefixGoes | crates/aardvark-cli/src/overlay/cache.rs:234-254 | with no refusals exactly the shortest run of oldest files goes that brings the rest within the limit |
| OverlayLimits.OldestGoFirst | crates/aardvark-cli/src/overlay/cache.rs:235-243 | a file that goes is not younger than any removable file that stays |
| OverlayLimits.OnlyBlobsGo | crates/aardvark-cli/src/overlay/cache.rs:181-217 | only archive files go; an expired one stays if and only if it refuses removal |
| OverlayOutcome.TooOldGoes | crates/aardvark-cli/src/overlay/cache.rs:200-218 | from metadata and clock alone: an archive older than the limit is left if and only if it refuses removal, and without a limit on the size every other archive stays |
| OverlayOutcome.YoungerStays | crates/aardvark-cli/src/overlay/cache.rs:200-218 | with a limit on the age only, whatever goes was written before every removable archive that stays |
| OverlayOutcome.FitsExactly | crates/aardvark-cli/src/overlay/cache.rs:232-254 | the archives within the age limit end within the limit on the size if and only if those that refuse removal fit in it; otherwise only those are left |
| OverlayOutcome.OlderGoesFirst | crates/aardvark-cli/src/overlay/cache.rs:219-243 | no archive within the age limit goes while a removable one written before it stays; times before the epoch count as the epoch |
| OverlayOutcome.NoneTooMany | crates/aardvark-cli/src/overlay/cache.rs:236-246 | if an archive within the age limit goes, one of those that went would not have fitted beside what is left |
| OverlayOutcome.StatisticsAreExact | crates/aardvark-cli/src/overlay/cache.rs:204-209 | the statistics are the number of files that went and their bytes |

## Left out

- RegistryRaces.SharedServingExactly: callers that remove or clear are left out of it; `RegistryRaces.RemovedWhileBuilding` shows that removal breaks the promise under any limits. `ready_host_for_bytes` and `remove_for_bytes` are two steps each, and both orders of the steps of different callers are covered.
- RegistryArtifacts.MixedRunsExactly: an artifact is what the caller hands in; hosts asked for by an artifact whose key no cached payload has are left out of the runs, because one such call breaks the promise if any payload has the key at all (`RegistryArtifacts.HostOfLosesExactly`).
- RegistryProtocol: `generation` is unbounded; after 2^64 clears the counter of the source wraps around.
- Builder panics: a construction returns success or failure; a panic would leave its slot behind.
- Digests: a payload is identified with its digest, so hash collisions are not modelled. Failure to serialise a descriptor is not modelled either.
- Pool handles: they are the set of runtimes out on loan; that a handle is dropped once is the language's guarantee, not proved here.
- CloneProperties: typed arrays and data views, holes and lengths of arrays, prototypes, getters and a key named `__proto__` are not modelled; the copy keeps own enumerable keys in their order.
- Timers: callbacks that throw or that call the pump themselves, a clock that goes backwards, and the scheduling of pumps by microtasks are not modelled. Times are real numbers, not doubles.
- Base64: `String(input)` conversion of other values; strings are sequences of 16-bit code units.
- ModuleCompile.ModuleGraph.Compile: modelled where the recursion ends. `ModuleCompile.EndsExactly` says when it does if everything reached can be loaded; otherwise `ModuleCompile.FiniteReachEnds` is sufficient only, since compilation also ends when it meets an unloadable module before an endless branch. V8's compiler is a function of specifier and source, and failures to allocate strings are not modelled.
- ModuleCompile.CallbackResolves: V8's identity hashes are assumed distinct, and `ModuleLimits.CollisionMisleads` shows what happens otherwise. Instantiation and evaluation are foreign calls.
- Lockfile.ResolveLockfileRequirements: modelled on acyclic lockfiles only; on the others the source does not return, by `Lockfile.TerminatesExactlyIfAcyclic`.
- HostPackages.Closure.Collect: after a failure the marks may be ahead of the list, and the caller drops both.
- HostPackages.ListsExactly: needs keys that are unique up to their canonical form; of two spellings of one name only the one met first is listed. `HostListing.ListedUpToSpelling` is what holds of the list on any lockfile.
- PackageClosures.SamePackages: needs names on which the two normalisations agree, which `PackageClosures.WalksAgreeExactly` shows to be necessary, and canonical keys.
- BundlePaths.NormalizeEntryPath: Unix path components; drive prefixes and backslashes of Windows are not modelled.
- BundleReader.FromReader: archives are sequences of records with declared and actual sizes; the limit on the archive's own bytes and the ZIP format are not modelled.
- BundleFingerprint.HashInput: BLAKE3 and UTF-8 are uninterpreted; nothing is claimed about different bundles having different hash inputs, because paths are not length-prefixed.
- OverlayEviction.EnforceOverlayCachePolicy: other processes that change the directory meanwhile are modelled only as files that refuse removal; sums are unbounded, which 128 bits cannot be told from with fewer than 2^64 files.
- `BundlePool` scheduling, invocation across V8 and Pyodide, telemetry, the watchdog, command lines, manifests and the parsing of configuration are outside this model.
