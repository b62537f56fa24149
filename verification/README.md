# Verified model of ores-middleware

A Dafny model of the parts of ores-middleware that keep state or run an algorithm: the rate
limiters, the consumer order validator, graceful shutdown, the hardened stage pipeline with its
breaker registry and header admission, the TypeSpec / JSON Schema convergence run, the closed
order profiles, the manifest compiler's target resolution, and the rational refill.
`dafny verify dfyconfig.toml` checks everything.

## How the files fit together

- `LimiterSpec`, `LimiterRuns`: the simple limiter (full idle scan, exact LRU list, one plain bucket
  per key) and what callers observe over whole runs. `LimiterHistory`: its store and its decisions
  from the requests alone. `TokenBucket`: the Rust store with its queue of stale pairs, proved to
  behave like the simple limiter. `GoTokenBucket`, `GoHistory`: the Go limiter, its history, and
  exactly when the two limiters cannot be told apart.
- `OrderGraph`, `ConsumerOrder`, `StringOrder`: Kahn's algorithm over the active rules, the positional
  checks, what an empty issue list means, and when each issue is in it.
- `DrainProtocol`: shutdown as interleaved steps, with safety and return of every drainer over all
  runs. `DrainHistory`: admissions, phases and reports from the actions alone.
  `ShutdownCoordinator`: the same critical sections as objects with channels, and every run of
  the protocol carried out on them.
- `StageProblem`, `StagePipeline`, `BreakerRegistry`, `HeaderAdmission`, `HttpBytes`: the hardening
  layer. `BreakerHistory`: who has which breaker, and the counters, from the calls alone.
- `SchemaModel`, `JsonWitness`, `TypeSpecWitness`, `Text`: the model, both printers and both readers.
  `JsonRoundTrip`, `JsonTheorem`: which models the JSON witness carries. `JsonMeaning`,
  `JsonRefusals`, `JsonText`: which documents are read, as what, and why others are not; what JSON
  text denotes. `TypeSpecGrammar`, `TypeSpecBodies`: the reader's patterns as the texts they match.
  `TypeSpecLines`, `TypeSpecScan`, `TypeSpecBlocks`: how those patterns search a text for declarations.
  `TypeSpecParsed`: what the reader can return. `TypeSpecRoundTrip`, `TypeSpecDocument`,
  `TypeSpecKeys`, `TypeSpecHeader`, `TypeSpecSearch`, `TypeSpecTheorem`: what it makes of every printed
  model, and which models survive; `TypeSpecFailures`: inputs that do not. `CrossTranslation`: the
  convergence run, from models and from the authorities' texts.
- `ReferenceOrder`, `ManifestTargets`, `RationalRefill`: three smaller components. `ManifestMeaning`,
  `PortablePath`: what manifests are accepted, what resolves to what, and which paths are portable.

Time and tokens are exact reals, time in milliseconds. Each lock section is one step. Where code
and its comments differ, the code is modelled. Lower-casing of field names, and which characters
beyond ASCII count as letters in a pattern, are parameters: the results hold whatever they are.

## What turned out not to hold

- Forgetting idle keys is not always invisible. It is exactly when a bucket refills completely within
  the time to live (`TtlUnobservableIff`); otherwise two bursts of `capacity` requests one time to live
  apart separate the limiters (`Distinguished`).
- A model without a primary key or without unique groups cannot be read back from the TypeSpec
  witness, although the JSON side accepts it: the metadata pattern's white space runs across line
  breaks, so an empty value takes the next text of the file (`NoKeysUnreadable`). An empty group is
  dropped (`EmptyGroupLost`).
- An enum value that JSON has to escape comes back escaped (`AccentRespelled`), unless it holds a
  quotation mark: then, as with an empty value, reading fails (`QuoteUnreadable`, `MemberRead`).
- The reader's patterns search the whole text, so an enum value or a table that holds `model X {`
  makes a second model and reading fails (`SecondModelUnreadable`); a brace alone does no harm
  (`BraceSurvives`).
- Exactly these models survive: names are identifiers and types known, the table is one trimmed line,
  there are keys and no empty group, JSON shows every enum value as it is, no free text declares a
  model, and enums declared in the table are complete (`TypeSpecRoundTripsIff`). Only they let the
  run pass (`RunPassesIff`).
- Canonical forms do not tell all models apart: `aB` and `a_b` share a column (`CamelExample`).
  They do exactly when no two fields share one (`CanonicalFaithfulIff`).
- The default order validator does not look at quota admission: it accepts it anywhere after the
  panic boundary, even behind the handler (`QuotaAnywhere`, `QuotaLast`, `DefaultAcceptsIff`).
- Finalizers of entered stages do not always run: a panic in the handler, which is awaited in the
  execution's own task, leaves without any (`PanicSkipsFinalizers`). They run exactly when the
  handler, if reached, returns (`FinalizedIff`).

## Model

| member | source | states |
|---|---|---|
| LimiterSpec.RunKeepsBound | src/rust/src/integrations.rs:303-312 | over every run the store holds at most max_entries buckets, and its list names exactly the live keys once each |
| LimiterRuns.MillisecondsUntilExact | src/rust/src/integrations.rs:433-441 | below the 64-bit clamp the reported wait is the least whole number of milliseconds that suffices |
| LimiterRuns.AdmissionBound | src/rust/src/integrations.rs:316-350 | in any window of any run a key is admitted at most one capacity per life of its bucket plus refill times the window; with no removal, capacity plus refill times the window |
| LimiterRuns.RetryAfterExact | src/rust/src/integrations.rs:329-339 | after a denial with wait r, whatever other keys do, the request is allowed from r on; up to r - 1 it is allowed exactly if its bucket was forgotten |
| LimiterRuns.ResetAfterExact | src/rust/src/integrations.rs:340-343 | a bucket left alone is full from the reported reset on and not one millisecond earlier |
| LimiterRuns.RemainingIsBurst | src/rust/src/integrations.rs:334-334 | the reported remainder is the number of unit requests, up to 32 bits, that would still be allowed at once |
| LimiterRuns.Burst | src/rust/src/integrations.rs:329-333 | n unit requests at one instant are all allowed exactly when the bucket holds n tokens |
| LimiterRuns.OrderIsHistory | src/rust/src/integrations.rs:314-351 | in every run the recency list is sorted by the last well-formed use of each key |
| LimiterRuns.EvictsLeastRecentlyUsed | src/rust/src/integrations.rs:471-483 | in every run the key evicted for room is the one used longest ago among those not idle, and it is the only one |
| LimiterHistory.StoreIsHistory | src/rust/src/integrations.rs:303-352 | after every run the store holds exactly the keys that the requests alone say: used less than the time to live before, with fewer than max_entries other keys since, each as of its last use |
| LimiterHistory.FoundIff | src/rust/src/integrations.rs:303-325 | a request finds the bucket of its key if and only if that key was used less than the time to live ago and fewer than max_entries keys since |
| LimiterHistory.AllowedIffEveryWindow | src/rust/src/integrations.rs:316-340 | while a bucket is neither forgotten nor evicted, a request of any cost is allowed if and only if in every window up to now what was admitted plus its cost is at most the capacity plus refill times the window |
| LimiterHistory.CostIsUnits | src/rust/src/integrations.rs:329-333 | a request is allowed if and only if as many unit requests as its cost would all be, both then leave the same bucket; a denial leaves the tokens |
| LimiterHistory.HintsPresent | src/rust/src/integrations.rs:334-352 | a well-formed request has a wait exactly when it is denied and always a reset time |
| LimiterHistory.RefusedIff | src/rust/src/integrations.rs:281-297 | which bounds and requests are refused, and as what; the store stays as it was and saturation never happens |
| TokenBucket.QueuedOnce | src/rust/src/integrations.rs:242-253 | a live bucket's current (key, generation) occurs exactly once in the queue |
| TokenBucket.InMemoryTokenBucket.WithBounds | src/rust/src/integrations.rs:262-272 | a new limiter is valid and empty, at its first generation and at the time it was made |
| TokenBucket.InMemoryTokenBucket.PurgeExpired | src/rust/src/integrations.rs:449-469 | popping the queue's front leaves what a full scan for idle keys would leave |
| TokenBucket.InMemoryTokenBucket.EvictOne | src/rust/src/integrations.rs:471-483 | skipping stale pairs removes exactly the least recently used key, and succeeds unless the store is empty |
| TokenBucket.InMemoryTokenBucket.MakeRoom | src/rust/src/integrations.rs:303-312 | the eviction loop always makes room, so the saturated error is unreachable |
| TokenBucket.InMemoryTokenBucket.Draw | src/rust/src/integrations.rs:316-352 | refill, charge and hints are those of the plain bucket |
| TokenBucket.InMemoryTokenBucket.Store | src/rust/src/integrations.rs:325-351 | writing a bucket back under a new generation moves its key to the recent end and keeps the queue's generations increasing |
| TokenBucket.InMemoryTokenBucket.ConsumeLocked | src/rust/src/integrations.rs:274-353 | one request gives the outcome and the store of the simple limiter, errors included, and is never saturated |
| TokenBucket.InMemoryTokenBucket.Serve | src/rust/src/integrations.rs:274-353 | any run of requests gives, outcome by outcome, the simple limiter's run, and leaves a limiter that can go on |
| TokenBucket.ServeNew | src/rust/src/integrations.rs:262-353 | batches of requests to a new limiter get the outcomes of one run of the simple limiter from the empty store |
| GoTokenBucket.OpenedTidy | src/golang/integrations.go:102-113 | after a bucket is opened the list still names exactly the buckets, within the bound |
| GoTokenBucket.MemoryTokenBucket.constructor | src/golang/integrations.go:89-96 | a new limiter is valid and empty |
| GoTokenBucket.MemoryTokenBucket.MakeRoom | src/golang/integrations.go:106-111 | a full map loses its oldest bucket and no other; a place is free afterwards and the list stays in step with the map |
| GoTokenBucket.MemoryTokenBucket.AllowLocked | src/golang/integrations.go:98-125 | decision and new store are those of the bucket function; the invariant is kept |
| GoTokenBucket.GoBurst | src/golang/integrations.go:114-122 | n unit requests at once are all allowed only from n tokens |
| GoHistory.OrderIsEntry | src/golang/integrations.go:102-113 | after every run the list holds the keys in the order in which they last entered |
| GoHistory.EvictsFirstEntered | src/golang/integrations.go:106-111 | over every run the bucket given up is the one that entered before all others, and only a new key meeting a full map costs one |
| GoHistory.GoAllowedIffEveryWindow | src/golang/integrations.go:98-125 | while a bucket is not evicted, a request is allowed if and only if every window has room for one more |
| GoTokenBucket.StepRelated | src/golang/integrations.go:98-125 | from related stores both limiters decide a unit request alike and stay related |
| GoTokenBucket.Distinguished | src/rust/src/integrations.rs:449-469 | if a bucket cannot refill within the time to live, two bursts separate the limiters |
| GoTokenBucket.TtlUnobservableIff | src/rust/src/integrations.rs:449-469 | both limiters decide every comparable run alike if and only if ttl times refill is at least the capacity |
| OrderGraph.LeftoverExact | src/rust/src/composition.rs:279-301 | the nodes left are exactly those on a cycle or reachable from one; none are left if and only if there is no cycle |
| OrderGraph.BuildGraph | src/rust/src/composition.rs:266-272 | in-degrees count the edges into each node and successor lists name each successor once |
| OrderGraph.Sources | src/rust/src/composition.rs:274-277 | the queue starts with exactly the nodes of in-degree zero |
| OrderGraph.Release | src/rust/src/composition.rs:281-291 | every target is known, no in-degree underflows, and exactly the nodes that become free are queued |
| OrderGraph.Kahn | src/rust/src/composition.rs:266-302 | every node is visited if and only if there is no cycle; the nodes with positive degree are those behind a cycle |
| StringOrder.Sorted | src/rust/src/composition.rs:228-229 | the elements of a set, each once, ascending |
| StringOrder.LessIff | src/rust/src/composition.rs:228-229 | one string comes before another if it is a proper prefix or smaller at the first difference |
| ConsumerOrder.ActiveOrderCycleIssue | src/rust/src/composition.rs:246-311 | reports a cycle if and only if the valid rules with both stages present have one, naming the stages on or behind it |
| ConsumerOrder.PositionsEnds | src/rust/src/composition.rs:337-343 | first and last recorded position of a name bound all its occurrences |
| ConsumerOrder.PositionalCheckExact | src/rust/src/composition.rs:402-431 | the last-before-first test holds if and only if every before precedes every after, and both are present when required |
| ConsumerOrder.CycleBreaksRule | src/rust/src/composition.rs:402-431 | every cycle of active rules runs through a rule the positional check reports |
| ConsumerOrder.CycleComesWithRule | src/rust/src/composition.rs:433-441 | a cycle issue never comes without a rule issue |
| ConsumerOrder.ShapeExact | src/rust/src/composition.rs:170-244 | no shape issue if and only if selectors are not blank, rules are valid and nothing asked for is forbidden |
| ConsumerOrder.SelectionExact | src/rust/src/composition.rs:345-400 | no selection issue if and only if required, forbidden, unique and first hold |
| ConsumerOrder.AcceptsIff | src/rust/src/composition.rs:325-442 | the issue list is empty if and only if the sequence meets the policy's declarative meaning |
| ConsumerOrder.IssueIff | src/rust/src/composition.rs:170-442 | each kind of issue, with its stage, code, message and severity, is in the list if and only if what it says is so |
| ConsumerOrder.ValidateConsumerMiddlewareOrder | src/rust/src/composition.rs:325-442 | shape, selection, rule and cycle issues in that order; none if and only if the sequence meets the policy |
| ConsumerOrder.ValidateRuntimeMiddlewarePlan | src/rust/src/composition.rs:480-510 | empty if and only if the running stages are the declared ones, none blank, and they meet the policy; every issue is a blank declared stage, the drift, or one whose statement about the running stages holds, and all of those are in it |
| DrainProtocol.StepKeepsInv | src/golang/shutdown.go:104-230 | every step of every participant keeps the invariant |
| DrainProtocol.RunKeepsInv | src/golang/shutdown.go:104-230 | over every run the phase never goes back and a drained coordinator stays drained |
| DrainProtocol.SafetyOfEveryRun | src/golang/shutdown.go:104-151 | in every interleaving active equals the leases begun and not finished, neither panic is reached, and only the current channel is open |
| DrainProtocol.NoLostWakeup | src/golang/shutdown.go:171-201 | a drainer asleep on an open channel would see, if it looked again, what it saw before it slept |
| DrainProtocol.ReportsAreFinal | src/golang/shutdown.go:153-201 | after Completed nothing is ever active or admitted again; after a forced or timed-out drain the phase stays Forced |
| DrainProtocol.DrainersReturn | src/golang/shutdown.go:171-201 | once nothing is active or shutdown is forced, every drainer can step and returns after two steps of its own |
| DrainHistory.AdmitsIff | src/golang/shutdown.go:104-113 | after every run a request adds one held lease and one to the count if no shutdown, drain or force was begun, and otherwise changes nothing |
| DrainHistory.RunningIff | src/golang/shutdown.go:131-140 | the phase is running if and only if nothing in the run began to stop |
| DrainHistory.ForcedIff | src/golang/shutdown.go:142-198 | the phase is forced if and only if the run holds a force, or a timer that fired with requests active |
| DrainHistory.CallsAnswer | src/golang/shutdown.go:104-151 | what begin, start-draining and force answer, from the history |
| DrainHistory.StartIsCount | src/golang/shutdown.go:156-170 | what a drainer took as active at its start is what was outstanding when it first looked |
| DrainHistory.ReportExact | src/golang/shutdown.go:153-201 | whether a drain reports completed, forced or timed out, what remained, and how many were active at its start, from the history |
| ShutdownCoordinator.Coordinator.constructor | src/golang/shutdown.go:76-81 | a new coordinator is running with one open channel |
| ShutdownCoordinator.Coordinator.NotifyLocked | src/golang/shutdown.go:227-230 | closes an open channel and makes a fresh one current |
| ShutdownCoordinator.Coordinator.BeginLocked | src/golang/shutdown.go:104-113 | the protocol's begin step |
| ShutdownCoordinator.Coordinator.StartDrainingLocked | src/golang/shutdown.go:131-140 | the protocol's start-draining step; channels are only added, as new objects |
| ShutdownCoordinator.Coordinator.ForceShutdownLocked | src/golang/shutdown.go:142-151 | the protocol's force step; channels are only added, as new objects |
| ShutdownCoordinator.Coordinator.DrainEnterLocked | src/golang/shutdown.go:156-166 | the protocol's first look; it changes nothing |
| ShutdownCoordinator.Coordinator.DrainCheckLocked | src/golang/shutdown.go:172-183 | the protocol's look in the loop, handing out the current channel |
| ShutdownCoordinator.Coordinator.DrainTimeoutLocked | src/golang/shutdown.go:188-198 | the protocol's timeout step; channels are only added, as new objects |
| ShutdownCoordinator.DrainLease.FinishOnce | src/golang/shutdown.go:115-129 | the first call is the protocol's finish step, later calls change nothing; channels are only added, as new objects |
| ShutdownCoordinator.Service.Section | src/golang/shutdown.go:153-201 | each critical section of a call of Drain is the drainer's step of the protocol |
| ShutdownCoordinator.Service.Act | src/golang/shutdown.go:104-201 | any one action, taken on the objects, is the protocol's step |
| ShutdownCoordinator.Perform | src/golang/shutdown.go:76-201 | every interleaving of requests, drains and shutdowns, carried out on the objects, is the protocol's run |
| StageProblem.ValidateStageAttributes | src/rust/src/hardening.rs:172-212 | accepts exactly the attribute maps within the count, key, value and total bounds |
| StageProblem.AttributeBytesAdd | src/rust/src/hardening.rs:180-210 | the total is the sum of key and encoded value sizes |
| StageProblem.ProblemIsClean | src/rust/src/hardening.rs:230-310 | whatever a stage supplies, the problem sent out has a clean code and request id, allowlisted headers, and the two fixed ones |
| StageProblem.ProblemExact | src/rust/src/hardening.rs:230-310 | the one problem there is: a clean code and request id go out unchanged, every last safe header with its value, anything else replaced or dropped |
| StageProblem.RateLimitedAnswered | src/rust/src/hardening.rs:266-310 | a rate-limited rejection keeps its code and its retry-after |
| StagePipeline.DescendExact | src/rust/src/hardening.rs:540-609 | stages are asked in order, each with what the one before passed on; exactly the asked stages that did not fail are entered, with the input their finalizer sees |
| StagePipeline.EndingExact | src/rust/src/hardening.rs:545-612 | the last stage asked decides the answer: its own response, the problem of its rejection with its status, code and headers, or the problem of its failure; the handler is reached only if every stage passed the request on |
| StagePipeline.AskStages | src/rust/src/hardening.rs:541-609 | the stage loop computes the descent |
| StagePipeline.ProgressExact | src/rust/src/hardening.rs:669-697 | each finalizer gets the composition of the successful ones before it, or the problem of the first that failed closed |
| StagePipeline.UnwindHardened | src/rust/src/hardening.rs:661-703 | one finalizer call and one event per entry, last entered first, and the resulting response |
| StagePipeline.FinalizersReversed | src/rust/src/hardening.rs:522-613 | unless the handler panics, the finalizers of exactly the entered stages run once each in reverse on what their stage passed on, each event saying what became of it; a failed stage adds one event and no finalizer; the response is what they made of the answer |
| StagePipeline.FinalizedIff | src/rust/src/hardening.rs:611-612 | entered stages are finalized if and only if the handler, when it is reached, returns |
| StagePipeline.PanicSkipsFinalizers | src/rust/src/hardening.rs:611-612 | a stage that passes the request on to a panicking handler is entered and never finalized |
| StagePipeline.HandlerAtMostOnce | src/rust/src/hardening.rs:611-612 | the handler is called at most once, last, with what the last stage passed on, and exactly when every stage passed the request on |
| StagePipeline.GivenUnique | src/rust/src/hardening.rs:661-703 | what a finalizer is given, and the final response, are determined |
| StagePipeline.Execute | src/rust/src/hardening.rs:522-613 | for any stages and behaviours, a panicking handler included: requests, handler, finalizers, events and response as described |
| BreakerRegistry.VictimUnique | src/rust/src/hardening.rs:819-828 | there is one minimum by last use and key |
| BreakerRegistry.FindVictim | src/rust/src/hardening.rs:819-828 | finds that minimum |
| BreakerRegistry.CircuitBreakerRegistry.constructor | src/rust/src/hardening.rs:779-798 | a new registry holds nothing and has evicted nothing |
| BreakerRegistry.CircuitBreakerRegistry.GetOrInsert | src/rust/src/hardening.rs:800-842 | expiry, reuse, eviction of the unique minimum, and creation, with the counters |
| BreakerRegistry.StepFrame | src/rust/src/hardening.rs:800-842 | other keys keep their entry or lose it to expiry or eviction |
| BreakerRegistry.Conservation | src/rust/src/hardening.rs:800-842 | every run, with any clock, keeps every breaker accounted for |
| BreakerRegistry.EveryRunConserves | src/rust/src/hardening.rs:779-842 | over every run from a new registry, breakers created equal entries plus evictions, the bound holds and no two keys share a breaker |
| BreakerRegistry.KeepsBreaker | src/rust/src/hardening.rs:814-817 | until it is expired or evicted a key keeps its breaker and every call hands that one out |
| BreakerRegistry.ReturnsFresh | src/rust/src/hardening.rs:833-841 | a key that comes back gets a breaker nobody has |
| BreakerHistory.RegistryIsHistory | src/rust/src/hardening.rs:800-842 | after a run whose times do not go back, in which times differ or keys fit, the registry holds exactly the keys called recently enough and not crowded out since, each as of its last call |
| BreakerHistory.CallGets | src/rust/src/hardening.rs:807-841 | a call hands out the breaker of the key's last call if it was less than the idle time ago with fewer keys since than places, otherwise a new one |
| BreakerHistory.CountersExact | src/rust/src/hardening.rs:807-841 | breakers created are the calls that missed; evictions are those less the keys still held |
| BreakerHistory.IdleDecides | src/rust/src/hardening.rs:807-817 | with no more keys than places, a key called again within the idle time keeps its breaker; after it the key gets a new one and a breaker still there is counted as evicted |
| BreakerHistory.ClockBehind | src/rust/src/hardening.rs:807-817 | a call whose time lies before the last use finds the breaker |
| BreakerHistory.CrowdedOut | src/rust/src/hardening.rs:819-832 | whoever is given up for room was used before every key that stays, or at the same time with a smaller key |
| HeaderAdmission.AdmitOne | src/rust/src/hardening.rs:60-102 | one header's first failing check, or the extended total and map |
| HeaderAdmission.AdmitRawHeaders | src/rust/src/hardening.rs:50-110 | every input is answered: the earliest fault in order, the ambiguous length, or the joined map |
| HeaderAdmission.JoinSnoc | src/rust/src/hardening.rs:93-97 | appending to an entry is joining one value more, empty values left out |
| HeaderAdmission.AcceptsIff | src/rust/src/hardening.rs:50-110 | accepted if and only if counts, sizes, bytes, repeats and length framing are in order; each lower-cased name maps to its non-empty values joined by comma and space (sections 5.3 and 5.6.2 of RFC 9110, section 6.3 of RFC 9112) |
| HeaderAdmission.FaultMeans | src/rust/src/hardening.rs:60-92 | what each reported fault says about the header |
| HeaderAdmission.TotalAdds | src/rust/src/hardening.rs:74-80 | the total is the sum of name and value sizes |
| HeaderAdmission.ValuesAdd | src/rust/src/hardening.rs:93-99 | values of one name come in the order of the headers |
| HeaderAdmission.JoinAdds | src/rust/src/hardening.rs:93-97 | a comma and a space stand between values and nowhere else |
| ReferenceOrder.ValidateIff | src/rust/src/middleware_order.rs:274-387 | for any duplicate-free table its rules follow: accepted if and only if duplicate-free, panic boundary first, and equal to the table on the table's stages |
| ReferenceOrder.ViolationIff | src/rust/src/middleware_order.rs:274-387 | each violation is in the list if and only if what its code says is so |
| ReferenceOrder.BillableAcceptsIff | src/rust/src/middleware_order.rs:318-360 | accepted if and only if the sequence is the 17-stage table |
| ReferenceOrder.DefaultAcceptsIff | src/rust/src/middleware_order.rs:274-311 | accepted if and only if duplicate-free, panic boundary first, and the 16-stage table once quota admission is dropped |
| ReferenceOrder.QuotaAnywhere | src/rust/src/middleware_order.rs:274-311 | the default table with quota admission put in at any place after the panic boundary is accepted |
| ReferenceOrder.QuotaLast | src/rust/src/middleware_order.rs:274-311 | even at the end, behind the handler |
| ManifestTargets.ContainingRootsOverlap | scripts/ores_mw_config_core.py:60-64 | two roots that contain one path overlap |
| ManifestTargets.NormalizeManifest | scripts/ores_mw_config_core.py:78-122 | accepts exactly the manifests with no fault, unchanged, and reports the earliest fault otherwise |
| ManifestTargets.AmbiguousIff | scripts/ores_mw_config_core.py:152-160 | some path of an accepted manifest is ambiguous if and only if two enabled targets overlap |
| ManifestTargets.NeverAmbiguous | scripts/ores_mw_config_core.py:117-119 | without overlap permission no path is ambiguous |
| ManifestTargets.NameResolves | scripts/ores_mw_config_core.py:154-156 | every enabled target resolves by its name to itself |
| ManifestTargets.DefaultResolves | scripts/ores_mw_config_core.py:115-116 | a declared default resolves to the one enabled target of that name |
| ManifestMeaning.AcceptedIff | scripts/ores_mw_config_core.py:78-122 | a manifest is accepted if and only if every target fits, names differ, one is enabled, roles match the mode, the default is enabled, and overlaps are permitted or absent |
| ManifestMeaning.FaultMeans | scripts/ores_mw_config_core.py:83-105 | what each fault says about the target |
| ManifestMeaning.PathResolvesIff | scripts/ores_mw_config_core.py:157-160 | a path resolves to a target if and only if it is portable and that target is the only enabled one with a root containing it; it is not found if and only if no enabled target has one |
| ManifestMeaning.NameResolvesIff | scripts/ores_mw_config_core.py:154-156 | a name resolves exactly to the enabled target of that name |
| ManifestMeaning.ArgumentsMatter | scripts/ores_mw_config_core.py:152-156 | an empty argument counts as absent; both, or neither without a default, are refused |
| ManifestMeaning.ContainsIff | scripts/ores_mw_config_core.py:60-64 | a root contains a path if and only if it is the dot, the path, or the path goes on with a slash behind it |
| PortablePath.PortableIff | scripts/ores_mw_config_core.py:43-51 | a path is portable if and only if it is trimmed, short, relative, without backslash and NUL, its own normal form and not starting by going up; the last check, that normalizing changes nothing, never fails |
| RationalRefill.GreatestCommonDivisor | integrations/ores-rate-limit-core-rust/src/core_rate_limiter.rs:257-264 | the loop ends with a common divisor that every common divisor divides |
| RationalRefill.LowestTerms | integrations/ores-rate-limit-core-rust/src/core_rate_limiter.rs:246-248 | dividing it out leaves coprime numbers |
| RationalRefill.Reduce | integrations/ores-rate-limit-core-rust/src/core_rate_limiter.rs:246-248 | tokens and parts are coprime and in the proportion of the numerator |
| RationalRefill.ComputeRefill | integrations/ores-rate-limit-core-rust/src/core_rate_limiter.rs:230-255 | rejected exactly out of range; otherwise tokens * 1000 * PRECISION equals numerator * interval, in lowest terms, and the interval overflow is unreachable |
| RationalRefill.NumeratorNearest | integrations/ores-rate-limit-core-rust/src/core_rate_limiter.rs:238-245 | the numerator is the nearest millionth, or the largest that 64 bits hold |
| SchemaModel.CanonicalDetermines | scripts/cross_translate.py:244-262 | equal canonical forms mean equal models when no two fields share a column |
| SchemaModel.CanonicalFaithfulIff | scripts/cross_translate.py:244-262 | canonical forms tell the models over given fields apart if and only if no two of the fields share a column |
| SchemaModel.CamelMeetsSnake | scripts/cross_translate.py:68-69 | if lower-casing maps a capital to a small letter, a name ending in the one shares its column with the name ending in an underscore and the other |
| SchemaModel.CamelExample | scripts/cross_translate.py:68-69 | `aB` and `a_b` share a column |
| JsonTheorem.BuildEnumDefs | scripts/cross_translate.py:282-290 | refused if and only if two fields disagree on an enum; otherwise each enum of the fields once, with its values, and no other |
| JsonTheorem.ReadFields | scripts/cross_translate.py:181-211 | the fields in the order of the properties, or the error of the first property that has one |
| JsonTheorem.ReadIsWellFormedIff | scripts/cross_translate.py:155-241 | whatever the document, the model read from it is well-formed if and only if no enum has an empty name |
| JsonTheorem.EnumDefsIff | scripts/cross_translate.py:282-290 | the enum definitions are accepted if and only if fields of one enum agree on its values |
| JsonRoundTrip.JsonRoundTrips | scripts/cross_translate.py:281-317 | every well-formed model is printed and read back unchanged |
| JsonTheorem.JsonRoundTripsIff | scripts/cross_translate.py:281-317 | of all models whose keys name fields, exactly the well-formed ones are printed and read back unchanged; the others fail or come back with other fields |
| JsonTheorem.ReadingIsStable | scripts/cross_translate.py:155-317 | reading any document, printing the model and reading it again gives the same model if and only if no enum has an empty name |
| JsonMeaning.PropertyReadIff | scripts/cross_translate.py:181-211 | a property is read as a field if and only if it is a string, a date-time string, an integer with exactly the 32-bit bounds, or a reference to a string enum with those values |
| JsonMeaning.LooseTypesRefused | scripts/cross_translate.py:192-211 | an integer without bounds and a string of another format are refused |
| JsonMeaning.EnumValuesIff | scripts/cross_translate.py:190-199 | an enum is read if and only if its definition is a string type with a non-empty list of exactly those values |
| JsonMeaning.DocumentReadIff | scripts/cross_translate.py:155-241 | a document is read as a model if and only if its parts describe that model |
| JsonRefusals.PropertyRefused | scripts/cross_translate.py:181-211 | what each refusal of a property says about it |
| JsonRefusals.DocumentRefused | scripts/cross_translate.py:155-241 | what each refusal of a document says about it |
| JsonMeaning.WitnessMarked | scripts/cross_translate.py:302-317 | every printed document carries the name of its authority and model, says that it is not authoritative, and holds its authority and digest |
| JsonText.DumpsDenotes | scripts/cross_translate.py:347-348 | the JSON text of a value denotes that value (section 7 of RFC 8259) |
| TypeSpecWitness.ReadMembers | scripts/cross_translate.py:93-103 | Ok if and only if every line that is not blank or a comment is a member; then the values in the order of the lines |
| TypeSpecWitness.PrintEnums | scripts/cross_translate.py:341-349 | each enum is printed once, where a field first uses it |
| TypeSpecGrammar.OpenIff | scripts/cross_translate.py:88-110 | a block starts exactly where its keyword, a name and a brace stand, white space between them |
| TypeSpecGrammar.MemberIff | scripts/cross_translate.py:98-103 | a line is a member if and only if it is a name, a colon, a quoted value without quotes and perhaps a comma, white space between them |
| TypeSpecGrammar.FieldLineIff | scripts/cross_translate.py:121-127 | a line is a field if and only if it is a name, perhaps a question mark, a colon, a type and a final semicolon |
| TypeSpecBodies.TellingAdds | scripts/cross_translate.py:94-97 | a line of a body counts, trimmed, unless it is blank or a comment |
| TypeSpecBodies.FieldLinesIff | scripts/cross_translate.py:117-135 | a body is read if and only if every line that counts declares a field of a scalar type or of a known enum, in the order of the lines |
| TypeSpecBodies.EnumBlocksIff | scripts/cross_translate.py:91-106 | enum blocks are read if and only if each has a member and members only; the last block of a name counts |
| TypeSpecBodies.EnumBlocksRefused | scripts/cross_translate.py:101-105 | the first block that cannot be read decides the error: empty, or a line that is no member |
| TypeSpecBodies.NamespaceIff | scripts/cross_translate.py:84-86 | a namespace stands exactly where the keyword, a dotted name and a semicolon do, white space between them |
| TypeSpecGrammar.SourceMarked | scripts/cross_translate.py:328-333 | every printed source names its authority and digest on lines of their own |
| TypeSpecGrammar.IdentifierOf | scripts/cross_translate.py:320-324 | a value that is an identifier is its own member name; any other character becomes an underscore |
| TypeSpecParsed.ReadIsDeclared | scripts/cross_translate.py:83-152 | whatever the source, a model that is read has identifiers for names, known types and keys, agreeing enums and a trimmed table or a single blank; it is well-formed if and only if field names differ and no enum has the model's name |
| TypeSpecLines.MemberRead | scripts/cross_translate.py:98-103 | a printed enum value is read as its JSON escape, and not at all if it is empty or holds a quotation mark |
| TypeSpecLines.MemberBackIff | scripts/cross_translate.py:347-348 | an enum value survives its member line if and only if it is not empty and JSON shows it as it is |
| TypeSpecScan.OpenShape | scripts/cross_translate.py:88-110 | a declaration is words and white space up to its brace, so it runs across no other character |
| TypeSpecScan.QuietSkip | scripts/cross_translate.py:88-110 | a search goes over text in which no declaration starts |
| TypeSpecBlocks.BlockFound | scripts/cross_translate.py:88-110 | a whole block is found, with what its braces hold |
| TypeSpecBlocks.ClosedSkip | scripts/cross_translate.py:88-110 | declarations that free text closes are found and the search goes on behind the text |
| TypeSpecBlocks.OpenRunsOver | scripts/cross_translate.py:88-110 | a declaration that free text leaves open swallows the head of the next block |
| TypeSpecBlocks.Spoiled | scripts/cross_translate.py:108-115 | a declaration before the model makes a second block or swallows the model's head |
| TypeSpecRoundTrip.FieldBodyBack | scripts/cross_translate.py:116-135 | printed field lines are read back as the fields |
| TypeSpecRoundTrip.MemberBodyBack | scripts/cross_translate.py:93-103 | printed members are read as the escaped values, or refused if one is empty or holds a quotation mark |
| TypeSpecDocument.EnumsParsed | scripts/cross_translate.py:91-106 | after blocks that could be read, printed enum blocks are read into a table that gives every enum field its values as JSON spells them, or refused |
| TypeSpecHeader.NextText | scripts/cross_translate.py:72-80 | behind blanks, across lines, a metadata comment's value is the next text up to the end of its line |
| TypeSpecSearch.EnumPass | scripts/cross_translate.py:88-106 | the search for enums in a printed document: read if and only if every value is legible and the table's own enums are complete and legible |
| TypeSpecSearch.ModelPass | scripts/cross_translate.py:108-136 | the search for models finds the model alone if and only if no free text declares one; otherwise nothing can be read |
| TypeSpecTheorem.TypeSpecRead | scripts/cross_translate.py:83-152 | what is read from every model in the notation's terms: an error without keys or with an illegible value, otherwise, unless free text spoils the search, the model without its empty groups and with its enum values escaped |
| TypeSpecTheorem.TypeSpecRoundTripsIff | scripts/cross_translate.py:327-358 | of all models whose keys name fields, exactly those in the notation's terms with a primary key, non-empty unique groups, enum values JSON shows as they are and no declaration in free text that spoils the search come back unchanged; of the others printing or reading fails or the loss is visible |
| TypeSpecFailures.NoKeysUnreadable | scripts/cross_translate.py:72-80 | a well-formed model without keys that cannot be read back |
| TypeSpecFailures.EmptyGroupLost | scripts/cross_translate.py:140-144 | a well-formed model that loses an empty unique group |
| TypeSpecFailures.AccentRespelled | scripts/cross_translate.py:347-348 | a well-formed model whose enum value outside ASCII comes back as its escape |
| TypeSpecFailures.QuoteUnreadable | scripts/cross_translate.py:98-102 | a well-formed model with a quotation mark in an enum value that cannot be read back |
| TypeSpecFailures.SecondModelUnreadable | scripts/cross_translate.py:108-114 | a well-formed model with an enum value that declares a model, which cannot be read back |
| TypeSpecFailures.BraceSurvives | scripts/cross_translate.py:88-110 | a model with a brace in an enum value that comes back unchanged |
| CrossTranslation.RunExact | scripts/cross_translate.py:431-497 | for all models both notations can express: an error if a TypeSpec witness cannot be read, otherwise exactly the peer mismatch and one finding for each comparison with a witness that lost something |
| CrossTranslation.NothingLost | scripts/cross_translate.py:442-497 | if both models survive, the four shadow and round-trip comparisons report nothing; only a peer mismatch can be reported |
| CrossTranslation.RunPassesIff | scripts/cross_translate.py:418-497 | for all models whose keys name fields: the run passes if and only if both are carried by both witnesses and their canonical forms agree |
| CrossTranslation.PassingMeansEqual | scripts/cross_translate.py:418-497 | if no two fields share a column, the run passes if and only if the models are equal and carried |
| CrossTranslation.AuthoritiesPassIff | scripts/cross_translate.py:418-497 | for every TypeSpec source and every schema document: the run passes if and only if both can be read, the canonical forms agree, and what they say survives the TypeSpec witness |

## Left out

- Floating-point rounding: tokens, rates and times are reals, so NaN and infinity do not arise.
- Generation wrap-around: `ConsumeLocked` and `Serve` ask that the 64-bit generation does not reach its maximum.
- Clock: the Rust limiter is called with times that never go back; the breaker registry and the Go limiter take any times.
- JSON text syntax, digests, files, the meta-schema validation of the written documents and the TypeSpec compiler: documents are trees whose objects hold each key once, digests are parameters that are single lines without braces.
- NormalizeManifest: type checks of TOML values, unknown keys and the schema version; the error kinds group the codes for one value (a path, the headers, the mode of a target).
- Stage tasks, deadlines and cancellation: each position of the pipeline carries functions that say what its task returned, so one execution can behave in any way.
- Response bodies: a problem document is its fields, not its bytes; rejection messages are dropped as in the source.
- CircuitBreaker itself: a breaker is its number in order of creation; its configuration is valid once checked. The eviction counter does not wrap.
- The bounded store of the core limiter adapter (`evaluate_at`): same shape as the breaker registry, around a transition function of another crate.
- Timer arithmetic and the Retry-After header of the shutdown rejection; the timer of a drainer may fire at any time.
- HTTP, Axum, Gin and Lambda adapters, telemetry, configuration discovery, rollout and packaging scripts.
