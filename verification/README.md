# Verified models of a service library's stateful core

The repository is a Go library of service clients. This project models the parts of it that carry real
logic and proves what they guarantee, for every input, every schedule and every reachable state.

- **Versions and migrations** (`pkg/version`). `Versions` has the parser, the printer, the order and the ranges.
  `Selection` has the sorting and choosing. `Migration` has the record rewriting and the derived reverse mappings,
  and `Migrator` the string-keyed index over them. `Registry` has the component tables and the constraint check,
  `RegistryConcurrency` the same tables under any interleaving of their critical sections. `Detection` finds the
  version of a request, and `Keys` has the compatibility matrix.
- **The vault secret cache** (`pkg/vault/client.go`). `VaultCache` is the client as one thread sees it.
  `VaultConcurrency` is a transition system with any number of threads in `GetSecret`, `PutSecret`, `DeleteSecret`
  and `Close`, a clock, and other writers of the same store.
- **Dragonfly metrics** (`pkg/dragonfly/metrics.go`). `LatencyCas` is the compare-and-swap loops under any schedule,
  one atomic operation at a time. `MetricsLedger` is the whole ledger under its mutex. `Extrema` says what minimum and
  maximum a sequence of latencies leaves behind.
- **Dragonfly utilities** (`pkg/dragonfly/utils.go`, `errors.go`). `InfoParser` has the INFO text, `Retry` the error
  chains, the retry loop and unit scaling, and `Keys` the namespaced keys.

`GoStrings` holds the parts of Go's `strings` and `strconv` that the code calls, and 64-bit wrap-around.
`Wrappers` holds `Option` and `Result`.

## How the models are built

Code that updates fields is a class whose methods are proved against functions of the old state. Code that runs
concurrently is a function `Run` from a schedule, a plain list of actions, to the state it reaches. An action that is
not enabled changes nothing, so a statement about every schedule is one about every interleaving. Clock readings,
server availability and the outcomes of the retried function are parameters.

| definition | models |
|---|---|
| `VaultConcurrency.Act`, `Step`, `Run` | one critical section or API call of a thread, `pkg/vault/client.go:415-529`, `641-668`, `774-801` |
| `VaultCache.Decode`, `Stored` | the KV v2 view and what a write stores, `pkg/vault/client.go:443-464`, `487-490` |
| `LatencyCas.Step`, `Run` | one atomic operation of `updateLatency`, `pkg/dragonfly/metrics.go:302-327` |
| `MetricsLedger.Recorded`, `LedgerOf`, `SnapshotOf` | `pkg/dragonfly/metrics.go:60-87`, `178-268`, `302-345` |
| `Extrema.NextMin`, `NextMax` | one pass of the swap loops, `pkg/dragonfly/metrics.go:306-326` |
| `Migration.Migrated`, `Succeeds`, `Reverse` | meaning of `migrateMapData` and `reverseFieldMappings`, `pkg/version/migration.go:236-276`, `307-346` |
| `Migrator.Added`, `CanMigrate`, `MigrationPath`, `Outcome` | `pkg/version/migration.go:77-100`, `131-190`, `303-305` |
| `Versions.Version`, `Parse`, `InRange` | `pkg/version/version.go:16-89`, `198-258`, `327-347` |
| `Registry.Register`, `Constrain`, `Unregister`, `Compatible` | `pkg/version/manager.go:55-132`, `275-310` |
| `RegistryConcurrency.Step`, `Run` | critical sections in any order, `pkg/version/manager.go:55-132` |
| `Detection.Detector.Find`, `IsDetected` | the `detectFrom*` functions, `pkg/version/detector.go:124-303` |
| `Keys.Set`, `IsCompatible`, `BuildRedisKey`, `SplitRedisKey` | `pkg/version/utils.go:307-326`, `pkg/dragonfly/utils.go:299-313` |
| `InfoParser.Classify`, `Read`, `Parse` | `pkg/dragonfly/utils.go:13-41` |
| `Retry.Is`, `ShouldRetry`, `WrapError` | `pkg/dragonfly/errors.go:129-194` |

## Where the obvious claim is false

Each of these is kept as the code has it, and the exact condition is proved.

- A `GetSecret` that read the store before a `PutSecret` wrote and invalidated can fill the cache afterwards, and the
  stale entry then has nobody left to correct it (`StaleEntryExample`). Once no invalidation is pending and if nobody
  else writes, an entry's path is unwritten since its read exactly when the read-to-fill window holds no complete write
  (`UpToDateIffCleanWindow`).
- Unmapped fields are copied after the mappings and can overwrite a mapped target; a default, a transform or two
  mappings to one target can also lose data (`CollisionExample`). Forward and back is the identity exactly when
  `Recoverable` holds (`RoundTripIffRecoverable`).
- A reversible custom migration puts a reverse in the index that `CanMigrate` offers and `Migrate` always refuses
  (`ReverseUsableIff`).
- Two pairs of versions share a migration key whenever a dash inside one text can be taken for the separator
  (`SharedKey`). A request is answered with a migration between other versions for some list of additions exactly
  when the first text has a dash after its first character or the second one before its last (`PathJoinsTextsIff`,
  `WrongPathExample`). If only texts that begin with `v` occur, it takes a "-v" inside one of them
  (`PrefixedKeyUnambiguousIff`). `CanMigrate` is symmetric under reversible additions exactly when the two
  keys are equal or the texts have no inner dash in either order (`CanMigrateSymmetricIff`, `OneSidedExample`).
- A recorded duration of zero reads as "unset" and the next positive one replaces it (`MinRightIff`,
  `ForgottenZeroExample`). Under concurrency the minimum can then be any recorded duration (`QuiescentMinIff`), and a
  snapshot's minimum can exceed its average (`AverageIff`).
- The TTL of a cached secret counts from the fill, not from the read, so a cached answer can be older than a TTL
  (`OldReadExample`). All answers from an unexpired entry stay within a TTL of their read exactly when no time passed
  between that read and the fill (`FreshIff`).
- The second half of `RegisterWithConstraints` panics exactly when since the first half the name was unregistered and
  not registered again (`PanicsIff`, `OrphanExample`). If it was registered again, the new component silently gets the
  old one's constraints (`ReregisteredExample`). A name keeps constraints without a component exactly when it was last
  unregistered and a second half ran after that (`OrphanIff`).
- `ParseVersion` has a zero result only for the empty string, so `ValidateVersionString` and `MustParseVersion`
  never reject anything (`ParseThenPrint`).
- `Compare` ignores labels, so it has no pre-release precedence as in section 11 of Semantic Versioning 2.0.0, which is
  not modelled: `Compare` cannot tell two versions apart exactly when their numeric triples agree
  (`CompareIsTotalPreorder`).
- The error predicates look for pointers, so a typed error held by value counts neither for nor against a retry (`IsReadsTheChain`).

Where comments and code disagree the model follows the code. `FindClosestVersion` speaks of the closest compatible
version (`pkg/version/utils.go:76`, `98`) but returns the latest compatible one. `performFallbackMigration` claims to be
more lenient with missing fields (`pkg/version/migration.go:297`) but is the automatic migration.

## Model

| member | source | states |
|---|---|---|
| VaultConcurrency.EveryAnswerWasStored | pkg/vault/client.go:415-472 | in every interleaving, every secret served was in the store at an earlier instant. Not from the cache: that instant lies after the serving call took its lock. From the cache: the fill it came from is that of that very read, the clock of the read is at most that of the fill, and the serving time is at most a TTL after the fill |
| VaultConcurrency.StoreFollowsWrites | pkg/vault/client.go:474-529 | in every reachable state, a path holds what the last write to it wrote, nothing if that was a deletion, and what it held initially if it was never written |
| VaultConcurrency.AnswersFollowWrites | pkg/vault/client.go:415-472 | every secret served is the view of what the last write before its read wrote, or of what was there initially |
| VaultConcurrency.DeletedIsGone | pkg/vault/client.go:506-529 | a path deleted and not written since is served by no call that took its lock after the deletion and from no entry read after it |
| VaultConcurrency.MissingIsHonest | pkg/vault/client.go:434-441 | a secret is reported missing only if its last write was a deletion, or it was never there |
| VaultConcurrency.CacheFollowsHistory | pkg/vault/client.go:653-668 | in every reachable state, a path is cached if and only if the last fill, invalidation or close that touched it was a fill, and then with that fill's data until a TTL after it |
| VaultConcurrency.InvalidatedAfterWrite | pkg/vault/client.go:492-526 | every invalidation follows a write of this client to that very path |
| VaultConcurrency.CacheOffStaysEmpty | pkg/vault/client.go:467-526 | with caching disabled nothing is ever cached, nor waiting to fill or invalidate |
| VaultConcurrency.FreshIff | pkg/vault/client.go:434-468 | in every reachable state with an unexpired entry, all answers it serves, however the run continues, are served at most a TTL after their store read if and only if no time passed between the read and the fill |
| VaultConcurrency.OldReadExample | pkg/vault/client.go:434-468 | for every time d, a schedule that serves a cached secret whose store read is d old, because the TTL starts at the fill |
| VaultConcurrency.UpToDateIffCleanWindow | pkg/vault/client.go:415-529 | with no invalidation pending and no other writer since its read, a cached entry's path is unwritten since that read if and only if its read-to-fill window contains no write of this client together with its invalidation, and then the entry equals the stored object's view |
| VaultConcurrency.CleanRunsAreCoherent | pkg/vault/client.go:415-529 | if only this client writes and every fill has a clean window, then on every path without a pending invalidation what is cached is what is stored |
| VaultConcurrency.OvertakenReader | pkg/vault/client.go:434-500 | from any state with a reader holding its answer, a complete write by another thread followed by the reader's fill caches the old answer |
| VaultConcurrency.StaleEntryExample | pkg/vault/client.go:434-500 | a concrete schedule that ends with a stale entry and no invalidation pending |
| VaultConcurrency.NoSecretAfterClose | pkg/vault/client.go:774-801 | once a Close has returned, in every continuation: closed, cache empty for ever, no secret served from then on, each existing stop channel closed exactly once |
| VaultConcurrency.RefusedAfterClose | pkg/vault/client.go:420-432 | after a Close has returned, a GetSecret on any path by any idle thread ends with the not-initialized error |
| VaultConcurrency.StopChannelsClosedOnce | pkg/vault/client.go:785-795 | in every reachable state, after any number of Close calls, no stop channel has been closed twice |
| VaultConcurrency.RunInv | pkg/vault/client.go:415-529 | the invariant behind these: entries agree with their fill events, every client write is pending or invalidated, no invalidation is younger than the entry on its path, readers and the closer exclude each other |
| VaultConcurrency.UnwrittenKeeps | pkg/vault/client.go:492-518 | a path nobody writes between two instants holds the same object at both |
| VaultCache.LookupRemembers | pkg/vault/client.go:641-668 | after any fills, invalidations and clearings, a lookup finds data if and only if the last change to its path filled in that data at most a TTL ago |
| VaultCache.Stored | pkg/vault/client.go:487-492 | whatever metadata the server adds, the view of what a write stores has the given data |
| VaultCache.DecodeReads | pkg/vault/client.go:443-464 | the payload is what stands under data if that is an object and everything otherwise; creation time and version are read from metadata, zero if absent or of another type |
| VaultCache.Client.constructor | pkg/vault/client.go:90-126 | a new client is open, has an empty cache and satisfies the coherence invariant |
| VaultCache.Client.GetCachedSecret | pkg/vault/client.go:641-651 | the lookup, changing nothing; what a hit means is LookupRemembers, and over concurrent runs EveryAnswerWasStored |
| VaultCache.Client.SetCachedSecret | pkg/vault/client.go:653-661 | only the given path gets a new entry, expiring a TTL after the reading; what that guarantees is EveryAnswerWasStored |
| VaultCache.Client.InvalidateCachedSecret | pkg/vault/client.go:663-668 | only the given path loses its entry; what that guarantees is UpToDateIffCleanWindow |
| VaultCache.Client.GetSecret | pkg/vault/client.go:415-472 | the answer is the store's whenever the server is up, so used by one thread caching is invisible; the cache gains exactly the entry of a successful miss |
| VaultCache.Client.PutSecret | pkg/vault/client.go:475-503 | on success the view of the path has the given data, with whatever metadata the server adds, only that path of store and cache changed and its entry is gone; on failure nothing changed; coherence is kept |
| VaultCache.Client.DeleteSecret | pkg/vault/client.go:506-529 | on success exactly that path left store and cache; on failure nothing changed; coherence is kept |
| VaultCache.Client.Close | pkg/vault/client.go:774-801 | any number of calls leaves the client closed with an empty cache and each stop channel closed at most once |
| Migration.ApplyMappings | pkg/version/migration.go:244-259 | fails exactly when some mapping is required and has neither source nor default; otherwise each field holds what the last mapping that writes it wrote |
| Migration.CopyUnmapped | pkg/version/migration.go:261-273 | in whatever order the input is visited, exactly the input fields that are no mapping's source are copied over the result |
| Migration.MigrateMapData | pkg/version/migration.go:236-276 | fails exactly when a required mapping has neither source nor default, naming the first; otherwise fields no mapping reads keep their values, and every other target holds what its last applicable mapping says: the source as text if the transform is string, the source unchanged for every other transform, or the default |
| Migration.MigratedHolds | pkg/version/migration.go:236-346 | the closed form of the result, used by the round-trip laws, holds exactly those fields and values |
| Migration.MigratedKeys | pkg/version/migration.go:236-276 | the result's fields are exactly the targets of applicable mappings and the input fields that are no mapping's source |
| Migration.ReverseFieldMappings | pkg/version/migration.go:307-325 | element by element: names swapped, no transform, no default, required as before |
| Migration.ReverseTotal | pkg/version/migration.go:245-319 | for every mapping list and input, if the forward migration succeeds the derived reverse succeeds on its output |
| Migration.RoundTripField | pkg/version/migration.go:236-319 | where every field of a forward-and-back migration comes from |
| Migration.RoundTripNecessary | pkg/version/migration.go:236-319 | a migration that comes back unchanged collided with no unmapped field, invented no field and kept every source's value under its last mapping's target |
| Migration.RecoveredField | pkg/version/migration.go:236-319 | under that condition every field is present after the round trip exactly if it was before, with its value |
| Migration.RoundTripIffRecoverable | pkg/version/migration.go:236-346 | for all mapping lists and inputs, forward then derived reverse gives the input back if and only if the condition on collisions, defaults and values holds |
| Migration.PermutationsRoundTrip | pkg/version/migration.go:236-346 | distinct sources, distinct targets, no collision, no default used and no value changed by its transform suffice, so swaps and longer permutations of names round-trip |
| Migration.CollisionExample | pkg/version/migration.go:261-273 | renaming a to b while b is present loses the value of a, and the reverse returns b's value as a |
| Migrator.Migrator.constructor | pkg/version/migration.go:69-74 | a new migrator has no migrations |
| Migrator.Migrator.AddMigration | pkg/version/migration.go:77-100 | nil is refused without effect; otherwise the migration is stored under its key and, if reversible, then under the opposite key one with the endpoints and field names swapped, the same strategy, no custom function and not reversible; what every list of additions leads to is AlwaysFiled |
| Migrator.Migrator.Migrate | pkg/version/migration.go:131-162 | equal triples give the input back; otherwise no entry, no strategy, no custom function and unknown strategies are each their own error, a custom function gets the two versions and the input, and field mappings do what MigrateMapData says |
| Migrator.KeyUnambiguousIff | pkg/version/migration.go:303-305 | over all non-empty texts, two texts joined by a dash can be read apart in one way only if and only if the first has no dash after its first character and the second none before its last |
| Migrator.PrefixedKeyUnambiguousIff | pkg/version/migration.go:303-305 | where only texts beginning with `v` occur, the condition is that neither contains "-v" |
| Migrator.SharedKey | pkg/version/migration.go:303-305 | for all non-empty texts s, t, u the pairs (s-t, u) and (s, t-u) of parsed versions share a key |
| Migrator.KeyInjective | pkg/version/migration.go:303-305 | on parsed versions the key determines both versions, if their texts have no inner dash or if all texts begin with `v` and none contains "-v" |
| Migrator.ConstructedVersionsIndexable | pkg/version/version.go:280-292 | every version made from non-negative numbers and a label that neither starts with `v` nor contains "-v" is of that second kind |
| Migrator.AlwaysFiled | pkg/version/migration.go:77-100 | after any list of additions every entry sits under the key of its own endpoints, and if all were reversible the opposite key is taken too |
| Migrator.PathJoinsTextsIff | pkg/version/migration.go:165-190 | for any two versions of different triples, every non-empty path after any list of additions is one migration joining exactly the two requested texts if and only if these have no inner dash |
| Migrator.PathJoinsEndpoints | pkg/version/migration.go:165-190 | after any additions of parsed versions a path exists exactly when CanMigrate says so, is empty exactly for equal triples, and otherwise joins exactly the two requested versions, for requests without inner dash whatever the prefixes, and for texts beginning with `v` and free of "-v" |
| Migrator.WrongPath | pkg/version/migration.go:175-186 | for all non-empty s, t, u, a migration from s to t-u is the path returned from s-t to u |
| Migrator.WrongPathExample | pkg/version/migration.go:175-186 | the path from 1.0.0-alpha to 2.0.0 can be a migration from 1.0.0 to alpha-2.0.0 |
| Migrator.CanMigrateSymmetricIff | pkg/version/migration.go:77-173 | for any two versions of different triples, CanMigrate is symmetric after every list of reversible additions if and only if both keys are equal or the two texts have no inner dash in either order |
| Migrator.SwapsTogetherIff | pkg/version/migration.go:303-305 | unless the two keys are equal, all ways to take a key apart swap into the other one if and only if there is only one way |
| Migrator.OneSidedExample | pkg/version/migration.go:77-173 | a reversible migration from 1.0.0 to alpha-2.0.0 offers the way from 1.0.0-alpha to 2.0.0 and not the way back |
| Migrator.CanMigrateSymmetric | pkg/version/migration.go:77-173 | in particular if no text of either key has an inner dash, or all texts begin with `v` and none contains "-v" |
| Migrator.ReverseUsableIff | pkg/version/migration.go:88-155 | after a reversible addition the way back is always offered, and some input gets through it if and only if the strategy works by field mappings |
| Migrator.ThereAndBackIff | pkg/version/migration.go:77-162 | once a reversible field-mapping migration between parsed versions of different triples, or between any of different keys, is added, a record that migrates forward also migrates back, and comes back unchanged if and only if nothing was lost on the way |
| Migrator.SameKeysSameTriple | pkg/version/migration.go:303-305 | parsed versions whose two keys are equal have one triple |
| Migrator.ForwardKeptIff | pkg/version/migration.go:82-97 | a reversible migration stays under its own key if and only if the key of its reverse differs; otherwise the reverse overwrites it |
| LatencyCas.StepMonotone | pkg/dragonfly/metrics.go:306-326 | one step never lowers max; with positive latencies it never raises or unsets min; a successful swap is a strict improvement |
| LatencyCas.RunMonotone | pkg/dragonfly/metrics.go:306-326 | the same over any stretch of any run |
| LatencyCas.QuiescentExact | pkg/dragonfly/metrics.go:302-327 | when all calls have finished, on any schedule and for any latencies, total and count are those of all recorded, max is the greatest or 0 if that is negative, and min is the least unless that is 0, and always a recorded one |
| LatencyCas.QuiescentMinIff | pkg/dragonfly/metrics.go:306-315 | a value can be the minimum left by some complete schedule if and only if it is the least latency, or the least is 0 and the value was recorded at all |
| LatencyCas.SerialRunFolds | pkg/dragonfly/metrics.go:302-327 | calls run one after another in any order leave exactly the sequential folds of their latencies |
| LatencyCas.RetriesBounded | pkg/dragonfly/metrics.go:307-326 | no call fails either swap as often as there are calls |
| LatencyCas.TurnsBounded | pkg/dragonfly/metrics.go:302-327 | an unfinished call has used no more turns than its failures account for |
| LatencyCas.EveryCallFinishes | pkg/dragonfly/metrics.go:302-327 | a call given 4n+2 turns among n calls has finished, whatever the interleaving |
| LatencyCas.RunInv | pkg/dragonfly/metrics.go:302-327 | on every schedule the sums are those of the calls that added, max bounds the finished calls, a least latency other than 0 stays once recorded, and every failed swap is paid for by another call's success |
| MetricsLedger.CommandCounters | pkg/dragonfly/metrics.go:60-86 | after any commands the three maps share their keys, which include every recorded command, and each counter is the tally of its command in 64-bit arithmetic |
| MetricsLedger.LatencyTotals | pkg/dragonfly/metrics.go:302-327 | totals are those of the recorded durations, min and max are the code's folds over them |
| MetricsLedger.ErrorTotals | pkg/dragonfly/metrics.go:81-86 | error counters are the numbers of recorded errors, in all and by category |
| MetricsLedger.LedgerBalances | pkg/dragonfly/metrics.go:60-87 | modulo 2^64 and after any commands, summed counts equal the latency count, summed durations the total latency and summed errors the total errors |
| MetricsLedger.CategoriesBounded | pkg/dragonfly/metrics.go:329-345 | below 2^63 commands the categories add up to at most the errors, and these to at most the commands |
| Extrema.MinRightIff | pkg/dragonfly/metrics.go:306-315 | the recorded minimum is the true one if and only if the true one is not zero or the last duration is zero |
| Extrema.FoldMinIs | pkg/dragonfly/metrics.go:306-315 | otherwise it is the least duration after the last zero |
| Extrema.ForgottenZeroExample | pkg/dragonfly/metrics.go:309 | durations 0 and 5 leave the minimum 5 |
| Extrema.MaxRightIff | pkg/dragonfly/metrics.go:317-326 | the recorded maximum is the true one if and only if some duration is not negative |
| MetricsLedger.AverageIff | pkg/dragonfly/metrics.go:201-208 | for any durations whose sum fits, average <= max; and min <= average if and only if no zero was forgotten or the least duration after the last zero is at most the true average |
| MetricsLedger.GoDiv | pkg/dragonfly/metrics.go:205 | division truncates toward zero |
| MetricsLedger.SnapshotAverages | pkg/dragonfly/metrics.go:178-235 | with positive durations whose sum fits, every non-empty snapshot has min <= average <= max, overall and for every command listed |
| MetricsLedger.ErrorRatesInUnit | pkg/dragonfly/metrics.go:211-227 | below 2^63 commands every error rate listed lies between 0 and 1 |
| MetricsLedger.ContainsText | pkg/dragonfly/metrics.go:347-354 | true exactly when the second text occurs somewhere in the first |
| MetricsLedger.FindSubstring | pkg/dragonfly/metrics.go:356-363 | true exactly when the second text occurs somewhere in the first |
| MetricsLedger.Metrics.constructor | pkg/dragonfly/metrics.go:50-57 | a new ledger is that of the empty history |
| MetricsLedger.Metrics.UpdateLatency | pkg/dragonfly/metrics.go:302-327 | run alone, the swap loops compute the next minimum and maximum, and total and count grow by this call |
| MetricsLedger.Metrics.CategorizeError | pkg/dragonfly/metrics.go:329-345 | exactly the counter of the first word the text contains grows, or none |
| MetricsLedger.Metrics.RecordCommand | pkg/dragonfly/metrics.go:60-87 | the ledger of the history becomes that of the history with this command, its duration and the category of the first word in its error appended |
| MetricsLedger.Metrics.ResetCommands | pkg/dragonfly/metrics.go:242-247 | every known command keeps its three counters, at zero |
| MetricsLedger.Metrics.Reset | pkg/dragonfly/metrics.go:238-268 | the ledger of the empty history in which the commands recorded so far stay known |
| MetricsLedger.Metrics.TakeSnapshot | pkg/dragonfly/metrics.go:193-227 | each error field counts its own category; a command is listed exactly if it has a count, with its count, total, truncated average, errors and rate; average, min and max are those of the history or zero |
| MetricsLedger.Metrics.GetTotalCommands | pkg/dragonfly/metrics.go:271-280 | summing the per-command counters in any order gives the latency count, which is the number of commands recorded |
| MetricsLedger.Metrics.GetAverageLatency | pkg/dragonfly/metrics.go:283-289 | the truncated average of the durations recorded since the last Reset, zero for none |
| Versions.CompareIsTotalPreorder | pkg/version/version.go:42-65 | antisymmetric and transitive, equal exactly on equal numeric triples |
| Versions.CompareIsLexicographic | pkg/version/version.go:42-89 | it orders by major, then minor, then patch, and compatibility and each upgrade kind say the same of these numbers |
| Versions.ZeroIgnoresLabel | pkg/version/version.go:37-39 | zero means no text and zero numbers, whatever the label |
| Versions.UpgradeKindsPartitionCompare | pkg/version/version.go:69-89 | being greater is exactly one of the three upgrade kinds; compatible is equal, minor or patch |
| Versions.ParseVersion | pkg/version/version.go:198-258 | the step-by-step parser computes the meaning `Parse`, which ParseReadsPieces and KeywordsParse describe for all texts by their pieces |
| Versions.ParseReadsPieces | pkg/version/version.go:209-257 | for any pieces free of dots and dashes joined by dots, with or without v and with any label or none: each of the first three pieces is its number, zero if absent or unreadable, and the label is kept; if the first piece is unreadable nothing is read |
| Versions.KeywordsParse | pkg/version/version.go:204-207 | latest and current, in any mixture of cases, are versions without numbers and label |
| Versions.PrintsAs | pkg/version/version.go:25-34 | a version prints as its text, or if it has none as v, the three numbers with dots and a dash with the label if there is one |
| Versions.ParseThenPrint | pkg/version/version.go:25-39 | a parsed text prints as itself unless it is empty, and only the empty text parses to a zero version |
| Versions.ParsedNumbersNonNegative | pkg/version/version.go:213-249 | no text parses to a negative number |
| Versions.PrintThenParse | pkg/version/version.go:198-292 | for all non-negative 64-bit numbers and every label, also one with dashes and dots, the constructed version's text parses back to it in all five fields |
| Versions.PrintThenParseIff | pkg/version/version.go:198-292 | over all 64-bit numbers and labels the version comes back if and only if no number is negative |
| Versions.NewVersionPrintThenParseIff | pkg/version/version.go:198-277 | the same for versions made without a label |
| Versions.DashKeepsTriple | pkg/version/version.go:213-249 | appending a dash and any text never changes the numbers of a parsed text |
| Versions.RangeContains | pkg/version/version.go:327-347 | by the numbers: if exact versions are listed, one has the same triple; otherwise each bound that is not zero is respected |
| Versions.RangeSeesTriples | pkg/version/version.go:327-347 | membership depends on the numeric triple only |
| Selection.Sort | pkg/version/utils.go:19-32 | a permutation in order of the numbers, ascending or descending; the argument is a value and stays as it was |
| Selection.GetLatestVersion | pkg/version/utils.go:57-64 | a member above all members, zero for none |
| Selection.GetOldestVersion | pkg/version/utils.go:67-74 | a member below all members, zero for none |
| Selection.FindClosestVersion | pkg/version/utils.go:77-104 | the first member with the target's triple, else a latest compatible member, else a latest member, zero for none |
| Selection.ClosestTripleDetermined | pkg/version/utils.go:77-104 | any two answers for lists with the same set of triples have the same triple |
| Selection.ClosestIdempotent | pkg/version/utils.go:77-104 | asking again for the answer gives its triple |
| Selection.GroupVersionsByMajor | pkg/version/utils.go:167-179 | a group for exactly the majors that occur, with every version of that major as often as it was given and no other, in ascending order |
| Registry.Manager.constructor | pkg/version/manager.go:39-52 | the empty tables are consistent |
| Registry.Manager.RegisterComponent | pkg/version/manager.go:55-100 | which error, or the component and metadata with its name, type, supported and default versions added under the name and nothing else changed |
| Registry.Manager.RegisterWithConstraints | pkg/version/manager.go:103-116 | which error, and run alone the component, its metadata with the constraints and the constraints are added, or nothing is |
| Registry.Manager.UnregisterComponent | pkg/version/manager.go:119-132 | the name leaves all three tables, or it was unknown and nothing changed |
| Registry.Manager.CheckCompatibility | pkg/version/manager.go:275-310 | no error if and only if every constraint of a listed component on a listed component has, by the numbers, that version in range and equal to no conflict, in whatever order the assignment is visited |
| Registry.Manager.GetCompatibleVersions | pkg/version/manager.go:339-355 | the compatible supported versions in their order, or an error exactly for an unknown name |
| Registry.CompatibleInKeeps | pkg/version/manager.go:348-352 | every compatible version is listed as often as it is supported, and no other |
| Registry.CompatibleInOrder | pkg/version/manager.go:348-352 | the order of the supported list is kept |
| Registry.Manager.GetLatest | pkg/version/manager.go:358-375 | a latest supported version, and the component's own list is left sorted in place, a permutation of what it was; nothing else of the component or the tables changes |
| Registry.CompatibleShrinks | pkg/version/manager.go:275-310 | removing components from a compatible assignment keeps it compatible |
| Registry.CompatibleSeesTriples | pkg/version/manager.go:275-310 | the verdict is the same for assignments with equal numeric triples |
| RegistryConcurrency.TablesFollowHistory | pkg/version/manager.go:55-132 | in every reachable state, a name has a component, and has metadata, exactly when it was registered last and not unregistered since, and has constraints exactly when a second half has run for it since it was last unregistered |
| RegistryConcurrency.ValuesFollowHistory | pkg/version/manager.go:73-131 | in every reachable state a name has the component registered last, the constraints of its last second half, and metadata of that component that shows those constraints only if the second half ran after the registration |
| RegistryConcurrency.AcceptedIff | pkg/version/manager.go:60-71 | in every reachable state a registration is accepted if and only if the name is not empty and not registered |
| RegistryConcurrency.KeysAgree | pkg/version/manager.go:55-132 | components and metadata have equal key sets in every reachable state |
| RegistryConcurrency.HalvesHold | pkg/version/manager.go:103-113 | every second half is preceded by its first half, and panics if and only if its name is not registered when it runs |
| RegistryConcurrency.PanicsIff | pkg/version/manager.go:103-132 | in every run a second half panics if and only if since its first half the name was unregistered and not registered again |
| RegistryConcurrency.OrphanIff | pkg/version/manager.go:103-132 | in every reachable state a name has constraints without a component if and only if the last registration event about it is an Unregister and a second half has run since |
| RegistryConcurrency.ConstraintsHaveComponents | pkg/version/manager.go:103-132 | where no Unregister falls between the halves, nothing panics and only registered components have constraints |
| RegistryConcurrency.OrphanExample | pkg/version/manager.go:103-132 | for any component, a schedule that leaves constraints without a component |
| RegistryConcurrency.ReregisteredExample | pkg/version/manager.go:103-132 | a schedule with an Unregister and a new registration between the halves: no panic, and the new component has the old one's constraints |
| Detection.Detector.constructor | pkg/version/detector.go:99-114 | the defaults |
| Detection.Detector.DetectFromHTTPRequest | pkg/version/detector.go:124-184 | what the earliest enabled method with a find finds, else the default; a Default entry never cuts the search short |
| Detection.Detector.HeadersRead | pkg/version/detector.go:230-254 | each header method reads the version from its own header and names that text as the source |
| Detection.Detector.QueryReads | pkg/version/detector.go:256-267 | the query method reads the configured parameter |
| Detection.Detector.AcceptReads | pkg/version/detector.go:210-228 | after the configured prefix the Accept header's version is the text up to the next plus sign or the end |
| Detection.Detector.PathReads | pkg/version/detector.go:269-325 | for any first and second segment, with or without a leading slash: a first one that begins with v is the version and the second the pipeline, else the first is the pipeline |
| Detection.Detector.ContextReads | pkg/version/detector.go:187-201 | a context gives its non-zero version, the version of its non-empty text, or the default |
| Detection.Detector.TextFindsIff | pkg/version/detector.go:230-267 | a header or parameter yields a version exactly when it is not empty |
| Detection.Detector.AcceptFindsIff | pkg/version/detector.go:210-228 | the Accept header yields a version exactly when it contains the prefix, except a single character under an empty prefix |
| Detection.Detector.PathFindsIff | pkg/version/detector.go:269-325 | the path yields a version exactly when its first segment begins with `v`; then the version is read from that segment and the pipeline is the second segment or empty, and otherwise the pipeline is the first |
| Detection.Detector.MiddlewareRoundTrip | pkg/version/detector.go:344-371 | with the middleware's key, detecting from the context it sets returns the version it detected, for every request and default |
| Detection.Detector.OtherKeyIgnoresMiddleware | pkg/version/detector.go:285-346 | with any other key that version is invisible |
| Keys.MatrixKeyInjective | pkg/version/utils.go:308-309 | with colon-free component names a key determines component and version |
| Keys.MatrixKeysCollideIff | pkg/version/utils.go:308-309 | two different names have versions with one key if and only if one name followed by a colon begins the other |
| Keys.MatrixRemembers | pkg/version/utils.go:307-326 | after any settings with colon-free names the answer is the last value set for exactly that quadruple, false for none |
| Keys.CompatibilityMatrix.constructor | pkg/version/utils.go:302-304 | a new matrix is empty |
| Keys.CompatibilityMatrix.SetCompatible | pkg/version/utils.go:307-315 | one cell of one row changes and a missing row is created |
| Keys.CompatibilityMatrix.GetCompatibleVersions | pkg/version/utils.go:329-347 | a version is listed under a colon-free component once if IsCompatible holds and not at all otherwise, and nothing else is listed |
| Keys.RedisRoundTripIff | pkg/dragonfly/utils.go:299-313 | splitting undoes building if and only if the namespace has no colon and, if it is empty, neither has the key |
| InfoParser.ParseDragonflyInfo | pkg/dragonfly/utils.go:13-41 | the loop computes the meaning of the text, which ParseSays describes, and never writes to a section that has no map |
| InfoParser.ParseSays | pkg/dragonfly/utils.go:13-41 | for any text: the sections are those some header names; a key is in a section if and only if a field line gives it after the last header of that name and before any other; and its value is that of the last such line |
| InfoParser.HeaderLineReads | pkg/dragonfly/utils.go:24-29 | a header's name is read without white space around it |
| InfoParser.FieldLineReads | pkg/dragonfly/utils.go:31-37 | a field's key and value are read around the first colon, without white space around either |
| InfoParser.CurrentIsOpen | pkg/dragonfly/utils.go:24-37 | on any text and after any line, the current section has a map |
| InfoParser.ParseWellFormed | pkg/dragonfly/utils.go:13-41 | whatever the text, names, keys and values of the result are trimmed and on one line, keys have no colon and look like no header |
| InfoParser.ParseInvertsRenderIff | pkg/dragonfly/utils.go:13-41 | a map rendered with its sections and fields in any order is parsed back if and only if it is well formed |
| Retry.IsReadsTheChain | pkg/dragonfly/errors.go:129-156 | a predicate holds exactly when its kind is among those by pointer in what the error unwraps to |
| Retry.IsFinds | pkg/dragonfly/errors.go:129-156 | it holds if and only if unwrapping, choosing one cause at each step, can reach a pointer to an error of its kind |
| Retry.ShouldRetryReadsTheChain | pkg/dragonfly/errors.go:159-186 | retried exactly with attempts left, a temporary kind on the chain, and no authentication or protocol kind anywhere on it |
| Retry.WrappingKeepsRetry | pkg/dragonfly/errors.go:165-194 | wrapping any number of times never changes the decision |
| Retry.WrappingAddsContexts | pkg/dragonfly/errors.go:189-194 | every wrapping puts its context and a colon in front of the message |
| Retry.RetryWithBackoff | pkg/dragonfly/utils.go:274-296 | between one and maxRetries+1 calls, all but the last failed retryably, the last did not, its own outcome is returned unwrapped, and the sleeps add up to the doubling delays; the final return is reached only for a negative maxRetries |
| Retry.SleptIff | pkg/dragonfly/utils.go:278-282 | for every 64-bit initialDelay, the total sleep before n calls is initialDelay*(2^(n-1)-1) if and only if there is one call, or the delay is not negative and the last one has not overflowed |
| Retry.SleptNext | pkg/dragonfly/utils.go:278-282 | with overflow each sleep is the delay doubled in 64 bits, if that is positive |
| Retry.FormatBytes | pkg/dragonfly/utils.go:166-179 | below 1024 the bytes themselves; otherwise a value from 1 up to 1024 of the chosen unit that makes up the size exactly, the unit's letter in bounds and the divisor without overflow, for every 64-bit size |

## Left out

- VaultCache.Client.PutSecret: a write the server reports as failed is taken to have had no effect; one that took effect all the same is a write by another party in VaultConcurrency.
- VaultCache.Client.GetSecret: the answer is a value; the source hands out the cached pointer, so a caller that changes it changes the cache.
- VaultConcurrency.UpToDateIffCleanWindow: says nothing about a path another client has written since the read, because nothing in this client can notice that.
- Selection.Sort: any sorted permutation; which of several versions with one triple comes first is not specified, as Go's sort is not stable.
- Registry.Manager.CheckCompatibility: which error is reported depends on map iteration order and is not specified; only whether there is one.
- Registry.Manager.RegisterComponent: deprecation info and timestamps in metadata, and the slice a component shares with its metadata, which GetLatest then sorts too, are not modelled.
- Migration.MigrateMapData: the text an unreadable value gets from the "string" transform is an abstract function, and error texts are reduced to the field's name.
- Migrator.Migrator.Migrate: inputs that are not string-keyed maps (nil, structs by reflection, other kinds) are not modelled; a custom function is an arbitrary function.
- Migrator.Migrator.AddMigration: the index holds values; the source stores the caller's pointer, which the caller could change later.
- Retry.FormatBytes: the value is exact; the source rounds it to a float and prints one digit.
- MetricsLedger.Metrics.TakeSnapshot: the error rate is an exact real instead of a float; timestamps and the connection, pool and health counters are not modelled.
- MetricsLedger.AverageIff: says nothing once the sum of durations has overflowed 64 bits, when the average is that of a wrapped sum.
- Versions.ParseVersion: texts are sequences of characters, not UTF-8 bytes.
- Detection.Detector.DetectFromHTTPRequest: header canonicalisation, query decoding and response headers are not modelled; the detector's options are assignments to its fields.
- Vault authentication, token renewal, the health ticker, the rate limiter, listing and health calls.
- The preference of a Go read-write lock for waiting writers: the model allows every order the lock allows, and more.
- Listing, lookup and filter functions of the version package, its global singletons, metrics collector and HTTP response writers: single loops or field copies.
- Client lifecycle, TLS and configuration of the Dragonfly client, and the INFO consumers built on ParseDragonflyInfo.
- The kafka, postgres, otel, logger, config and apidef packages and the commands: wrappers over libraries that are not part of this model.
