# Verified model of parparchik

parparchik indexes the objects of several S3 buckets in an in-memory catalog, routes download
requests through it, and keeps it in step with storage. This project models the Go
implementation's core in Dafny and proves what the catalog, the resolver, the retention planner,
replication, snapshots and the package-name parsers guarantee, for every input and every run.

The catalog is a cache of a simple thing: *the first configured storage bucket that keeps a key as
a file* (`View.Ideal`). Sync, repair, restart, relocation and fleets of replicas are all related to
that one view. Storage, upstreams and remotes may fail on any call; each has a ghost failure
counter, so a contract can speak about runs in which nothing failed as well as about every partial
outcome. The catalog object carries a ghost history of its atomic steps; since every catalog
method takes its lock once, an interleaving of goroutines is a sequence of such steps.

| file | what it holds |
|---|---|
| `CatalogState.dfy`, `Catalog.dfy` | entries, atomic steps and runs; the catalog object |
| `Config.dfy`, `Storage.dfy`, `View.dfy` | buckets and their ranking; storage and upstream contracts; the ideal view |
| `Routes.dfy`, `Sync.dfy` | runs of registrations of distinct keys; passes over storage, and what they do to both maps |
| `Resolver.dfy`, `Runs.dfy` | the resolver object; restart, repeated sync, fleets, repair and mixed runs |
| `Retention.dfy`, `Cleanup.dfy`, `Sums.dfy` | what retention rules mean; the planner and its execution |
| `Replication.dfy`, `Snapshot.dfy` | pull replication; capture and restore |
| `Format*.dfy`, `Strings.dfy`, `Sequences.dfy`, `Sorting.dfy`, `Outcomes.dfy` | parsers with their printers; string, list, sorting and result vocabulary |

`dafny verify dfyconfig.toml` checks everything.

## Where the program and its documentation part

- `golang/internal/catalog/catalog.go:207-211` says manifest order does not matter.
  `ManifestOrderIrrelevantIff` gives the exact condition: all manifests that hold a best-ranked
  record of a key have the same last one. `TiedManifestsDependOnOrder` is the failing input (two
  one-file manifests of buckets of equal rank, for instance two unconfigured ones). The order of
  single records is the finer question that `OrderIrrelevantIff` answers.
- The repository's `README.md:299` says stale records are removed. A sync never removes any:
  `StaleRecordSurvivesSync` exhibits one, `SyncReachesIdealIff` states exactly when a sync ends at
  the ideal view. Repair by `ResolveMissingFile` reaches it from any catalog (`RepairAll`).
- Routes identify entries only if no bucket name is a leading directory of another:
  `RunsStayConsistentIff`, with `NestedBucketsBreakRoutes` as the concrete failure.
- A second sync over unchanged files keeps every entry, but it can change the route index when a
  bucket name on record is a leading directory of a storage bucket's name or the other way round:
  `NestedNameUndoesSync` is the input, with the second name configured or not. For any set of names
  that may own keys, configured or not, `SecondPassIff` shows that all second passes leave both maps
  alone exactly when no storage bucket's name nests with a lower-ranked one of those names.
- `golang/internal/resolver/resolver.go:510` treats an empty bucket name as "no target yet".
  `RelocateAgreesIff` states exactly when relocation and repair still agree, and
  `NamelessBucketIsPassedOver` where they do not; the environment parsers skip empty names.
- `golang/internal/replication/puller.go:47-50` says a remote key appears in exactly one result
  list. `ExclusiveIff` shows that this holds of all runs exactly when entries that share their key
  are already up to date; `RepeatedKeyFailsAndIsPulled` is a run that puts a key in two lists. The
  multiset of keys is conserved always.
- `golang/internal/cleanup/cleanup.go:62-72` says an entry without a readable timestamp is never
  evicted, by any rule. The planner dates keys, not records: `UndatableRecordIsEvicted` shows one go
  by the age rule, `UndatableCanGo` by the count rule. `SparesUndatableIff` gives the exact
  condition, over all rules, times and outcomes of unstable sorts: no such entry shares its key with
  a readable one. `AgeRuleSparesUndatableIff` is the finer condition for the age rule alone.
- A captured catalog is restored exactly when it has no empty key and each route serves, of the
  entries that carry it, the one captured last (`RestoreCapture`); consistent catalogs meet the
  second condition. `EmptyKeyIsLost` and `NestedRouteIsNotRestored` are the inputs that fail.

## Model

| member | source | states |
|---|---|---|
| `CatalogState.StepConsistentIff` | golang/internal/catalog/catalog.go:75-139 | one catalog step keeps the route index the inverse of the entries' routes if and only if it does not write a route that serves another key |
| `CatalogState.RunsStayConsistentIff` | golang/internal/catalog/catalog.go:67-139 | all runs of steps over a set of bucket names keep the two maps inverse if and only if no name is a leading directory of another |
| `CatalogState.NestedBucketsBreakRoutes` | golang/internal/catalog/catalog.go:67-128 | with buckets "a" and "a/b" a registered entry's own route yields something else |
| `CatalogState.InterleavedLookupsAreSound` | golang/internal/catalog/catalog.go:67-235 | however any number of goroutines' steps interleave, a route lookup yields an entry exactly when that entry is registered and carries the route |
| `CatalogState.LookupByRouteIff` | golang/internal/catalog/catalog.go:150-158 | in a consistent catalog a route yields precisely the registered entry that carries it |
| `CatalogState.EntriesDetermineRoutes` | golang/internal/catalog/catalog.go:47-53 | two consistent catalogs with equal entries have equal route indexes |
| `CatalogState.RegistersNeverDemote` | golang/internal/catalog/catalog.go:71-96 | any run of registrations keeps every key, under an owner that ranks no lower |
| `CatalogState.NoHijack` | golang/internal/catalog/catalog.go:71-96 | ... and a key whose owner is unchanged keeps its route indexed |
| `Routes.LastTakerServes` | golang/internal/catalog/catalog.go:75-96 | after registrations of distinct keys none of which moves off a route an earlier one took, a route serves the key that took it last |
| `Routes.UntouchedRoute` | golang/internal/catalog/catalog.go:75-96 | a route that no registration of the run takes or leaves serves what it served before |
| `CatalogState.LoadedOwner` | golang/internal/catalog/catalog.go:207-235 | after loading records, each key belongs to the last record among those of best rank, and only recorded keys are present |
| `CatalogState.OrderIrrelevantIff` | golang/internal/catalog/catalog.go:75-96 | every permutation of single registrations builds the same entries if and only if each key's best-ranked records agree |
| `CatalogState.DistinctRanksAreTieFree` | golang/internal/catalog/catalog.go:207-235 | records whose ranks differ for each key meet that condition |
| `CatalogState.ManifestOrderIrrelevantIff` | golang/internal/catalog/catalog.go:207-235 | every permutation of the manifests loads the same entries if and only if all manifests that hold a best-ranked record of a key have the same last one |
| `CatalogState.TieFreeManifestsAgree` | golang/internal/catalog/catalog.go:207-235 | agreement of the best-ranked records implies that condition on manifests |
| `CatalogState.ContenderCanOwn` | golang/internal/catalog/catalog.go:207-235 | a manifest's last best-ranked record owns its key in some order of the manifests |
| `CatalogState.TiedManifestsDependOnOrder` | golang/internal/catalog/catalog.go:207-235 | two manifests that list "k", of buckets of equal rank, load differently in the two orders |
| `CatalogState.TiedBucketsDependOnOrder` | golang/internal/catalog/catalog.go:79-96 | two records of a key under buckets of equal rank load differently in the two orders |
| `CatalogState.ReloadIsExact` | golang/internal/catalog/catalog.go:212-235 | reloading records that repeat a consistent catalog and cover its keys rebuilds both maps |
| `CatalogState.TranscriptsReloadIff` | golang/internal/catalog/catalog.go:187-235 | loading manifests that list each owner's files rebuilds the catalog if and only if no key is empty |
| `CatalogState.EmptyKeyIsLost` | golang/internal/catalog/catalog.go:212-235 | a consistent catalog whose only key is empty, listed faithfully in its manifest, loads back to the empty catalog |
| `CatalogState.SortedListingIsUnique` | golang/internal/catalog/catalog.go:160-172 | a key-sorted listing of given entries is unique, so listings are deterministic |
| `Strings.LessIff` | golang/internal/catalog/catalog.go:170-170 | the order of listings by position: a proper prefix comes first, otherwise the smaller character where two texts first differ |
| `Catalogs.Catalog.constructor` | golang/internal/catalog/catalog.go:58-65 | a new catalog is empty |
| `Catalogs.Catalog.Register` | golang/internal/catalog/catalog.go:75-96 | as one recorded step: nothing changes if a better-ranked bucket owns the key; otherwise both maps hold exactly the new entry, on the route /bucket/key, in place of the old one |
| `Catalogs.Catalog.Set` | golang/internal/catalog/catalog.go:110-128 | as one recorded step, both maps hold exactly the new entry in place of the old one, whoever owned the key |
| `Catalogs.Catalog.Remove` | golang/internal/catalog/catalog.go:131-139 | the entry and its route leave together |
| `Catalogs.Catalog.Clear` | golang/internal/catalog/catalog.go:193-198 | nothing is left |
| `Catalogs.Catalog.ListAll` | golang/internal/catalog/catalog.go:162-172 | strictly key-sorted, and exactly the registered entries |
| `Catalogs.Catalog.ListByBucket` | golang/internal/catalog/catalog.go:176-190 | strictly key-sorted, and exactly the bucket's entries |
| `Catalogs.Catalog.LoadManifests` | golang/internal/catalog/catalog.go:212-235 | ends at the catalog built from scratch by one registration per usable record, whatever was there before |
| `CatalogState.LoadedOwnerIsListed` | golang/internal/catalog/catalog.go:212-235 | after loading, a key is owned as one of its items says: by the item's own bucket if it names one, otherwise the manifest's, and by none that another item of the key outranks |
| `CatalogState.ListedIsLoaded` | golang/internal/catalog/catalog.go:212-235 | every item of a readable manifest with a non-empty key is loaded |
| `Config.BucketPriority` | golang/internal/config/config.go:350-359 | position of the first bucket of a name, or the number of buckets for an unknown name |
| `Config.BucketTypeIs` | golang/internal/config/config.go:336-348 | a name is public exactly if its first bucket is; every other name, known or not, is private |
| `Config.LastByName` | golang/internal/config/config.go:307-310 | a map filled in configuration order keeps the last bucket of each name |
| `Config.ValidateVirtualRepoMembers` | golang/internal/config/config.go:306-324 | accepts if and only if the last bucket of every member name exists and has storage |
| `Config.ValidMemberIff` | golang/internal/config/config.go:306-334 | with virtual repositories configured last, that is equivalent to the name being borne by some storage bucket and no virtual one, and then the first bucket of the name has storage too |
| `Config.Load` | golang/internal/config/config.go:132-147 | accepts if and only if every member names only storage buckets, and then neither skip branch of virtual resolution can be taken, even with repeated names |
| `View.FoundIsIdeal` | golang/internal/resolver/resolver.go:146-208 | searching by HEAD and listing agree on every key that is no bucket's manifest |
| `View.IdealIff` | golang/internal/resolver/resolver.go:146-168 | the view, field by field: name and class of the first bucket that is not virtual and keeps the key as a file, its route, and its object's own length and timestamp |
| `View.FoundIff` | golang/internal/resolver/resolver.go:184-208 | the same for a search by HEAD |
| `View.SameIdeal` | golang/internal/resolver/resolver.go:119-136 | rewriting manifests does not change the ideal view |
| `View.SyncReachesIdealIff` | golang/internal/resolver/resolver.go:146-177 | a complete sync ends exactly at the ideal view, fresh sizes and timestamps included, if and only if no record is of a key nobody keeps or outranks the key's first keeper |
| `View.SyncFromSound` | golang/internal/resolver/resolver.go:146-177 | from a catalog whose every owner keeps its key, a complete sync ends at the ideal view |
| `View.PartialSyncKeepsSound` | golang/internal/resolver/resolver.go:146-157 | wherever a failed listing ends a sync, a sound catalog stays sound and an ideal one ideal |
| `View.StaleRecordSurvivesSync` | README.md:293-299 | a record of a vanished file is still there after a complete sync |
| `View.SyncIsIdempotent` | golang/internal/resolver/resolver.go:146-177 | a second complete sync over the same files changes no entry, from any starting catalog, and no route if both ends are consistent |
| `Syncs.PartialPassReaches` | golang/internal/resolver/resolver.go:146-177 | a pass of registrations ended before some bucket leaves the keys of the buckets before it as a complete sync does and the others as they were |
| `Syncs.SecondPassChangesNothing` | golang/internal/resolver/resolver.go:146-177 | a second pass over the same files changes neither map of any well-formed catalog none of whose owners ranks below a storage bucket with a nested name |
| `Syncs.LastTakerIsFixed` | golang/internal/resolver/resolver.go:146-177 | whatever order listings come in, the registration that takes a route last is the same in all passes over the same files |
| `Syncs.SecondPassIff` | golang/internal/resolver/resolver.go:146-177 | for any set of names, all second passes, over all files and from all consistent catalogs owned by those names, change neither map if and only if no storage bucket's name nests, either way round, with a lower-ranked one of them |
| `Syncs.ApartStorageIff` | golang/internal/resolver/resolver.go:146-177 | for owners that are all storage buckets the condition is that no storage name is a leading directory of another |
| `Syncs.NestedNameUndoesSync` | golang/internal/resolver/resolver.go:146-177 | bucket "a", with "k" on record under "a/b", configured or not: a second pass over the same files keeps the entries and changes the route index |
| `Syncs.VisitSettles` | golang/internal/resolver/resolver.go:152-168 | one bucket's turn in a sync settles exactly the keys it is the first to keep, whatever the catalog and whatever manifests the earlier turns saw, and the sync goes on from there |
| `Syncs.SyncedUpToManifests` | golang/internal/resolver/resolver.go:146-168 | manifests rewritten between two turns leave a sync's progress as it is |
| `View.SameDuplicates` | golang/internal/resolver/resolver.go:146-177 | rewriting manifests does not change which keys are duplicates |
| `Resolvers.Resolver.PersistManifests` | golang/internal/resolver/resolver.go:116-136 | touches only manifests; reports success exactly when no write failed, and then every storage bucket's manifest lists exactly its entries |
| `Resolvers.Resolver.SyncBucket` | golang/internal/resolver/resolver.go:158-168 | one bucket's files become seen, those seen before become duplicates, and exactly the others are registered under it, once each |
| `Resolvers.Resolver.SyncRegistry` | golang/internal/resolver/resolver.go:138-177 | always appends a pass that covers exactly the buckets before the first failed listing, so each key is synced or untouched; success gives every key its ideal owner unless a better-ranked bucket is on record, and the duplicate count is the number of keys kept by two or more storage buckets |
| `Resolvers.Resolver.Bootstrap` | golang/internal/resolver/resolver.go:96-114 | success is a complete pass over the catalog loaded from the stored manifests |
| `Resolvers.Resolver.ResolveMissingFile` | golang/internal/resolver/resolver.go:179-208 | returns and records the first bucket that has the key; removes the key only if every storage bucket lacks it; without failures the repaired manifests are persisted; a failed HEAD changes nothing |
| `Resolvers.Resolver.Relocate` | golang/internal/resolver/resolver.go:485-538 | reports duplicates exactly, the move from the previous owner, and success only if the new state is persisted; a failed HEAD changes nothing |
| `Resolvers.RelocateAgreesIff` | golang/internal/resolver/resolver.go:493-525 | relocation makes the same change as repair if and only if a nameless bucket is not the first of several holders |
| `Resolvers.NamelessBucketIsPassedOver` | golang/internal/resolver/resolver.go:493-525 | with holders "" and "b" repair records "" and relocation "b" |
| `Resolvers.Resolver.ResolveMissingFileByType` | golang/internal/resolver/resolver.go:277-300 | finds the first bucket of the requested visibility that has the key, whose entry carries that visibility; a miss leaves the catalog alone |
| `Resolvers.Resolver.RegisterResolvedObject` | golang/internal/resolver/resolver.go:428-458 | answers nothing exactly when a better-ranked bucket owns the key, and then leaves the catalog alone; otherwise the entry, spelled out, is found by key and by route and every other key is as it was |
| `Resolvers.Resolver.ResolveProxyRoute` | golang/internal/resolver/resolver.go:315-356 | unless a better-ranked bucket owns the key: a copy that never expires, or of known age within the TTL, is served as it stands and storage is unchanged; otherwise upstream's body, which is then cached; an answer is recorded in both maps, and anything else leaves the catalog as it was |
| `Resolvers.HitIff` | golang/internal/resolver/resolver.go:340-356 | a copy is missed exactly when it is absent, or the TTL is positive and its age unreadable or greater |
| `Resolvers.Resolver.ResolveHostedMemberRoute` | golang/internal/resolver/resolver.go:402-426 | serves the member's own object, with its length and timestamp, unless a better-ranked bucket owns the key, and records it in both maps |
| `Resolvers.Resolver.ResolveVirtualRoute` | golang/internal/resolver/resolver.go:358-400 | answers with the first member in order that offers the key and is not outranked by the owner before the request, each asked over the storage its predecessors left; for a key no member's own bucket uses for its manifest, over the storage before the request; an answer is recorded in both maps, no answer leaves them alone, and besides manifests only proxy members' objects of that key change |
| `Resolvers.VirtualRunServes` | golang/internal/resolver/resolver.go:358-400 | unless a member's own bucket uses the key for its manifest, what earlier members leave of storage cannot change the answer |
| `Resolvers.Resolver.ResolveMember` | golang/internal/resolver/resolver.go:364-398 | one member's turn, by the kind of the first bucket of its name; nothing for a name without storage; what it leaves of storage and catalog |
| `Resolvers.VirtualServesFirst` | golang/internal/resolver/resolver.go:363-400 | the virtual answer is that of the first serving member by position, and absent only if no member serves |
| `Resolvers.Resolver.ResolveRoute` | golang/internal/resolver/resolver.go:210-257 | whatever fails, an answer exists in its bucket and matches the request by route, visibility or membership, and an error leaves the catalog as it was; without failures the answer and the catalog left behind are those of the catalogued entry, the repair, the visible bucket, the proxy or the virtual repository the path addresses; an answer is what the catalog served already, unchanged, or is recorded in both maps with every other key as it was; besides manifests only objects in a proxy that the path addresses, alone or as a member, change |
| `Resolvers.HostedRouteIff` | golang/internal/resolver/resolver.go:210-257 | without failures a hosted route is answered if and only if its bucket owns and still holds the key or is the first bucket to hold it |
| `Resolvers.VirtualPrefixIff` | golang/internal/resolver/resolver.go:259-275 | a path asks by visibility if and only if it is /public/ or /private/ with a key after it |
| `Resolvers.HostedRequestFacts` | golang/internal/resolver/resolver.go:213-275 | for slash-free distinct names, a hosted path matches its own bucket only, no convenience prefix, and a catalogued route names exactly that key and bucket |
| `Runs.PersistedReloads` | golang/internal/resolver/resolver.go:96-136 | stored manifests load back to exactly the catalog that was persisted |
| `Runs.Restart` | golang/internal/resolver/resolver.go:96-177 | persisting and bootstrapping a fresh process ends with the same entries, routes and duplicate count as syncing the old process |
| `Runs.SyncTwice` | golang/internal/resolver/resolver.go:146-177 | a second sync changes neither entries nor count; if no owner on record ranks below a storage bucket with a nested name it leaves both maps as the first did; from a sound start both end at the ideal view |
| `Runs.FleetProgress` | golang/internal/resolver/resolver.go:146-177 | through any interleaving of replicas' bucket visits, of syncs complete or aborted, a sound replica stays sound and is ideal on the keys whose first keepers it has visited |
| `Runs.ReplicasAgree` | golang/internal/resolver/resolver.go:146-177 | replicas that start sound and have each got to every bucket agree on the ideal view, though they overwrite each other's manifests and any of their syncs may have failed |
| `Runs.RunFleet` | golang/internal/resolver/resolver.go:138-177 | the same for the code: resolvers over one store sync in any order, failing anywhere; all stay sound, and those that completed a sync are ideal and agree |
| `Runs.RepairAll` | golang/internal/resolver/resolver.go:184-208 | repairing every recorded or kept key reaches the ideal view on all non-manifest keys, from any catalog |
| `Runs.RunAny` | golang/internal/resolver/resolver.go:146-458 | over any run of syncs, proxy and virtual requests and pulls, failing anywhere and from any catalog, no key disappears and no owner gets worse; if the catalog is consistent and no name that can own a key nests in another, an unchanged owner's route still serves the key |
| `Retention.PlanIsDetermined` | golang/internal/cleanup/cleanup.go:62-111 | all permutations of the entries, and all results of unstable sorts, have one plan, which selects datable entries only |
| `Retention.VictimsShrink` | golang/internal/cleanup/cleanup.go:76-203 | with non-negative sizes, removing entries makes no new victim under any mix of the three rules |
| `Retention.BehindIsSuffix` | golang/internal/cleanup/cleanup.go:128-160 | what would be left after evicting everything older than an entry is the rest of the sorted list |
| `Retention.CutIsExcess` | golang/internal/cleanup/cleanup.go:149-201 | the prefix at which evicting stops holds exactly the entries that exceed the limit at every earlier stage |
| `Retention.PlanIsShortestPrefix` | golang/internal/cleanup/cleanup.go:81-161 | with version counts off, the victims are the shortest oldest-first prefix after which no datable entry is over age and the total fits or nothing datable is left |
| `Retention.OldestGoFirst` | golang/internal/cleanup/cleanup.go:81-161 | with version counts off, the older of two readable entries goes first, and at one instant the one whose key comes first, by position |
| `Retention.PlanFitsSize` | golang/internal/cleanup/cleanup.go:119-161 | the size rule alone leaves at most the limit in bytes, or nothing readable, and sparing the last victim would leave more |
| `Retention.CutKeeps` | golang/internal/cleanup/cleanup.go:173-201 | a group over its limit keeps exactly the larger of the limit and its number of undatable members |
| `Retention.KeptAreNewer` | golang/internal/cleanup/cleanup.go:178-200 | in a group, every datable member kept is newer than every member evicted, or as old with a key that comes later |
| `Cleanup.ParseAges` | golang/internal/cleanup/cleanup.go:205-213 | each key is dated by its last readable timestamp, and exactly the keys that have one |
| `Cleanup.OldestFirst` | golang/internal/cleanup/cleanup.go:119-161 | a prefix of some sort by age, evicted while the rest was over the limit; for distinct keys exactly the entries in excess of the size limit |
| `Cleanup.GroupOverflow` | golang/internal/cleanup/cleanup.go:174-201 | the same for one group; for distinct keys exactly the members in excess of the version limit, keeping max(limit, undatable) members |
| `Cleanup.VersionOverflow` | golang/internal/cleanup/cleanup.go:163-203 | the same over all groups, each once in some order, leaving entries without a group alone |
| `Cleanup.Plan` | golang/internal/cleanup/cleanup.go:62-111 | for all entries, repeated keys included, the result is a run of the three rules over some sorts by age and some order of the groups; for distinct keys it is exactly the entries over age, over size or over count, oldest first and by key at one instant; under the age rule alone exactly the last records of the keys over age |
| `Cleanup.PlanRunDates` | golang/internal/cleanup/cleanup.go:62-111 | in every run only entries of keys that some record dates go |
| `Cleanup.SparesUndatableIff` | golang/internal/cleanup/cleanup.go:62-203 | over all rules, times and runs no entry without a readable timestamp is evicted if and only if none shares its key with a readable one |
| `Cleanup.UndatableCanGo` | golang/internal/cleanup/cleanup.go:163-203 | an unreadable record whose key another record dates is evicted in some run of the count rule |
| `Retention.AgeRuleSparesUndatableIff` | golang/internal/cleanup/cleanup.go:62-92 | the age rule spares all entries without a readable timestamp, at every time and limit, if and only if none is the last record of a key another record dates |
| `Retention.UndatableRecordIsEvicted` | golang/internal/cleanup/cleanup.go:62-92 | "k" recorded with a readable timestamp and then without one: the second record is selected |
| `Cleanup.Execute` | golang/internal/cleanup/execute.go:11-30 | every victim is either reported or deleted; exactly the deleted ones' slots are gone from storage and their keys from the catalog, and nothing else changes |
| `Cleanup.ReplanWithinFailed` | golang/internal/cleanup/cleanup.go:76-203 | after any deletes failed, planning again at the same time selects only entries whose delete failed |
| `Cleanup.CleanUpThenPlan` | golang/internal/cleanup/execute.go:20-30 | the same for the code: plan, execute, list and plan again; with no failure the second plan is empty |
| `Replication.Puller.Pull` | golang/internal/replication/puller.go:60-130 | every outcome is a run of the per-entry steps; pulled, skipped and failed together are the remote keys, one error per failure; no key is in two lists if repeated keys are up to date; with distinct keys exactly the entries are skipped whose local timestamp is the remote one or after it, and an entry that did not fail is owned by a better-ranked bucket, as just pulled, or at no older timestamp, its bytes in the target bucket; no other key and no object that was not pulled changes |
| `Replication.UpToDateIff` | golang/internal/replication/puller.go:104-130 | up to date means a known remote timestamp, the target as owner, and a local timestamp equal to it, extending it, or with the larger character at the first difference |
| `Replication.ExclusiveIff` | golang/internal/replication/puller.go:47-102 | all runs put each key in one list if and only if entries that share their key are up to date before the pull |
| `Replication.RepeatedKeyFailsAndIsPulled` | golang/internal/replication/puller.go:47-102 | a manifest that lists "k" twice, pulled into an empty catalog, can leave "k" both failed and pulled |
| `Replication.RefetchIff` | golang/internal/replication/puller.go:104-130 | after a pull a key would be fetched again if and only if it failed, has no remote timestamp, or belongs to a better-ranked bucket |
| `Runs.PullTwice` | golang/internal/replication/puller.go:73-130 | a second pull fetches exactly those keys |
| `Snapshots.DistinctBuckets` | golang/internal/snapshot/snapshot.go:67-78 | strictly sorted, and exactly the buckets that own an entry |
| `Snapshots.Capture` | golang/internal/snapshot/snapshot.go:46-65 | one non-empty manifest per owning bucket, listing exactly its files |
| `Snapshots.Restore` | golang/internal/snapshot/snapshot.go:102-119 | replaces the catalog by what the document's manifests load to |
| `Snapshots.RestoreCapture` | golang/internal/snapshot/snapshot.go:46-119 | restoring a capture of any catalog reproduces both maps, whatever the target held, if and only if no key is empty and each route serves the entry captured last; consistent catalogs meet the latter |
| `Snapshots.NestedRouteIsNotRestored` | golang/internal/snapshot/snapshot.go:46-119 | "k" set under "a/b" and then "b/k" under "a": the shared route serves "b/k", and the capture would have it serve "k" |
| `GenericFormat.ParseRouteIff` | golang/internal/format/generic/generic.go:23-32 | a path parses to exactly the routable pair it spells |
| `GenericFormat.RouteRoundTrip` | golang/internal/format/generic/generic.go:18-32 | reading a printed route gives the pair back if and only if it is routable |
| `GenericFormat.RouteCollision` | golang/internal/catalog/catalog.go:67-69 | two pairs share a route only if they are equal or one bucket name nests in the other |
| `RpmFormat.ParsePrintIff` | golang/internal/format/rpm/rpm.go:28-78 | a filename parses to a reference if and only if the reference is well formed and prints it |
| `RpmFormat.ArchitectureIff` | golang/internal/format/rpm/rpm.go:28-78 | of filenames that differ only in their dot-free last part, exactly those of the ten listed architectures parse |
| `DebianFormat.ParsePrintIff` | golang/internal/format/debian/debian.go:19-40 | the same for .deb filenames |
| `DebianFormat.FilenameParses` | golang/internal/format/debian/debian.go:19-40 | name_version_arch.deb, spelled out, parses to its three parts |
| `DebianFormat.PoolLetterIs` | golang/internal/format/debian/debian.go:53-61 | a library goes under lib and one more letter, any other package under its first letter |
| `DebianFormat.PoolPathRoundTrip` | golang/internal/format/debian/debian.go:42-93 | the last segment of a package's pool path parses back to the package, and the path splits into the conventional directories |
| `VersionedFormat.ParseChartFilename` | golang/internal/format/helm/helm.go:19-53 | parses exactly name-version.tgz where the version starts with one of 0123456789 and none of them follows a hyphen in the name; a filename without a digit after a hyphen does not parse |
| `VersionedFormat.ParseNuGetFilename` | golang/internal/format/nuget/nuget.go:19-61 | the same for name.version.nupkg with dots, which names and versions both contain |
| `VersionedFormat.PrintIsInjective` | golang/internal/format/helm/helm.go:36-52 | no two well-formed references print the same filename |
| `NpmFormat.ParsePrintIff` | golang/internal/format/npm/npm.go:32-72 | a key parses to a reference if and only if, less one leading slash, the well-formed reference prints it, for scoped, bare and tarball keys |
| `NpmFormat.PrintParseIff` | golang/internal/format/npm/npm.go:32-72 | printing then parsing is lossless if and only if the reference is well formed and its key does not start with a slash |
| `NpmFormat.MetadataKeyIsFullName` | golang/internal/format/npm/npm.go:24-30 | a package's full name parses back to its metadata reference |
| `NpmFormat.MetadataKeysParse` | golang/internal/format/npm/npm.go:32-72 | name and @scope/name, spelled out, parse to the package without a version |
| `NpmFormat.TarballKeyParses` | golang/internal/format/npm/npm.go:32-72 | name/-/name-version.tgz, spelled out, parses to name and version |
| `NpmFormat.ScopedTarballKeyParses` | golang/internal/format/npm/npm.go:32-72 | the same under a scope |
| `MavenFormat.ParsePrintIff` | golang/internal/format/maven/maven.go:26-115 | a path whose group directories are dot-free parses to a coordinate if and only if the coordinate is well formed and prints the path |
| `MavenFormat.PrintParse` | golang/internal/format/maven/maven.go:26-115 | every well-formed coordinate survives printing and parsing |
| `MavenFormat.LeftoverDigitsIff` | golang/internal/format/maven/maven.go:63-82 | a file whose name continues the version with a dot and digits only before the next dot does not parse, any other extension of several parts does |
| `MavenFormat.OtherVersionIsRejected` | golang/internal/format/maven/maven.go:63-82 | so a file of version 1.0.1 does not parse under version 1.0 |
| `MavenFormat.PathParses` | golang/internal/format/maven/maven.go:26-92 | a path of two group directories, spelled out, parses to its coordinate |
| `MavenFormat.ClassifiedPathParses` | golang/internal/format/maven/maven.go:26-92 | the same with a classifier |

## Left out

- ResolveRoute: a catalogued route is served without a TTL check, as in the program; what a virtual request for a member's manifest key finds depends on manifests rewritten during the request, whose contents are left open there.
- HostedRouteIff: assumes slash-free distinct names, none of them "public" or "private", which the convenience prefixes shadow.
- Restart: stated for unnested storage names and for catalogs whose owners are configured storage buckets and that have no empty key.
- VictimsShrink: assumes non-negative sizes, as storage reports them.
- Load: the text of the environment variables is not parsed; the three bucket lists it concatenates are its inputs. A bucket with an empty kind behaves as hosted and is modelled as such.
- Storage, upstream and remote: modelled by their interface contracts. Listings have distinct keys, a failed write or delete leaves storage unchanged, and one request reads one clock value.
- JSON: a manifest is taken to decode to the entries it was encoded from; other content decodes to some list or to none. Document version checking on reading a snapshot is not modelled.
- RFC 3339 parsing is an arbitrary partial function from text to instants; durations and sizes are unbounded integers, so overflow and saturation do not appear.
- In-place sorting: local slices are sequences here and `sort.Slice` is any permutation without inversions; the catalog's two maps are fields updated in place.
- Concurrency: interleavings are proved about at the level of the catalog's atomic steps; the resolver's return values are stated for sequential runs.
- The format packages' route parsers other than the generic one repeat its split and then apply the filename parsers proved here; Docker, PyPI and Terraform names are fixed-shape splits.
- HTTP handlers, authentication, rate limiting, policy, reporting, licences, webhooks, SBOMs, vulnerability scanning and metrics would add only easy members or depend on external services.
