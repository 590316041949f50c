# ROMCloud: a verified model of SaveSync, cache admission, save layouts, atomic writes, conflict resolution and cue paths

This project models the parts of ROMCloud on which its promises to the user rest, in Dafny 4.11, and proves them for
all inputs, all runs and all interleavings. `dafny verify dfyconfig.toml` checks everything.

- **SaveSync merges** (`SaveContainers`, `ContainerPlanner`, `ReconcileTheorems`, `PlanMeaning`, `DomainLine`,
  `SaveSyncRuns`): the planner that compares a local snapshot, a remote snapshot and the last converged baseline domain by domain, as the
  loops it is and as a specification; and on top of it one remote and any number of devices that edit and reconcile
  in any order.
- **Cache admission** (`Reservations`, `CacheProtocol`, `AdmissionDecisions`, `CacheReclamation`, `CacheOvershoot`,
  `AssetLocks`, `RecoveryAccounting`, `RecoveryMoves`): one lease with its lagging durable row, many processes that interleave and may die
  anywhere, ordered asset locks, and the count of staged bytes during crash recovery under any manifest.
- **Save layouts** (`SaveSelection`, `WatchRoots`, `RootMeaning`, `RootSearches`, `SaveDiscovery`, `SaveGroups`,
  `GroupKeys`, `RegistryCorners`): the two frontier searches over a directory tree, the matcher and the grouping that must agree with both.
- **Atomic replacement** (`AtomicFile`): a file system whose names and contents reach the disk only when synchronised,
  with every operation free to fail, counted when it does, and a crash possible after each.
- **Conflict resolver** (`HoldConfirm`, `ConflictPopup`): the popup's state machine over arbitrary inputs, times and
  backend outcomes.
- **Cue sheets and cache paths** (`PosixPaths`, `CuePaths`, `CueDirectories`): lexical path resolution and where its results lie in the
  cache.

`Options`, `Ordering` and `FiniteSums` hold optional values and results, Python's string order and stable sort, and sums
over maps.

## Where the code and the expectation part

- `_fits` reads the staged bytes and the reservation rows one after the other, and `release` deletes its row without the
  admission lock. A client that writes its bytes and releases between the two reads is counted by neither, so the cache
  can be committed beyond its maximum by the whole of that reservation (`ReleaseInsideFitsOvershoots`). Without such a
  client the quota holds in every run, other releases between the two reads included (`QuotaIsSafe`), and so it does if
  one `_fits` is one observation. There is no converse run by run: rows may reserve more than is still owed, and that
  slack can absorb what was not seen; what was not seen bounds the excess in every run (`QuotaUpToOvershoot`).
- Recovery accounting needs more than distinct, non-nested final paths. A final path that is another row's
  `.romcloud-replaced` backup path is counted twice (`BackupClashCountsTwice`), and so is a file that a replacement moves
  to a final path below that backup path (`NestedClashCountsTwice`). `ReplacementConserves` and `PromotionIsConserved`
  say for every manifest and row whether its move is safe.
- A state file whose part after `.state` contains `.savestat` is grouped apart from its ROM, because `_root_stem` looks
  for `.savestat` first (`StateFileSharesRomGroup`, `StateFileApartFromRom`).
- A file whose name contains a backslash is discovered below its watch root but has no group
  (`DiscoveredFilesHaveGroups`, `DiscoveredFileWithoutGroup`).
- The documentation of `cue_parser.py` says that references are always relative to the cue sheet's directory. An
  absolute reference such as `/psx/a.bin` is accepted and read from the directory that holds the systems
  (`AbsoluteReferencesCountFromTheTop`, `ReferenceFromTheTop`).
- A cue path of a single name has no directory; the source then takes that name as the system and as the directory that
  references count from (`CueLiesAt`).
- `resolve_watch_roots_from_listing` claims the same matching rules as `watch_roots`. With a canonical prefix the two
  part in two cases: behind a linked root the live search does not list that root, while the listing search does
  (`LinkedRootHidesListings`, `LinkedRootHidesHash`); and where the root is no directory the live search returns nothing
  at once, while the listing search still reports every marker-free layout whose pattern the prefix covers (`TwinsAgree`,
  `AbsentRootIsListed`). The one caller of the listing search passes no prefix, and then they agree whatever the root is
  (`TwinsAgreeWithoutPrefix`).
- The conflict popup compares the text of the applied conflict's identifier with the identifiers in its queue, so a
  conflict whose identifier is not text stays in the queue when it has been applied (`AppliedConflictAloneIsDropped`).

## How the source's surroundings enter the model

- SQLite is a map from row identifiers to reserved bytes; `flock` is ownership of a lock that ends with its owner's life.
- The registry's token validators, `fnmatch`, case folding and the two suffix-stripping expressions are parameters.
  Case folding works letter by letter, leaves dots and slashes alone and keeps the letters of `.savestat`. `ValidRegistry` states
  what the shipped registry satisfies: distinct identifiers (the constructor checks them), systems that are plain names
  and no tokens, no `..` in a root pattern, and validators that accept plain names only.
- Relative paths below a configured root are lists of segments; canonical paths, cue paths and references are strings.
- Time is real-valued; the backend's answers and the user's inputs are arbitrary.
- In the file system a crash may leave, independently for every name, any link it has had since the last directory
  sync, and any contents for a file changed since its last sync.

## Model

| member | source | states |
|---|---|---|
| `ContainerPlanner.GroupDomains` | src/romcloud/core/save_containers.py:73-80 | the grouping loop builds, for each merge domain, the domain's entries sorted stably by identity |
| `ContainerPlanner.MergeDomain` | src/romcloud/core/save_containers.py:372-406 | one iteration of the three-way loop brings exactly its own domain from its old to its planned state in all four working dictionaries, and touches no other domain |
| `ContainerPlanner.BootstrapDomain` | src/romcloud/core/save_containers.py:323-345 | one iteration of the no-baseline loop does the same, read through the three-way rule with an empty ancestor |
| `ContainerPlanner.PlanThreeWay` | src/romcloud/core/save_containers.py:363-422 | the whole three-way branch yields the specified plan, next baseline and tombstones included |
| `ContainerPlanner.PlanBootstrap` | src/romcloud/core/save_containers.py:313-361 | the whole no-baseline branch yields the specified plan |
| `ContainerPlanner.PlanContainerReconcile` | src/romcloud/core/save_containers.py:302-422 | the planner with its compatibility check: a plan, or the version-mismatch error, for all inputs |
| `ContainerPlanner.TargetSnapshot` | src/romcloud/core/save_containers.py:425-458 | rehydration takes for every desired entry the first observed match, fails exactly if one is missing or the side is unknown, and sorts by identity |
| `SaveContainers.DomainMapOfSortedValues` | src/romcloud/core/save_containers.py:273-276 | writing a dictionary of domains out in key order and reading it back gives it back |
| `ReconcileTheorems.BootstrapRefinesThreeWay` | src/romcloud/core/save_containers.py:313-361 | the separately written no-baseline loop gives the same whole plan as the three-way loop run on an empty baseline |
| `ReconcileTheorems.ReconcileIsSymmetric` | src/romcloud/core/save_containers.py:302-422 | swapping local and remote mirrors the plan, exchanges use-local and use-remote, and leaves the next baseline and the errors as they were |
| `ReconcileTheorems.ViewIsCanonical` | src/romcloud/core/save_containers.py:233-255 | with identities unique per domain, the planner sees the same of two snapshots if and only if they hold the same entries by domain, identity, hash and size; order and locators do not reach it |
| `ReconcileTheorems.PlanIsCanonical` | src/romcloud/core/save_containers.py:302-422 | the whole plan depends only on the logical contents of the two snapshots |
| `PlanMeaning.MismatchIsRefused` | src/romcloud/core/save_containers.py:279-299 | a reconcile is refused if and only if container, adapter, schema or format differ between the snapshots or from the baseline |
| `PlanMeaning.SameVersionSameContents` | src/romcloud/core/save_containers.py:241-255 | two snapshots hold the same version of a domain if and only if the same identities have the same hashes and sizes in it |
| `PlanMeaning.PlanListsEveryDomainOnce` | src/romcloud/core/save_containers.py:363-422 | a plan decides every domain that a snapshot holds or the baseline records, each once and no other, and lists decisions, sides, baseline and tombstones by name |
| `PlanMeaning.DecisionsSayWhatHappens` | src/romcloud/core/save_containers.py:372-406 | what each action name stands for: use-local carries the local version to an unchanged remote, use-remote the remote version to an unchanged local, a conflict leaves sides, baseline and tombstone alone, and any other outcome settles all of them |
| `PlanMeaning.ConvergedExactlyWhenSame` | src/romcloud/core/save_containers.py:376-378 | a domain is converged if and only if both sides hold the same identities with the same hashes and sizes |
| `PlanMeaning.ChangedEntryIsNoticed` | src/romcloud/core/save_containers.py:233-237 | a domain whose only entry differs in hash or size alone is not converged |
| `PlanMeaning.PlansAgreeExactlyWhenContentsDo` | src/romcloud/core/save_containers.py:302-422 | two plans against one baseline are the same if and only if their snapshots hold the same entries but for order and locators |
| `PlanMeaning.TargetTakesFirst` | src/romcloud/core/save_containers.py:437-458 | a target is ordered by identity, and each entry is the first observed one of its content, local before remote, so a version that the local side holds keeps its local locator |
| `ReconcileTheorems.TargetsNeverFail` | src/romcloud/core/save_containers.py:425-458 | both targets of a plan can always be built from the snapshots it was made from, and regroup to exactly the planned domains |
| `ReconcileTheorems.NextMerge` | src/romcloud/core/save_containers.py:302-458 | the dictionaries read by the following reconcile are exactly the ones this reconcile planned |
| `ReconcileTheorems.DisjointnessIsKept` | src/romcloud/core/save_containers.py:400-406 | recorded domains and tombstones stay disjoint if they were |
| `ReconcileTheorems.ReconcileReachesFixpoint` | src/romcloud/core/save_containers.py:302-458 | planning again from the two targets lists the same domains, each converged or in the very same conflict, and moves neither side nor the baseline |
| `ReconcileTheorems.ReconcileEffect` | src/romcloud/core/save_containers.py:302-458 | what planning, rehydrating and storing the baseline together leave in each single domain |
| `SaveSyncRuns.StepIsMove` | src/romcloud/core/save_containers.py:302-458 | an edit or a reconcile of the whole container acts on every domain through that domain alone |
| `SaveSyncRuns.RunIsPlay` | src/romcloud/core/save_containers.py:302-458 | every run of N devices, seen through one domain, is a run of the one-domain system |
| `DomainLine.BaselineIsLastSeen` | src/romcloud/core/save_containers.py:363-422 | after any run a device's baseline of a domain is the remote version right after its last reconcile of that domain without a conflict |
| `DomainLine.NothingUnseenIsReplaced` | src/romcloud/core/save_containers.py:372-406 | a merge replaces a version only if it equals what the device last saw there; in a conflict nothing changes |
| `DomainLine.UnsyncedVersionsSurvive` | src/romcloud/core/save_containers.py:372-406 | a version a device has not synchronised stays in place until that device's own merge has brought it to the remote |
| `DomainLine.TwoRoundsSettle` | src/romcloud/core/save_containers.py:372-406 | two rounds of merges settle one domain |
| `SaveSyncRuns.NothingUnseenIsOverwritten` | README.md:429 | no reconcile in any run of N devices overwrites a version its device has not seen, on either side, and a conflict changes nothing |
| `SaveSyncRuns.UnsyncedEditsSurvive` | README.md:492-494 | whatever the others do, an unsynchronised edit or deletion is kept, still unsynchronised, until a reconcile of this very device has brought it to the remote |
| `SaveSyncRuns.ConflictFreeAt` | src/romcloud/core/save_containers.py:393-395 | what a conflict-free round means: at no step does the reconciling device face a conflict in the domain |
| `SaveSyncRuns.TwoRoundsConverge` | src/romcloud/core/save_containers.py:302-422 | once edits stop, a conflict-free round followed by any second round leaves the remote unmoved in the second and every device equal to it, deletions included |
| `Reservations.RowCoversPromise` | src/romcloud/infrastructure/cache_coordination.py:106-137 | after any calls 0 <= reserved <= row, the row exceeds the promise by less than 256 MiB, a promise of zero has a row of zero, and the promise covers what was promised and not consumed |
| `Reservations.PromiseIsGreatestBalance` | src/romcloud/infrastructure/cache_coordination.py:106-128 | the promise exactly: the greatest balance of protected less consumed bytes since any point, or since the admission with the bytes admitted |
| `Reservations.LagWritesAreRare` | src/romcloud/infrastructure/cache_coordination.py:113-118 | every row update by a consuming call that leaves something reserved is paid for by a whole granule of promised bytes |
| `Reservations.LagWriteBound` | src/romcloud/infrastructure/cache_coordination.py:81-84 | such updates number at most (initial + protected) / 256 MiB |
| `Reservations.ReservationLease.constructor` | src/romcloud/infrastructure/cache_coordination.py:86-100 | a lease starts with its row and promise equal and its liveness lock held |
| `Reservations.ReservationLease.ConsumeGrowth` | src/romcloud/infrastructure/cache_coordination.py:106-118 | the object and its row move as the value-level step says, and no other row changes |
| `Reservations.ReservationLease.ProtectRemoval` | src/romcloud/infrastructure/cache_coordination.py:120-128 | the same for protecting a removal |
| `Reservations.ReservationLease.PersistReserved` | src/romcloud/infrastructure/cache_coordination.py:130-137 | the row, if it still exists, takes the promise's value; a deleted row is not brought back |
| `Reservations.ReservationLease.Release` | src/romcloud/infrastructure/cache_coordination.py:144-153 | the first call deletes the row and drops the lock, later calls change nothing |
| `CacheProtocol.InvHolds` | src/romcloud/infrastructure/cache_coordination.py:106-153 | the protocol invariant (rows of the living locked, rows covering what is owed, quota bound) holds after every run with crashes at any point |
| `CacheProtocol.QuotaUpToOvershoot` | src/romcloud/infrastructure/cache_coordination.py:267-331 | in every interleaving, final + staged + writable bytes exceed the maximum by no more than an accepted admission failed to see, and the free-space reserve always holds |
| `CacheProtocol.QuotaIsSafe` | src/romcloud/infrastructure/cache_coordination.py:267-331 | the quota holds in every run in which no lease both writes and releases between the staging read and the row sum of one `_fits`; other releases there are harmless |
| `CacheProtocol.QuotaIsSafeWithAtomicFits` | src/romcloud/infrastructure/cache_coordination.py:323-331 | in particular it holds if one `_fits` is one observation |
| `AdmissionDecisions.VerdictFollowsReadings` | src/romcloud/infrastructure/cache_coordination.py:284-331 | in every run an admission is accepted if the bytes of its last reading, the rows it then summed and the request stay within the maximum and leave the minimum free, refused if not, and evicts before only if its first evaluation found no room |
| `AdmissionDecisions.RequestedAsAsked` | src/romcloud/infrastructure/cache_coordination.py:278-283 | the bytes an owner is judged by are those it asked for |
| `AdmissionDecisions.UndisturbedVerdict` | src/romcloud/infrastructure/cache_coordination.py:323-331 | an evaluation that nobody disturbs accepts if and only if the committed bytes, what the rows reserve beyond them, and the request fit |
| `AdmissionDecisions.TightVerdict` | src/romcloud/infrastructure/cache_coordination.py:323-331 | where the rows reserve just what may still be written, it refuses exactly the requests that do not fit |
| `AdmissionDecisions.RequestIsAnswered` | src/romcloud/infrastructure/cache_coordination.py:267-317 | from every reachable state a waiting request left alone is granted, with its row and the rows of the living, if there is room beside them, and denied if there is not |
| `AdmissionDecisions.BytesAreAccountedFor` | src/romcloud/infrastructure/cache_coordination.py:106-142 | in every run the cache tree holds what was written and neither removed nor evicted, and the disk has lost exactly that |
| `AdmissionDecisions.CommittedChanges` | src/romcloud/infrastructure/cache_coordination.py:106-153 | what is committed changes only when a row is inserted, bytes are evicted, or a lease ends, and by just those bytes |
| `AdmissionDecisions.LeaseMayWrite` | src/romcloud/infrastructure/cache_coordination.py:106-128 | in every run an active lease may write just what it was admitted for and has removed, less what it has written |
| `CacheOvershoot.ReleaseInsideFitsOvershoots` | src/romcloud/infrastructure/cache_coordination.py:144-153 | the assumption is needed: for every size m a run exists that commits the cache to m bytes more than its maximum |
| `CacheReclamation.ReclaimIsExact` | src/romcloud/infrastructure/cache_coordination.py:341-362 | stale reclamation deletes no live row, every row it leaves was found locked when probed, and all it deletes was found unlocked |
| `CacheReclamation.LiveRowsAreLocked` | src/romcloud/infrastructure/cache_coordination.py:278-313 | in every reachable state the row of a live owner has its liveness lock held, and covers all the owner may still need |
| `CacheProtocol.ReportingIsConsuming` | src/romcloud/infrastructure/cache_coordination.py:106-118 | the protocol's reporting step, with the row update it calls for, is the lease's `consume_growth` |
| `CacheProtocol.AskingIsProtecting` | src/romcloud/infrastructure/cache_coordination.py:120-137 | the protocol's removal request, with the row update before it, is the lease's `protect_removal` |
| `AssetLocks.FileLockLease.Release` | src/romcloud/infrastructure/cache_coordination.py:28-34 | gives back exactly the lease's handles and leaves none; a second call does nothing |
| `AssetLocks.AcquireNonBlocking` | src/romcloud/infrastructure/cache_coordination.py:56-77 | ends holding every lock asked for, which it does exactly if all were free, or none at all, for any list of paths with repeats |
| `AssetLocks.StepIsGood` | src/romcloud/infrastructure/cache_coordination.py:66-77 | no two processes ever hold the same lock |
| `AssetLocks.NoDeadlock` | src/romcloud/infrastructure/cache_coordination.py:62-73 | while any process is unfinished, some process can step, whatever lists of paths they asked for |
| `AssetLocks.StepUsesWork` | src/romcloud/infrastructure/cache_coordination.py:66-77 | every step, deaths included, uses up a bounded amount of work |
| `AssetLocks.EveryAcquireEnds` | src/romcloud/infrastructure/cache_coordination.py:56-77 | from any start, in any interleaving and whoever dies, runs are bounded, locks exclusive, and unfinished runs can go on |
| `RecoveryAccounting.MeasureStaging` | src/romcloud/infrastructure/cache_coordination.py:200-257 | the three summing loops compute partials plus promoted finals plus replacement backups |
| `RecoveryAccounting.MeasurePath` | src/romcloud/infrastructure/cache_coordination.py:365-374 | the size of a file, of everything below a directory, or nothing |
| `RecoveryAccounting.StagingCountsEachCover` | src/romcloud/infrastructure/cache_coordination.py:200-257 | the count is a double counting: every file's bytes, once for each counted place that holds it |
| `RecoveryAccounting.CountedPlaces` | src/romcloud/infrastructure/cache_coordination.py:201-246 | which places count: `.partial`, every final path, and every final path with `.romcloud-replaced` after its name |
| `RecoveryAccounting.StagingAfterMove` | src/romcloud/infrastructure/cache_coordination.py:200-257 | exactly how moving any file or tree changes the count, under any manifest: each moved file's bytes, times the counted places that hold it now less those that held it |
| `RecoveryAccounting.ConservedExactlyWhenCoverIsEqual` | src/romcloud/infrastructure/cache_coordination.py:200-257 | under any manifest, moves between two places are invisible to the count, whatever is moved, if and only if at every path below them as many counted places hold it after as before |
| `RecoveryMoves.PromotionIsConserved` | src/romcloud/infrastructure/cache_coordination.py:211-220 | with distinct final paths, none inside another, promoting a staged member is invisible to the count, whatever is staged, if and only if nothing the manifest names begins inside the staged tree and as many of its paths hold the staged place as hold the final path besides the row itself |
| `RecoveryMoves.PromotionConserves` | src/romcloud/infrastructure/cache_coordination.py:211-220 | if no system is named `.partial`, a promotion counts the moved bytes once more for every row whose backup lies at or above the final path, and so is invisible exactly if there is no such row or no byte |
| `RecoveryMoves.ReplacementConserves` | src/romcloud/infrastructure/cache_coordination.py:229-246 | with distinct final paths, none inside another, setting an old final path aside is invisible to the count, whatever stands there, if and only if no row lies strictly below the backup path, and the backup path is a final path of the manifest just if the final path is a backup path of it |
| `RecoveryMoves.ReplacementChange` | src/romcloud/infrastructure/cache_coordination.py:229-246 | with no row below the backup path, the whole tree is counted once more, once less, or as before, as these two memberships say |
| `RecoveryMoves.BackupClashCountsTwice` | src/romcloud/infrastructure/cache_coordination.py:243-245 | a final path that is another row's backup path: the bytes set aside are counted twice |
| `RecoveryMoves.NestedClashCountsTwice` | src/romcloud/infrastructure/cache_coordination.py:243-245 | a final path below another row's backup path: the file that comes to stand there is counted twice, though the moved directory's old and new places are counted equally often |
| `SaveSelection.SegmentsAreClean` | src/romcloud/core/save_selection.py:694-696 | the segments of a root pattern are plain names or steps up, never blank, never with a slash or backslash |
| `SaveSelection.MatchedSegmentsAreClean` | src/romcloud/core/save_selection.py:699-701 | whatever matches a registered pattern is a canonical path that begins with the layout's system |
| `SaveSelection.GroupIsOfMostLiteralLayout` | src/romcloud/core/save_selection.py:1045-1093 | a covered path gets the group described by the covering layout with the fewest token segments, the earliest of those in the registry |
| `SaveSelection.UncoveredHasNoGroup` | src/romcloud/core/save_selection.py:1045-1093 | a path that no layout covers has no group |
| `GroupKeys.HasGroupExactlyWhenItLies` | src/romcloud/core/save_selection.py:704-732 | any path has a group if and only if its spelling is canonical and it lies in a registered layout of its system: root segments, depth, exclusions and eligible files |
| `GroupKeys.GroupIsOfFewestTokens` | src/romcloud/core/save_selection.py:1060-1093 | its group is described by the layout with the fewest tokens in its root, the earliest of them, with that layout's system, shared flag and container path |
| `GroupKeys.GroupsAgreeExactlyWhenAlike` | src/romcloud/core/save_selection.py:747-772 | for every grouping, when two paths of one layout share a group: always, or if and only if they agree but for case in the root, in root and first name below, in root and file stem, in root stem, in title, or in the name without its slot |
| `SaveGroups.RomHasGroupExactlyWhen` | src/romcloud/core/save_selection.py:995-1021 | a ROM has a group if and only if its layout is registered, neither shared nor a container, and groups by stem or title |
| `RootSearches.ResolveWatchRoots` | src/romcloud/core/save_selection.py:1095-1168 | the nested frontier loops compute the specified live search |
| `RootSearches.WalkLive` | src/romcloud/core/save_selection.py:1121-1167 | the walk along one layout's pattern, its early exit and the marker tests |
| `RootSearches.ResolveWatchRootsFromListing` | src/romcloud/core/save_selection.py:1170-1247 | the nested loops over a provider's listing compute the specified listing search |
| `RootSearches.WalkListing` | src/romcloud/core/save_selection.py:1202-1246 | the walk along one layout's pattern by the listing's callables |
| `WatchRoots.LiveSearchIsExact` | src/romcloud/core/save_selection.py:1095-1168 | on any tree, the live search returns in order, once each, exactly the real directories whose segments match a layout and whose markers are regular files |
| `WatchRoots.ListingSearchIsExact` | src/romcloud/core/save_selection.py:1170-1247 | the same for the listing search on any listing that shows the tree without its links |
| `RootMeaning.LiveSearchFinds` | src/romcloud/core/save_selection.py:1095-1168 | the same said of layouts alone: the system is opted into if it must be, prefix and path spell out the pattern, the prefix without a token, the canonical root is the two joined, and results are ordered by it and then by layout |
| `RootMeaning.ListingSearchFinds` | src/romcloud/core/save_selection.py:1170-1247 | the listing search finds these as well |
| `WatchRoots.TwinsAgree` | src/romcloud/core/save_selection.py:1183-1194 | when the root is no link, the two independently written searches return the same sequence if and only if the root is a directory or no asked, marker-free layout has its whole pattern covered by the prefix |
| `WatchRoots.TwinsAgreeWithoutPrefix` | src/romcloud/core/save_selection.py:1183-1194 | without a prefix they return the same sequence whatever the root is: a directory, a link to one, or neither |
| `WatchRoots.ListingOfNothing` | src/romcloud/core/save_selection.py:1195-1247 | where the root is no directory, the listing search returns exactly the layouts that the prefix covers and that ask for no marker |
| `WatchRoots.LinkedRootHidesListings` | src/romcloud/core/save_selection.py:1140-1141 | behind a linked root the live search misses exactly the roots whose search would begin by listing that root |
| `WatchRoots.LinkedTwinsAgree` | src/romcloud/core/save_selection.py:1140-1141 | behind a linked root the two searches return the same sequence if and only if no root is there to be found by listing that root first, or, where the link leads to no directory, no layout is bare |
| `WatchRoots.WithoutFileTest` | src/romcloud/core/save_selection.py:1228-1238 | a listing search without a file test is, for any listing, the search with one for the layouts that ask for no marker |
| `WatchRoots.UnmarkedSearchIsExact` | src/romcloud/core/save_selection.py:1228-1238 | without a file test the listing search returns, in order and once each, exactly the roots of the layouts that ask for no marker |
| `WatchRoots.TwinsAgreeWithoutFileTest` | src/romcloud/core/save_selection.py:1183-1194 | without a file test it agrees with the live search if and only if no layout that asks for a marker has a root |
| `RegistryCorners.LinkedRootHidesHash` | src/romcloud/core/save_selection.py:1140-1141 | for example with the prefix `ymir` and the pattern `{hex32}` |
| `RegistryCorners.AbsentRootIsListed` | src/romcloud/core/save_selection.py:1111-1112 | an example of a root that is no directory and that only the listing search reports |
| `SaveDiscovery.DiscoveredFilesMatch` | src/romcloud/core/save_selection.py:704-732 | a file found below a watch root that passes its layout's tests is matched with exactly that root and remainder, unless a name holds a backslash |
| `SaveDiscovery.DiscoveredFilesHaveGroups` | src/romcloud/core/save_selection.py:1045-1093 | such a file has a group if and only if no name below its root holds a backslash, by a layout with no more token segments |
| `RegistryCorners.DiscoveredFileWithoutGroup` | src/romcloud/core/save_selection.py:1046-1053 | an example: a file named `a\b` is discovered and has no group |
| `SaveGroups.GroupOfFileName` | src/romcloud/core/save_selection.py:757-772 | in a layout that groups by stem, a path's group depends on its file name alone |
| `SaveGroups.StemExactly` | src/romcloud/core/save_selection.py:741 | the stem of any file name: what stands before its extension, or the whole name if it has none |
| `SaveGroups.RootStemExactly` | src/romcloud/core/save_selection.py:735-741 | the root stem of any file name: what stands before the first `.savestat`, else before the first `.state`, else before the extension, a marker at the front not counting |
| `SaveGroups.SaveFileSharesRomGroup` | src/romcloud/core/save_selection.py:995-1021 | a save file `stem.ext` is in exactly the group computed for the ROM `stem.ext2` |
| `SaveGroups.StateFileSharesRomGroup` | src/romcloud/core/save_selection.py:735-741 | a state file `stem.state<rest>` is in the ROM's group if and only if `rest` does not contain `.savestat` |
| `RegistryCorners.StateFileApartFromRom` | src/romcloud/core/save_selection.py:737-740 | an example: `g.state.savestat` is not in the group of the ROM `g.sfc` |
| `SaveGroups.GamesShareGroupsOnlyByCase` | src/romcloud/core/save_selection.py:735-757 | files of two games, each a save file `stem.ext` or a state file `stem.savestat<rest>` or `stem.state<rest>`, share a group if and only if the games' stems fold to the same |
| `AtomicFile.FileSystem.Stage` | src/romcloud/infrastructure/atomic_file.py:55-57 | the temporary file stands under a new name beside everything that was there |
| `AtomicFile.FileSystem.Fill` | src/romcloud/infrastructure/atomic_file.py:58-69 | it succeeds if and only if no operation failed; then the temporary file has the mode and holds the content, synchronised and closed; the descriptor flag says who closes |
| `AtomicFile.FileSystem.WriteOut` | src/romcloud/infrastructure/atomic_file.py:66-69 | the handle block: nothing is written before the mode is set, and the handle is closed whatever fails |
| `AtomicFile.FileSystem.Promote` | src/romcloud/infrastructure/atomic_file.py:70-71 | the rename and the directory sync, with every crash in between safe |
| `AtomicFile.FileSystem.Commit` | src/romcloud/infrastructure/atomic_file.py:58-71 | the `try` block: it succeeds if and only if no operation failed, and leaves the temporary file staged or the content in place |
| `AtomicFile.FileSystem.CleanUp` | src/romcloud/infrastructure/atomic_file.py:72-79 | after a failure the temporary file is gone if the unlink succeeded, and programs see the old content |
| `AtomicFile.FileSystem.SyncDirectory` | src/romcloud/infrastructure/atomic_file.py:82-103 | unsupported is no error, any other failure is reported, success settles all names |
| `AtomicFile.FileSystem.AtomicWrite` | src/romcloud/infrastructure/atomic_file.py:50-79 | at every crash point the target holds its old or its whole new content and other names only what they could hold; no descriptor leaks; a normal return shows the new content, for good after a directory sync; it returns if and only if no operation failed, with the asked-for mode on the new file; every failure shows old or new and leaves no temporary file unless the unlink failed |
| `AtomicFile.FileSystem.AtomicWriteBytes` | src/romcloud/infrastructure/atomic_file.py:33-47 | one more recorded call that kept its promise; at every disk state in its middle the calls so far, with this one cut short, are a run to which `CrashShowsAWholeVersion` applies |
| `AtomicFile.CrashShowsOldOrNew` | src/romcloud/infrastructure/atomic_file.py:1-10 | what the crash condition means: a crash shows what it could have shown before the call, or all of the new content |
| `AtomicFile.CrashSparesOtherNames` | src/romcloud/infrastructure/atomic_file.py:50-79 | a crash shows nothing under other names that it could not have shown before |
| `AtomicFile.CrashShowsAWholeVersion` | src/romcloud/infrastructure/atomic_file.py:1-10 | after any run of calls on any files, cut short anywhere, an existing file shows some whole version: the last durable one or one written since |
| `HoldConfirm.HoldToConfirmState.Press` | ports_gfx/hold_confirm.py:46-48 | a press counts unless the hold is settled |
| `HoldConfirm.HoldToConfirmState.Release` | ports_gfx/hold_confirm.py:50-52 | a release forgets the time held |
| `HoldConfirm.HoldToConfirmState.Cancel` | ports_gfx/hold_confirm.py:54-57 | cancelling works until confirmed |
| `HoldConfirm.HoldToConfirmState.Update` | ports_gfx/hold_confirm.py:59-65 | time accumulates only while pressed and unsettled, and confirms at the duration |
| `HoldConfirm.HoldToConfirmState.Reset` | ports_gfx/hold_confirm.py:67-71 | reset forgets everything but the duration |
| `HoldConfirm.HoldToConfirmState.HandleEvent` | ports_gfx/hold_confirm.py:74-84 | which event does what to the hold |
| `HoldConfirm.ConfirmedExactlyAfterFullHold` | ports_gfx/hold_confirm.py:46-84 | whatever is pressed and however time passes, the action is confirmed if and only if Confirm was held down without a release for the whole duration with no Back before it was complete |
| `ConflictPopup.ConflictPopupState.constructor` | ports_gfx/savesync_conflict_popup.py:140-155 | the popup opens loading, with nothing shown or held |
| `ConflictPopup.ConflictPopupState.Start` | ports_gfx/savesync_conflict_popup.py:157-161 | asks the backend for the conflicts and waits for them |
| `ConflictPopup.ConflictPopupState.Select` | ports_gfx/savesync_conflict_popup.py:163-167 | clamps the selection and drops the hold exactly if it changes |
| `ConflictPopup.ConflictPopupState.HandleEvent` | ports_gfx/savesync_conflict_popup.py:181-198 | the new state for every event, touch and step |
| `ConflictPopup.ConflictPopupState.Update` | ports_gfx/savesync_conflict_popup.py:200-205 | the new state after time passes, the immediate poll and the raising case included |
| `ConflictPopup.ConflictPopupState.PollOnce` | ports_gfx/savesync_conflict_popup.py:207-268 | the new state for every outcome of the backend |
| `ConflictPopup.ConflictPopupState.Apply` | ports_gfx/savesync_conflict_popup.py:275-294 | sends the action for the displayed conflict, does nothing without one, raises for one without an identifier |
| `ConflictPopup.ConflictPopupState.CancelPending` | ports_gfx/savesync_conflict_popup.py:270-273 | forgets the running operation |
| `ConflictPopup.AfterAction` | ports_gfx/savesync_conflict_popup.py:244-268 | what a successful action leaves in the queue, in order, that its first is shown next, and when the popup reloads or ends |
| `ConflictPopup.AppliedConflictAloneIsDropped` | ports_gfx/savesync_conflict_popup.py:244-252 | exactly the applied conflict leaves the queue if and only if its identifier is text |
| `ConflictPopup.AfterLoading` | ports_gfx/savesync_conflict_popup.py:228-245 | the loaded queue is the answer's dictionaries in order, and the first of them is shown with nothing held; without a list the popup ends and says so |
| `ConflictPopup.AfterFailure` | ports_gfx/savesync_conflict_popup.py:216-227 | a failed operation says why, drops the hold, keeps the queue, and goes back to the conflict on display if there is one |
| `ConflictPopup.NextIsSound` | ports_gfx/savesync_conflict_popup.py:140-316 | every input keeps the popup's invariant |
| `ConflictPopup.EntryIsReset` | ports_gfx/savesync_conflict_popup.py:207-257 | every way into the displaying step starts with nothing held, so releases dropped while loading or applying cannot matter |
| `ConflictPopup.HoldHasBeginning` | ports_gfx/savesync_conflict_popup.py:181-205 | a hold in progress always has a Confirm press since which the same conflict and selection stayed displayed without a release, and the time held is the time since |
| `ConflictPopup.OverwritesAreHeldFor` | ports_gfx/savesync_conflict_popup.py:200-205 | in every run `upload-local` is sent only from the first entry and `download-remote` only from the second, for the displayed conflict, and only after Confirm was held on them for the whole duration |
| `ConflictPopup.FullHoldIsSent` | ports_gfx/hold_confirm.py:59-65 | conversely, Confirm held through the duration, whatever else happens that neither lets go of it nor changes what it is on, sends `upload-local` for the first entry or `download-remote` for the second in the very update that completes it, and in none before |
| `ConflictPopup.EverythingSentIsChosen` | ports_gfx/savesync_conflict_popup.py:173-205 | in every run, whatever is sent was chosen: `upload-local` or `download-remote` by completing the hold on its entry, `resolve-later` by Back or by Confirm on the third entry, the queue at the start or after the last conflict |
| `ConflictPopup.EventSends` | ports_gfx/savesync_conflict_popup.py:189-198 | Back, and Confirm on the third entry, do send `resolve-later` for the displayed conflict, and no other event sends anything |
| `ConflictPopup.ConfirmBegins` | ports_gfx/savesync_conflict_popup.py:195-196 | Confirm on the first or second entry begins its hold or goes on with it, and does nothing else |
| `ConflictPopup.RaisesExactlyWithoutIdentifier` | ports_gfx/savesync_conflict_popup.py:200-205 | an update raises if and only if a hold is complete on a conflict that has details but no identifier |
| `ConflictPopup.SelectsNearest` | ports_gfx/savesync_conflict_popup.py:163-167 | selecting any number selects the nearest of the three entries and keeps the hold exactly if that is no change |
| `CuePaths.NormpathKeepsMeaning` | src/romcloud/core/cue_parser.py:146-164 | normalising a path keeps where it leads from every place and leaves steps up only in front |
| `CuePaths.ResolveOne` | src/romcloud/core/cue_parser.py:162-175 | one reference: accepted with its path or refused |
| `CuePaths.ResolveCueDependencies` | src/romcloud/core/cue_parser.py:127-179 | the loop over the references computes the specified dependencies and rejections |
| `CuePaths.EveryReferenceIsAnswered` | src/romcloud/core/cue_parser.py:159-179 | every reference is accepted or rejected on its own, in order; one rejection takes no other with it |
| `CuePaths.AcceptedExactlyWhenInside` | src/romcloud/core/cue_parser.py:162-171 | a relative reference is accepted if and only if its walk from the cue sheet's directory ends in the cue sheet's own system wherever the systems' directory may be |
| `CueDirectories.CueLiesAt` | src/romcloud/core/cue_parser.py:146-155 | for a cue path that leads to some names, however it is spelled, the system is the first of them and the directory all but the last, or the only one |
| `CueDirectories.DirectoryOfSpelledCue` | src/romcloud/core/cue_parser.py:155 | in particular `a/b/sheet` lies in `a/b`, for any number of plain names |
| `CueDirectories.RelativeReferenceStaysInside` | src/romcloud/core/cue_parser.py:162-171 | a relative reference is accepted if and only if the walk along it from that directory ends in the system, wherever the systems lie |
| `CueDirectories.DependenciesLieWhereTheyLead` | src/romcloud/core/cue_parser.py:162-175 | every dependency has the path at which the walk along its reference ends, from that directory or, if absolute, from the top |
| `CueDirectories.PlainNameIsBeside` | src/romcloud/core/cue_parser.py:27-33 | a plain name is accepted as the file beside the cue sheet |
| `CueDirectories.SameNamedFilesStayApart` | src/romcloud/core/cue_parser.py:133-137 | the same plain name in two cue sheets is the same dependency if and only if they lie in the same directory |
| `CuePaths.NoSystemExactlyWhenAbsolute` | src/romcloud/core/cue_parser.py:146-152 | a cue path has no system if and only if it is absolute |
| `CueDirectories.RejectionsSayWhy` | src/romcloud/core/cue_parser.py:148-171 | every rejected reference carries the reason of its case |
| `CuePaths.AbsoluteReferencesCountFromTheTop` | src/romcloud/core/cue_parser.py:163-167 | an absolute reference is read from the systems' directory and accepted exactly if it leads into the system |
| `CuePaths.ReferenceFromTheTop` | src/romcloud/core/cue_parser.py:27-33 | a reference `/system/file` of a cue sheet in any directory of that system is accepted as `system/file`, outside the cue sheet's directory |
| `CuePaths.AbsoluteReferenceIsAccepted` | src/romcloud/core/cue_parser.py:27-33 | for example `/psx/a.bin` of the cue sheet `psx/d/g.cue` |
| `CuePaths.AcceptedPathIsPlain` | src/romcloud/core/cue_parser.py:165-175 | an accepted path starts with the cue sheet's system, holds no blank, dot or step up, and reads back as itself |
| `CuePaths.CachedExactlyWhenBelow` | src/romcloud/core/cache_paths.py:30-68 | a path has a place in the cache if and only if the system is a plain name and the path is relative, begins with the system, names something below it and never steps up |
| `CuePaths.CachePathIsWhereItLeads` | src/romcloud/core/cache_paths.py:71-78 | its place is where the path leads from the cache root, strictly below the system's directory |
| `CuePaths.CachePathsAreInjective` | src/romcloud/core/cache_paths.py:71-78 | two paths share a place only if they have the same system and the same parts |
| `CuePaths.DependenciesAreCached` | src/romcloud/core/cache_paths.py:35-78 | an accepted reference has a place below its system, unless it names the system's directory itself, which is refused |
| `CuePaths.CachedDependenciesAreInjective` | src/romcloud/core/cache_paths.py:71-78 | references of two cue sheets that share a place in the cache are the same path |

## Left out

- SaveSync services, adapters for concrete container formats, transfer code and the eviction policy: opaque values and steps stand for them.
- Timestamps, sizes and hashes of save entries are opaque; floating-point seconds are real numbers.
- The exceptions that a database or a file-system call may raise inside `ReservationLease` and `admit`: a process that fails there is a process that dies.
- CacheProtocol.InvHolds: one scan of the staging tree is one read; a tree that changes while it is being walked is not modelled.
- CacheProtocol.QuotaIsSafe: assumes that only the cache's own steps change how much of the disk is in use, and that `finalize` moves the staged bytes in one step.
- AssetLocks.NoDeadlock: each process makes one call of `acquire`; a process that holds one lease while asking for another is not modelled, nor is the fairness of the kernel's lock queue.
- AtomicFile.FileSystem.AtomicWrite: whether permission bits outlast a crash is not modelled, and the parent directory exists or its creation fails. An interrupt of the interpreter between `mkstemp` and `try`, which would leave the temporary file behind, is not modelled.
- RecoveryMoves.PromotionConserves: assumes that no system is named `.partial`; `RecoveryMoves.PromotionIsConserved` does without.
- RecoveryAccounting.MeasureStaging: files are regular files; links and special files, which the source skips, do not appear.
- Legacy custom save rules (`_legacy_layouts`, the legacy branch of `classify`) and the lifecycle lookups: compatibility code and plain filters.
- `shared_container_group_id`, the adapter and policy fields of a group, and the labels of the conflict popup: they only copy values.
- SaveGroups.StateFileSharesRomGroup: covers layouts grouped by `root_stem`; what `n64_title` merges on purpose by dropping a controller slot is a parameter.
- CuePaths.ResolveCueDependencies: takes the references as given; reading them from the cue text by a regular expression is not modelled.
- Rendering, focus, input capture, the setup wizard, the command line and the subprocess runner.
