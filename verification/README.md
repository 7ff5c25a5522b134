# Acyl: a verified model of its core

Acyl creates one Kubernetes environment for each pull request. This project models the parts of it whose
correctness depends on whole runs, and proves what they promise:

- **The preemptive lock** (`PreemptiveLock`, `SessionController`). Clients contend for one key with NOTIFY, LISTEN and a session advisory
  lock of Postgres. The model is a state machine whose actions are single steps of the goroutines of
  `lockingOperation`, `PreemptiveLocker.Lock` and `PostgresLock`.
- **The in-memory filesystem** (`MemfsTree`, `MemfsRename`, `MemfsSibling`, `MemfsReplace`, `MemfsNil`, `MemfsRuns`,
  `MemfsStorage`, `MemfsContent`, `MemfsFile`, `MemfsMemory`) and the walk over it (`BillyWalk`).
- **Dependency resolution** (`DependencyTree`, `DependencyUnfolding`, `DependencyErrors`, `Dependencies`,
  `RepoConfig`, `DependencyGraph`), the two trees built from its result (`ProgressTree`, `RenderTree`), and when they are trees
  (`DependencyOrphans`, `DependencyExamples`).
- **The life of environments** (`EnvStore`, `EnvRules`, `EnvManager`, `EnvReaper`): create, update, delete, the
  global limit and the reaper, over the data layer.
- **Two kernels**: the compiled search (`EnvSearch`) and the generator of temporary directory names (`TempSuffix`,
  `MemfsTempDir`).

`Wrappers` holds what several of these share. `dafny verify dfyconfig.toml` checks everything.

## How the source is represented

A path is absolute and clean: the sequence of its components. `MemfsSibling.TextPrefixIsText` ties the one place where
the code compares path texts back to strings. File objects are known by number; a class `Storage` updates the maps in
place and is tied to functions on their values, a class `Content` keeps a backing array with spare capacity. Everything
that comes from outside is a parameter: what the filesystem answers, what repositories contain, the order in which Go
iterates a map, which of the calls of an operation fail (`EnvRules.Faults`), and the clock.

Assumptions that the code needs and that are written down as such:

- *Lock timing.* The time-out of handing over a preemption (`pkg/locker/postgres_lock.go:211`) fires only while no
  goroutine is at the receiving end of the channel. The forced unlock behind it (line 213) uses the connection that
  may be blocked in `pg_advisory_lock`, and takes effect when that call has ended. Being granted the advisory lock and
  reaching the receive is one step, and so is returning from `Lock` and starting the watcher. Notifications are not
  nil: a nil one ends the handler (lines 181-184). A connection that went back to the pool after a failed unlock is
  handed to no other client of the key.
- *Filesystem.* Creating a path panics in Go when it writes a nil child map. `MemfsNil` says when renaming leaves such a
  map and when it panics itself; the methods of `Storage` ask that none is written; runs (`MemfsRuns`) end there.
- *Environments.* Generated names are unused, operations are serialised, and time moves forward where it matters.

## Where the code does not do what it is for

Most of these are lemmas, many with the exact condition:

- Two bodies of `lockingOperation` can run at once, one of them cancelled (`TwoBodiesMayRun`); with a session lost
  unnoticed, both can be uncancelled (`LostSessionBreaksExclusion`). So can they if the preemption of a waiting lock times
  out: it is unlocked as soon as it is granted, and operates all the same (`ForcedUnlockBreaksExclusion`). The exact
  condition for exclusion is the live session (`ExclusionIff`).
- Closing the connection after a failed unlock hands it back to the pool, and the session keeps the lock
  (`FailedUnlockKeepsLock`), contrary to the comment at `pkg/locker/postgres_lock.go:243-244`: nobody is granted it any more
  while that session lives (`KeptForEver`).
- The comment on `PreemptiveLocker` (`pkg/locker/locker.go:153-161`) has every holder told of a contender. Notifying comes
  before listening, so two contenders can miss each other (`ContendersMayMissEachOther`); whoever listens is told
  (`NotifyObligesListeners`).
- A lock that is granted while the call for it fails is held by nobody's operation until its handler gives up
  (`FailedMayHoldLock`); that, any lock that listens can do, and then releases (`ListenerCanRelease`).
- The keep-alive threshold of two failures (`pkg/locker/postgres_lock.go:22`) is never stored, so the first failed ping makes
  the handler give up (`RunNew`). Stored, it would keep every failure from being reported, since the first one ends the
  loop (`Controller.Run`).
- Renaming `/a` takes `/ab` with it (`SiblingLost`, `RenameWorksIff`); corrupts the index of children when a child is moved
  before its parent (`RenameSoundIff`), which some iteration order does if and only if something is stored two or
  more levels below the renamed path (`RenameAlwaysSoundIff`); and leaves a nil map for a directory that was never listed
  (`RenamedIsNilIff`), in which creating anything panics (`CreateBelowRenamedPanics`). Any path renamed to itself loses
  its object (`RenameToItself`). Creating below a file leaves the new path without a parent directory (`MakeWorksIff`).
- A temporary directory made in this filesystem may be one that was there already (`MakeTempDir`).
- A dependency two or more levels down is recorded with its parent's name from before renaming (`ParentNamedIff`).
- The resolved list depends on map order exactly if the new name of a requirement is itself renamed (`ListOrderIff`). Then
  an accepted configuration may require the wrong dependency (`OrderExample`).
- A dependency's requirement of what it brings is itself renamed if the generated name is also declared beside that
  dependency (`EdgesKeptIff`). Then what it brings may be required by nobody (`AllRequiredIff`), and its parent be nowhere:
  a configuration that is accepted, with acyclic requirements, the same for every map order, gives a progress tree with a
  node outside the root's reach, and `renderTree` does not end on it (`OrphanExample`).
- `renderTree` does not end on duplicate names or ungrounded parents (`EndsIff`). In every later round it adds a further
  node for each dependency that has one below another already (`Round`).
- An environment that could not be marked as destroyed, and has lost its Kubernetes row, is destroyed by no further delete
  (`RowlessStays`).
- A search without criteria is malformed SQL, but returns everything in memory (`WellFormedIff`); ages differ below
  whole hours and for negative durations (`AgeAgreesIff`).

## Model

| member | source | states |
|---|---|---|
| PreemptiveLock.InvStep | pkg/locker/postgres_lock.go:159-301 | every step of any client keeps the invariant that ties the owner of the advisory lock to one live session |
| PreemptiveLock.Reachable | pkg/nitro/env/env.go:207-258 | the invariant holds after every run of any number of clients |
| PreemptiveLock.MutualExclusion | pkg/nitro/env/env.go:207-258 | at most one client has a running body, a live session and an uncancelled context, and it owns the advisory lock |
| PreemptiveLock.DeadIsSilent | pkg/locker/postgres_lock.go:222-283 | a client whose session has ended notifies nobody, is granted nothing and frees nothing |
| PreemptiveLock.ExclusionIff | pkg/locker/postgres_lock.go:240-283 | while a body runs uncancelled, no other can come to do so with a live session, whatever all other clients do, if and only if its own session is alive |
| PreemptiveLock.NotifyObligesListeners | pkg/locker/postgres_lock.go:222-238 | a notification obliges exactly the other clients that listen at that moment (or were obliged before) |
| PreemptiveLock.ObligationStays | pkg/locker/postgres_lock.go:159-217 | no step loses a preemption: a client stays released, handed a preemption, or with one on its way |
| PreemptiveLock.PreemptionNeverLost | pkg/locker/postgres_lock.go:159-217 | a lock that listened when another contender notified is obliged in every later state |
| PreemptiveLock.HolderIsPreempted | pkg/locker/locker.go:258-309 | whoever holds the lock or waits out its delay when another contends is preempted |
| PreemptiveLock.PreemptedInDelayNeverOperates | pkg/locker/locker.go:297-305 | a lock handed a preemption before its delay ends never starts its operation |
| PreemptiveLock.OwnNotificationNeverArrives | pkg/locker/postgres_lock.go:200-203 | a lock is never sent its own notification |
| PreemptiveLock.ReleasedAfterOwnSteps | pkg/locker/postgres_lock.go:206-257 | in every run, whatever happens in between, an obliged client has unlocked after at most seven steps of its own goroutines, and its lock is gone unless the unlock statement failed |
| PreemptiveLock.NextOwnStep | pkg/nitro/env/env.go:222-247 | until then one of these steps is always enabled, whatever its body does |
| PreemptiveLock.ObligedCanRelease | pkg/nitro/env/env.go:222-247 | and they suffice: it can release by no more than seven of them and nothing else, unless an unlock statement failed before |
| PreemptiveLock.GivingUpObliges | pkg/locker/postgres_lock.go:159-178 | a lock whose time is over, whose context is done or whose session is reported lost hands itself a preemption: it is obliged in every later state |
| PreemptiveLock.GivenUpIsReleased | pkg/locker/postgres_lock.go:159-217 | and it, too, has unlocked after at most seven steps of its own goroutines, with its lock gone unless the unlock statement failed |
| PreemptiveLock.ListenerCanRelease | pkg/locker/postgres_lock.go:159-217 | whatever a listening lock has come to, and if nobody contends for it, at most eight steps of its own release it |
| PreemptiveLock.ObligedIff | pkg/locker/postgres_lock.go:159-217 | in every run a client is obliged if and only if another notified while it listened, it gave up, or it has begun to unlock: nothing else preempts a lock |
| PreemptiveLock.HandsOverOnlyThen | pkg/locker/postgres_lock.go:181-217 | a preemption is handed over only by a handler that has read a notification or given up |
| PreemptiveLock.UnlockedBehindItsBack | pkg/locker/postgres_lock.go:206-217 | the handler is about to unlock under a holder or an operation only if handing over timed out while the lock was still waited for |
| PreemptiveLock.FailedNeverOperates | pkg/nitro/env/env.go:212-216 | after a failure to notify, to listen or to lock the operation never starts, and its context is cancelled |
| PreemptiveLock.FailedMayHoldLock | pkg/locker/postgres_lock.go:278-283 | a run in which a lock was granted as the call for it failed, and nothing obliges it while another waits |
| PreemptiveLock.CancelledIff | pkg/nitro/env/env.go:207-234 | in every run an operation's context is cancelled if and only if its caller's was, its watcher ended, it returned, or it failed to lock |
| PreemptiveLock.GoroutinesEnd | pkg/nitro/env/env.go:207-258 | from every state in which its context is cancelled, nine steps of a client's own goroutines end all of them but the body, with the lock unlocked if it was ever listening |
| PreemptiveLock.KeptForEver | pkg/locker/postgres_lock.go:240-257 | after a failed unlock nobody is granted the lock in any continuation in which the pooled session lives |
| PreemptiveLock.FailedUnlockKeepsLock | pkg/locker/postgres_lock.go:240-257 | a run in which an operation has returned and its lock is still held |
| PreemptiveLock.TwoBodiesMayRun | pkg/nitro/env/env.go:238-247 | a run for any two clients in which both bodies run, the first one cancelled |
| PreemptiveLock.ReleaseCancelled | pkg/nitro/env/env.go:222-247 | a cancelled operation gives up its lock while its body still runs |
| PreemptiveLock.LostSessionBreaksExclusion | pkg/locker/postgres_lock.go:60-83 | a run in which a lost session lets two uncancelled bodies run |
| PreemptiveLock.ForcedUnlockBreaksExclusion | pkg/locker/postgres_lock.go:206-217 | a run in which a lock is unlocked as soon as it is granted, operates all the same, and another takes over: two uncancelled bodies, no session lost |
| PreemptiveLock.ContendersMayMissEachOther | pkg/locker/locker.go:287-295 | a run in which two contenders notified each other and neither is obliged |
| SessionController.Controller.Run | pkg/locker/postgres_lock.go:60-79 | the first failed ping ends the loop, and is reported iff no failure is tolerated |
| SessionController.RunNew | pkg/locker/postgres_lock.go:39-57 | whatever threshold is asked for, one failed ping makes the handler give up |
| MemfsTree.NewFileSound | pkg/memfs/storage.go:46-86 | creating a path with all missing ancestors keeps index and path map in agreement |
| MemfsRuns.MakeWorksIff | pkg/memfs/storage.go:46-86 | creating a new path ends with both maps in agreement if and only if no stored ancestor is a file and none of the child maps it writes is nil |
| MemfsTree.NewGrows | pkg/memfs/storage.go:46-86 | what is stored stays; what is added lies on the way to the new path, with new objects of the right names |
| MemfsTree.CreateKidsGrow | pkg/memfs/storage.go:69-86 | the index changes at new paths only, and lists the created object under its parent |
| MemfsTree.SoundMeans | pkg/memfs/storage.go:88-99 | a name is listed under a directory iff the path is stored, as the same object with that name, and the parent is a directory |
| MemfsTree.AncestorsStored | pkg/memfs/storage.go:69-86 | all ancestors of a stored path are stored directories |
| MemfsTree.RemoveSound | pkg/memfs/storage.go:185-208 | removing keeps the agreement and takes away that path alone |
| MemfsTree.RemovedIffNothingBelow | pkg/memfs/storage.go:193-198 | a stored path can be removed iff nothing is stored below it |
| MemfsRename.Others | pkg/memfs/storage.go:146-155 | exactly the other paths with the old name as a textual prefix are moved |
| MemfsRename.MoveKeeps | pkg/memfs/storage.go:169-183 | one move keeps the invariant of a renaming under way, and does not fail |
| MemfsRename.PlayKeeps | pkg/memfs/storage.go:157-164 | so do all moves, in any order that starts with the renamed path |
| MemfsRuns.RenameWorksIff | pkg/memfs/storage.go:136-183 | in every iteration order renaming ends without panic or error, each old path's image holds the same object, only missing ancestors of the target are added and all else is unchanged, if and only if no path outside has the old name as a textual prefix and no nil map is in the way |
| MemfsRuns.RenameSoundIff | pkg/memfs/storage.go:136-183 | for one iteration order: it ends without panic and with an exact children index if and only if it moves parents before their children and the target can be created |
| MemfsRuns.RenameAlwaysSoundIff | pkg/memfs/storage.go:136-183 | for all orders: so it does if and only if nothing is stored two or more levels below the renamed path and the target can be created |
| MemfsSibling.TextPrefixIsText | pkg/memfs/storage.go:147 | the prefix test on component sequences is the prefix test on path texts |
| MemfsSibling.SiblingLost | pkg/memfs/storage.go:146-155 | in every order some such path loses its object |
| MemfsSibling.SiblingExample | pkg/memfs/storage.go:147 | renaming /a to /b takes the file from /ab |
| MemfsReplace.RenameReplaces | pkg/memfs/storage.go:169-183 | renaming onto a file or an empty directory is removing that and renaming to a free path, panics included |
| MemfsRuns.ReplaceWorksIff | pkg/memfs/storage.go:136-183 | so there, too, in every order renaming ends and the subtree arrives, if and only if no nil map is in the way |
| MemfsReplace.RenameToItself | pkg/memfs/storage.go:169-183 | any stored path renamed to itself loses its object, in every iteration order |
| MemfsReplace.LeafToItself | pkg/memfs/storage.go:169-183 | with nothing below it that path is gone, and no other changes place |
| MemfsNil.CreateMapGrows | pkg/memfs/storage.go:79-84 | creating turns no child map into nil and touches only those above the new path |
| MemfsNil.RenameNeverPanicsIff | pkg/memfs/storage.go:136-183 | no iteration order makes renaming write a nil map if and only if the target can be created and no nil map was left where a path goes that has something below it |
| MemfsNil.RenamedIsNilIff | pkg/memfs/storage.go:174 | the target has a nil child map afterwards iff the source had no child map |
| MemfsStorage.Storage.constructor | pkg/memfs/storage.go:17-22 | the storage begins empty |
| MemfsStorage.Storage.New | pkg/memfs/storage.go:46-66 | updates the maps in place as NewFile says, and tells created, already there and existing file apart, unless it would write a nil map |
| MemfsStorage.Storage.CreateParent | pkg/memfs/storage.go:69-86 | updates the maps in place as CreateParent says, and fails iff the parent is a file, unless it would write a nil map |
| MemfsStorage.Storage.Children | pkg/memfs/storage.go:88-99 | the listed objects of a directory |
| MemfsStorage.Storage.Rename | pkg/memfs/storage.go:136-167 | collects and performs the moves as the specification of renaming says, up to the first error |
| MemfsStorage.Storage.Move | pkg/memfs/storage.go:169-183 | one move in place, and its error; old and new path share their child map until the deferred deletion |
| MemfsStorage.Storage.Remove | pkg/memfs/storage.go:185-208 | removal in place, with its three outcomes |
| MemfsRuns.RunSound | pkg/memfs/storage.go:46-208 | after every run of create, mkdir, remove and rename, index and path map agree, if renamings in any order have nothing two or more levels below, or if they happen to move parents first |
| MemfsRuns.OnlyRenamingLeadsToPanic | pkg/memfs/storage.go:46-208 | no run without renaming ends in a panic |
| MemfsRuns.CreateBelowRenamedPanics | pkg/memfs/storage.go:85 | creating anything in a directory that was renamed before anything was created in it panics |
| MemfsMemory.Memory.OpenFile | pkg/memfs/memory.go:41-64 | opens, creates or truncates the one file at a path, at its start or, to append, at its old end; directories and missing files are errors; no other file changes |
| MemfsMemory.Memory.MakeFile | pkg/memfs/memory.go:43-52 | a new file has an object and empty contents of its own |
| MemfsMemory.Save | pkg/nitro/meta/meta.go:453-468 | after the write loop the file at the path holds exactly the data |
| MemfsMemory.Load | pkg/memfs/memory.go:37-39 | reading to the end through a new handle returns the bytes of the file at the path |
| MemfsMemory.SaveAndLoad | pkg/nitro/meta/meta.go:453-468 | what is written under a path is read back from it |
| MemfsContent.OverwriteAt | pkg/memfs/storage.go:219-235 | byte by byte: the data in range, the old bytes outside it, zero in gaps |
| MemfsContent.OverwriteInChunks | pkg/nitro/meta/meta.go:458-468 | writing in consecutive chunks is writing the whole |
| MemfsContent.Content.Append | pkg/memfs/storage.go:226-229 | appends in place iff the capacity suffices, and else copies only what is below the length |
| MemfsContent.Content.WriteAt | pkg/memfs/storage.go:219-235 | overwrites the plain bytes, whether or not append reallocates |
| MemfsContent.Content.TruncateTo | pkg/memfs/memory.go:273-281 | cuts, or extends with zeros |
| MemfsContent.Content.Empty | pkg/memfs/memory.go:350-352 | empties into a new array |
| MemfsContent.Content.ReadAt | pkg/memfs/storage.go:237-257 | copies the available bytes, and reports EOF iff fewer than asked for |
| MemfsContent.Content.Run | pkg/memfs/storage.go:219-235 | every run of writes and truncations, whatever capacity each append leaves, refines the same run on a plain byte sequence |
| MemfsContent.NoStaleBytes | pkg/memfs/storage.go:226-232 | every byte is the last one written there since it was last cut off, or zero |
| MemfsContent.NothingWrittenBeyond | pkg/memfs/memory.go:273-281 | nothing written survives beyond the end |
| MemfsFile.File.Read | pkg/memfs/memory.go:207-229 | reads on from the handle's position; EOF only without a byte; errors change nothing |
| MemfsFile.File.Write | pkg/memfs/memory.go:249-262 | overwrites at the handle's position, which moves on; errors change nothing |
| MemfsFile.File.Seek | pkg/memfs/memory.go:232-247 | the three origins, with any offset, and closed handles |
| MemfsFile.File.Close | pkg/memfs/memory.go:264-271 | closing twice is an error |
| MemfsFile.File.Truncate | pkg/memfs/memory.go:273-281 | resizes the shared contents |
| MemfsFile.File.Duplicate | pkg/memfs/memory.go:283-300 | a handle of its own on the same contents, at the old end for append, emptying them for truncate |
| MemfsFile.WriteAll | pkg/nitro/meta/meta.go:458-468 | the write loop writes all data at the position, or reports the error with nothing changed |
| MemfsFile.ReadAll | pkg/memfs/memory.go:207-216 | reads of any positive sizes return all bytes from the position on and end with EOF |
| MemfsFile.WriteThenRead | pkg/memfs/memory.go:207-300 | what one handle writes another on the same contents reads back after seeking to the start |
| BillyWalk.LessIff | pkg/ghclient/billyfswalk.go:25 | the comparison of names holds iff the one is a proper beginning of the other, or has the smaller character where they first differ |
| BillyWalk.SortAscends | pkg/ghclient/billyfswalk.go:15-27 | distinct names come out in strictly ascending order of these |
| BillyWalk.ReadDirNames | pkg/ghclient/billyfswalk.go:15-27 | the sorted names of exactly the stored children |
| BillyWalk.Walk | pkg/ghclient/billyfswalk.go:31-67 | ends for every callback; visits exactly the paths its replies leave to be visited, up to the first failure, each once, parents first, siblings in lexical order; and what it returns |
| BillyWalk.WalkFrom | pkg/ghclient/billyfswalk.go:74-80 | a missing root is the callback's affair |
| BillyWalk.WalkAll | pkg/ghclient/billyfswalk.go:31-67 | with no objections exactly the stored paths at or below the root, in order |
| DependencyTree.GetNameIs | pkg/models/nitro.go:49-51 | the repository's name, slashes replaced by dashes, cut to 63 characters if it has more than 64 |
| DependencyTree.PrefixedGrows | pkg/nitro/meta/meta.go:258 | a generated name is that, a dash and the declared one: longer than the declared one, which determines it |
| DependencyTree.ExpandRepos | pkg/nitro/meta/meta.go:223-227 | the repositories of a resolved dependency are distinct, were not seen before, and are recorded |
| DependencyTree.TransAllCounts | pkg/nitro/meta/meta.go:251-268 | every dependency reached is recorded exactly once |
| DependencyUnfolding.ExpandIff | pkg/nitro/meta/meta.go:194-308 | resolving succeeds with a tree iff the declarations unfold to it, well formed, and its repositories are distinct and new |
| DependencyErrors.ExpandAllResult | pkg/nitro/meta/meta.go:194-308 | resolving declarations ends without error iff none of those reached offends, and else with exactly the error of the first that does, in the order in which they are read; afterwards exactly the repositories declared anywhere are seen |
| DependencyErrors.OneFirst | pkg/nitro/meta/meta.go:194-308 | there is one first offence, and it is one error |
| DependencyErrors.CircleFails | pkg/nitro/meta/meta.go:223-227 | every circle of references makes resolving fail, and with the error for a repeated repository if nothing else is wrong |
| Dependencies.RenameOrderIff | pkg/nitro/meta/meta.go:171-179 | all iteration orders rename a requirement alike, to its one new name, iff the new name is not renamed in turn |
| Dependencies.LevelOrderIff | pkg/nitro/meta/meta.go:265-267 | all orders give a level the same records, those renamed simultaneously, iff that is so for all requirements in it, declared or added |
| Dependencies.ListOrderIff | pkg/nitro/meta/meta.go:251-268 | and all give the same list iff it is so at every level |
| Dependencies.DisjointIsClean | pkg/nitro/meta/meta.go:251-268 | if no declared name equals a generated one, no requirement is renamed twice and no generated name is renamed |
| Dependencies.RenameRequires | pkg/nitro/meta/meta.go:171-179 | replaces one name in all requirement lists |
| Dependencies.RenameLevel | pkg/nitro/meta/meta.go:265-267 | one level is renamed name by name in some map order; simultaneously, if no requirement can be renamed twice |
| Dependencies.Resolver.constructor | pkg/nitro/meta/meta.go:180-181 | only the triggering repository has been seen |
| Dependencies.Resolver.ProcessDep | pkg/nitro/meta/meta.go:195-308 | ends on every reference graph, cycles included; the same error (see ExpandAllResult), or record, seen repositories and transitive records, as the declared tree gives with each level renamed in some map order |
| Dependencies.Resolver.ProcessDirect | pkg/nitro/meta/meta.go:249-268 | the declared dependencies of a repository, with new names, parents, and requirements renamed in some map order |
| RepoConfig.ValidateNames | pkg/models/nitro.go:189-221 | accepts iff names are non-empty and distinct, matchable repositories distinct, and requirements name what they may |
| RepoConfig.CheckNames | pkg/models/nitro.go:192-216 | one list, against the names and repositories seen before |
| RepoConfig.Get | pkg/nitro/meta/meta.go:170-341 | the error of the first offence among direct and then environment dependencies, if there is any; else the lists of the declared forests, each level renamed in some map order, if they are valid |
| RepoConfig.GivesFlat | pkg/nitro/meta/meta.go:170-341 | that is one result if no requirement can be renamed twice: the lists renamed simultaneously |
| RepoConfig.AcceptedAlike | pkg/models/nitro.go:189-221 | whether the lists are valid does not depend on map order |
| DependencyGraph.ListEdgesIff | pkg/nitro/meta/meta.go:251-268 | of the lists that resolving may give, one has as requirement edges the declared ones under final names plus one from each dependency to each that it brings, if and only if it is the one renamed simultaneously and no generated name is redirected |
| DependencyGraph.EdgesKeptIff | pkg/nitro/meta/meta.go:251-268 | all of them have, whatever the map orders, if and only if no name generated for what a dependency brings is declared beside it and no requirement can be renamed twice |
| DependencyGraph.ResolvedEdgesIff | pkg/nitro/meta/meta.go:170-341 | every accepted result of Get has, if and only if both hold or the configuration is not accepted |
| DependencyGraph.ResolvedEdges | pkg/nitro/meta/meta.go:170-341 | both hold of every result of Get if no declared name equals a generated one |
| DependencyGraph.ListRepos | pkg/nitro/meta/meta.go:309-335 | for every map order, the list has each resolved repository once, and one record for each dependency reached |
| DependencyGraph.ReposDistinct | pkg/nitro/meta/meta.go:224-227 | triggering repository and all repository dependencies, direct and environment, are pairwise distinct |
| ProgressTree.RequirerMap | pkg/eventlogger/status.go:58-63 | exactly the required names, each with the name of the dependency that requires it and after which none does |
| ProgressTree.RequirerIs | pkg/eventlogger/status.go:58-63 | a name has a requirer iff some dependency requires it, and it is the last one |
| ProgressTree.SetInitialStatus | pkg/eventlogger/status.go:47-81 | a node for each name and the root; each dependency, or the last of its name, hangs below the last that requires it, else below its noted parent, else below the root |
| ProgressTree.NodeCount | pkg/eventlogger/status.go:47-81 | one node for each dependency and the root, iff no dependency has the root's name |
| ProgressTree.RootedTree | pkg/eventlogger/status.go:64-81 | of validated, acyclic requirements in which everything with a parent is required: every parent is in the tree and every chain of parents reaches the root |
| ProgressTree.RootedIff | pkg/eventlogger/status.go:64-81 | of any validated list: all chains reach the root iff each unrequired dependency notes no parent or one in the tree, and no set of dependencies is its own parents |
| RenderTree.EndsIff | cmd/config.go:867-884 | some number of rounds gives every dependency a node iff names are distinct and all parent chains end |
| RenderTree.RoundGrows | cmd/config.go:871-884 | a round that begins with a name missing adds one |
| RenderTree.AddSeeds | cmd/config.go:839-866 | exactly the dependencies of a section that have no parent get a node below its heading, in their order |
| RenderTree.Round | cmd/config.go:871-884 | exactly the dependencies whose parent has a node when their turn comes get one more below its latest node, in their order |
| RenderTree.Grow | cmd/config.go:867-884 | the loop ends: the number of dependencies without a node decreases with every round |
| RenderTree.Render | cmd/config.go:830-884 | every dependency has a node; every node hangs below the latest one of the last dependency that requires it, else of its noted parent, or else in its section, direct ones first |
| RenderTree.RequiredEnds | cmd/config.go:867-884 | so it is for distinct names and acyclic requirements in which everything with a parent is required |
| DependencyOrphans.ParentNamedIff | pkg/nitro/meta/meta.go:258-262 | in every list that resolving may give, the parent noted for a dependency is the final name of the one that brings it iff that is a direct dependency |
| DependencyOrphans.AllRequiredIff | pkg/nitro/meta/meta.go:251-268 | whatever the map orders, everything with a parent is required, iff each generated name that is declared beside its bringer is required otherwise: by one brought with it whose requirement is not renamed twice, or by a declaration of that very name |
| DependencyOrphans.KeptNoOrphans | pkg/nitro/meta/meta.go:251-268 | that is so wherever prefixing preserves the requirement edges |
| DependencyOrphans.ResolvedTrees | pkg/eventlogger/status.go:47-81 | then, for every result of Get with acyclic requirements and no dependency named like the root, the progress tree is a rooted tree and renderTree ends |
| DependencyOrphans.ResolvedRootedIff | pkg/eventlogger/status.go:64-81 | if map order makes no difference: all chains reach the root iff each name not so required has a parent that is by chance in the tree, and there is no circle |
| DependencyExamples.OrphanExample | cmd/config.go:867-884 | an accepted configuration with acyclic requirements, the same for every map order, with a node that never reaches the root, and on which renderTree never ends |
| DependencyExamples.OrderExample | pkg/nitro/meta/meta.go:265-267 | an accepted result in which a dependency requires the wrong one, though no generated name is redirected |
| EnvStore.DataLayer.Select | pkg/persistence/fake.go:218-230 | the filter loops return exactly the matching records, each once |
| EnvStore.DataLayer.GetQAEnvironmentsByRepoAndPR | pkg/persistence/fake.go:289-303 | the records of a repository and pull request |
| EnvStore.DataLayer.GetExtantQAEnvironments | pkg/persistence/fake.go:365-379 | those that are neither destroyed nor failed |
| EnvStore.DataLayer.GetRunningQAEnvironments | pkg/persistence/fake.go:276-287 | the successful, spawned and updating ones, each once, oldest first |
| EnvStore.DataLayer.SetQAEnvironmentStatus | pkg/persistence/fake.go:381-393 | one status changes, if the record exists |
| EnvStore.DataLayer.SetQAEnvironmentRepoData | pkg/persistence/fake.go:395-414 | one record takes over the revision data |
| EnvStore.DataLayer.DeleteQAEnvironment | pkg/persistence/fake.go:232-254 | only a destroyed record goes, with its Kubernetes row |
| EnvStore.SortSorts | pkg/persistence/fake.go:285 | sorting by creation time orders and permutes |
| EnvRules.ExtantAtMostOne | pkg/nitro/env/env.go:562-572 | with one record for each (repository, PR), a count other than one means none extant |
| EnvRules.RowlessStays | pkg/nitro/env/env.go:629-645 | an extant environment without a Kubernetes row stays as it is through any deletes |
| EnvRules.DestroyAllIs | pkg/nitro/env/env.go:288-302 | deleting victims by repository and PR, one after the other, hits exactly the intended records |
| EnvRules.LimitMetIff | pkg/nitro/env/env.go:273-308 | afterwards min(before, limit) environments run iff every victim could be destroyed, and never fewer |
| EnvRules.VictimsAreOldest | pkg/nitro/env/env.go:283-288 | no victim is newer than a spared environment; the strictly newest is spared |
| EnvRules.LimitWithNewest | pkg/nitro/env/env.go:273-308 | enforced on behalf of the newest environment, it still runs and the limit holds |
| EnvManager.Manager.GenerateNewEnv | pkg/nitro/env/env.go:337-394 | reuses the one record of the pull request or writes a new one, and keeps one record for each, whatever fails |
| EnvManager.Manager.ProcessEnvConfig | pkg/nitro/env/env.go:397-434 | changes nothing but the revision data, once the configuration is there |
| EnvManager.Manager.Delete | pkg/nitro/env/env.go:574-646 | the exact table afterwards and the error, for every combination of faults: no other pull request is touched, all records of this one are destroyed if there was no error and they could be marked, and no status changes if there was one |
| EnvManager.Manager.DeleteRecords | pkg/nitro/env/env.go:584-604 | without an extant environment all records of the pull request are marked destroyed |
| EnvManager.Manager.EnforceGlobalLimit | pkg/nitro/env/env.go:273-308 | deletes the oldest running environments beyond the limit, in order, up to the one after which the context is found cancelled; failing deletes are passed over |
| EnvManager.Manager.BuildAndInstallCharts | pkg/nitro/metahelm/metahelm.go:349-404 | the status written for each outcome, none before there is a namespace, and the rows for every combination of faults |
| EnvManager.Manager.WriteK8sEnvironment | pkg/nitro/metahelm/metahelm.go:513-553 | replaces the Kubernetes row of the environment and no other |
| EnvManager.Manager.InstallOrUpgradeIntoExisting | pkg/nitro/metahelm/metahelm.go:305-343 | Updating, then Success or Failure |
| EnvManager.Manager.Create | pkg/nitro/env/env.go:475-548 | when it succeeds, and the table and rows it leaves: a record with the event's revision and the time, marked Success or Failure as there was an error, victims of the limit deleted, everything else as before; one record for each (repository, PR); within the limit |
| EnvManager.Manager.PrepareCreate | pkg/nitro/env/env.go:509-539 | the new environment still runs after the limit was enforced |
| EnvRules.CreateTouches | pkg/nitro/env/env.go:475-548 | creating changes nothing but the status of its own record and, if more ran than the limit allows, that of others which ran, to destroyed |
| EnvManager.Manager.Update | pkg/nitro/env/env.go:686-794 | of the one extant environment: when it succeeds, and that its record takes over the new revision and is marked Success or Failure as there was an error, nothing else in the table changes, and no row at all if it was successful before with the same configuration, which is then upgraded in place; without one, what Create does |
| EnvReaper.Reaper.PruneDestroyedRecords | pkg/reap/reaper.go:153-192 | the exact records that go, in the order listed: those destroyed of unknown or great age, until a hundred of great age have been counted |
| EnvReaper.AllPrunedUnlessFull | pkg/reap/reaper.go:153-192 | all of them that can be deleted have gone, unless a hundred of great age were counted, which takes more than a hundred records |
| EnvReaper.Reaper.DestroyFailedOrStuckEnvironments | pkg/reap/reaper.go:203-222 | exactly the records failed or spawned for more than an hour are deleted |
| EnvReaper.Reaper.DestroyClosedPRs | pkg/reap/reaper.go:129-151 | exactly the records of closed pull requests are deleted, up to the first whose status cannot be had |
| EnvReaper.Reaper.EnforceGlobalLimit | pkg/reap/reaper.go:224-249 | the same victims as the manager's, after sorting again |
| EnvReaper.Reaper.Reap | pkg/reap/reaper.go:84-99 | the four parts one after the other, each of which may fail on its own |
| EnvReaper.ReapCleans | pkg/reap/reaper.go:84-99 | when nothing fails: no records have gone but those destroyed more than 730 hours ago, or at no known time, and these all have if there were no more than a hundred records; what failed or was only spawned over an hour ago, or belongs to a closed pull request, is destroyed; no more run than the limit allows; nothing else has changed |
| EnvReaper.Run | pkg/reap/reaper.go:84-99 | after every run of create, update, delete and reap there is at most one record for each (repository, PR) |
| EnvSearch.Compile | pkg/persistence/pg.go:415-490 | each of the four validation errors exactly when it applies, or the numbered query of the criteria that are set |
| EnvSearch.NumberedMeans | pkg/persistence/pg.go:432-488 | placeholders are 1, 2, ... in the order written, one for each argument, and a row is accepted iff it meets every criterion |
| EnvSearch.QueryMeans | pkg/persistence/pg.go:432-488 | the compiled query accepts a row iff the in-memory filters keep it, apart from age |
| EnvSearch.AgeAgreesIff | pkg/persistence/pg.go:482-484 | the exact ages on which query and memory agree |
| EnvSearch.WellFormedIff | pkg/persistence/pg.go:489 | there is a clause behind WHERE iff some criterion is set |
| EnvSearch.NoCriterionKeepsAll | pkg/persistence/fake.go:530-602 | in memory, a search without criteria keeps every record |
| EnvSearch.SearchInMemory | pkg/persistence/fake.go:530-602 | the chain of filters keeps, in order, the rows that pass all of them |
| EnvSearch.SearchesAgree | pkg/persistence/fake.go:530-602 | with some criterion set and no age, both searches find the same rows |
| TempSuffix.FullPeriod | pkg/nitro/env/tempdir.go:20-30 | iterating n times returns to a state iff n is a multiple of 2^32 |
| TempSuffix.DistinctIterates | pkg/nitro/env/tempdir.go:26 | two iterates of a state are equal iff their counts agree modulo 2^32 |
| TempSuffix.VisitsEveryWord | pkg/nitro/env/tempdir.go:26 | every state is reached from every state |
| TempSuffix.NoReseedRunsDoNotRepeat | pkg/nitro/env/tempdir.go:20-30 | between two reseedings all states differ |
| TempSuffix.SuffixText | pkg/nitro/env/tempdir.go:29 | a suffix is the state modulo 10^9 in exactly nine decimal digits, and two are equal iff the states agree modulo that |
| TempSuffix.SuffixAtMostFiveTimes | pkg/nitro/env/tempdir.go:20-30 | between two reseedings no suffix is returned more than five times |
| TempSuffix.SuffixSource.constructor | pkg/nitro/env/tempdir.go:13 | the state begins at zero |
| TempSuffix.SuffixSource.NextSuffix | pkg/nitro/env/tempdir.go:20-30 | advances the package variable and returns nine digits; the states since the last reseeding begin anew after zero; the sum fits in 32 bits |
| TempSuffix.TrailMeans | pkg/nitro/env/tempdir.go:38-59 | each of the first eleven names is made from the state after that of the one before, and each later one from a new seed |
| TempSuffix.SuffixSource.TempDir | pkg/nitro/env/tempdir.go:33-61 | tries names made from successive states, reseeded after each conflict from the eleventh on, while they exist, at most 10000, and returns the first that could be made, or the error |
| MemfsTempDir.MakeTempDir | pkg/nitro/env/tempdir.go:33-61 | in the in-memory filesystem the first name tried decides: a directory of that name is returned, new or not, and a file is an error |

## Left out

- Relative paths, symbolic links, negative sizes, file modes and the locks inside the in-memory filesystem.
- MemfsStorage.Storage.New: asks that creating writes no nil child map, where Go panics.
- MemfsStorage.Storage.CreateParent: asks the same.
- MemfsStorage.Storage.Rename: asks that no move writes a nil child map or misses its source, where Go panics; RenameNeverPanicsIff says when none does.
- MemfsRuns.RenameWorksIff: asks for a free target; ReplaceWorksIff adds files and empty directories; renaming onto a directory with something below it, or into the renamed path itself, is modelled by Storage.Rename alone.
- MemfsFile.File.Read: asks for a position that is not negative, where Go panics, once the handle is open and readable.
- MemfsFile.File.Write: asks for a position that is not negative, where Go panics, once the handle is open and writable.
- MemfsMemory.Memory.OpenFile: contents are given to files when they are created, not to directories, whose contents no handle reaches.
- BillyWalk.Walk: a filesystem that changes while it is walked, and errors of reading a directory, which this filesystem never reports.
- Dependencies.Resolver.ProcessDep: refs, branches, image names and other metadata of a dependency; a repository is one configuration, fetched at most once.
- DependencyOrphans.ResolvedRootedIff: asks that no requirement can be renamed twice, as the list depends on map order otherwise; RootedIff and EndsIff are about any list.
- ProgressTree.SetInitialStatus: the early return when a branch is empty, and chart and image status.
- RenderTree.Render: the texts of headings and nodes, sections that are empty, and the nodes of image builds.
- EnvManager.Manager.Delete: the namespace is torn down, and its Kubernetes row removed, by a goroutine at any later time; RowlessStays says what that means if the record could not be marked.
- EnvManager.Manager.Create: the operation's own lock and preemption are those of PreemptiveLock and are not run through again here.
- EnvManager.Manager.Update: tearing down the old namespace runs beside the rebuild, so a successful environment is not claimed to have a Kubernetes row.
- EnvReaper.Reaper.EnforceGlobalLimit: the reaper's limit is the manager's.
- EnvReaper.ReapCleans: asks that every extant environment has its Kubernetes row and that the status of every pull request can be had, as otherwise deletes fail; the contracts of the parts say what happens then.
- EnvReaper.Run: names that were generated before, and counting environments for metrics.
- EnvSearch.AgeAgreesIff: whole hours come from integer division; the float64 of the source rounds up just below the hour for durations of thousands of hours.
- EnvSearch.Compile: the text of the query, and how the database compares and orders rows.
- TempSuffix.SuffixSource.TempDir: the cleaning of the joined path, and the mutex around the generator.
- MemfsTempDir.MakeTempDir: asks that creating the directory writes no nil child map, where Go panics; the prefix is one path component.
- Lock keys, event logs, notifications to users, commit statuses, metrics, tracing and timeouts other than as steps that may happen.
- FakePreemptableLock: it holds the store's mutex while it blocks, and does not keep the protocol's promises.
- The concurrent fetching of charts, configuration signatures, hashing, encryption and image-build order.
- HTTP, OAuth, webhooks, GitHub, Slack, Docker, Furan, Kubernetes, Tiller, Helm and the command line.
