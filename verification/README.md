# A verified model of the media server

This project models the part of the media server that keeps state - the
directory scanner, the file registration shared by two threads, the scan-request
scheduler, the database operations over several plugins, and the inotify
bookkeeping - and proves what they guarantee together. `dafny verify
dfyconfig.toml` checks all of it.

## What is modelled

* **Directory traversal** (`filetree`, `dirnode`, `pathbuffer`, `polls`,
  `scanpolls`, `scanlist`, `traversal`, `reachable`, `scanorder`).
  `_ms_dir_check` walks a tree without a stack, with heap nodes linked by `parent`,
  `Rbrother` and `next` and a depth counter that two functions bump and roll back.
  `Traversal.DirCheck`
  is that algorithm on real linked nodes, with every poll of `power_off` and of
  the card state in its place. It is proved to produce the list of the plain
  recursive walk `FileTree.Preorder` or, if one of the polls is answered yes, just
  what that walk finds with the polls made before; the walk in turn is proved to
  visit the reachable directories.
* **Registration protocol** (`reglist`, `registration`, `registrationruns`). The inotify thread and
  the socket thread call `ms_register_file`; each step of a thread is what it
  does between two points where the other can interfere. One inductive
  invariant gives safety, exactness of `reg_list`, conservation of replies and
  progress for every interleaving; what each thread was asked, checked and
  inserted tells where every answer comes from.
* **Scheduler** (`scheduler`, `schedulerruns`, `schedulerprogress`, `externalstorage`). `_insert_array`
  and the thread loop, and what holds on every run: order of the pending array,
  nothing lost, everything taken up in the end, the action trace as a language and
  request by request, what ends the thread, and the memory-card callbacks that
  produce the requests.
* **Database** (`mediadb`, `dirscan`, `reconcile`, `mirror`). The operations
  over all plugins, each loop with its own failure behaviour; what a scan does to
  each plugin; PART equals ALL; and, putting scheduler, traversal and database
  together, `Mirror.DatabaseMirrorsLastScanIff`.
* **Inotify** (`watchlist`, `createlist`, `walkends`, `walk`, `walkresults`,
  `rename`, `renamepairs`, `renamedtree`, `events`, `filesync`, `direvents`, `treesync`). The two
  linked lists edited in place, the two recursive walks and when they end, the
  event loop with its memory of the previous event, the simple file model that it
  refines, what a directory rename, seen as two events, does to items and watches,
  and how the file model survives it.

Classes stand for what the source changes in place, and each of their methods is
proved against a function of the old state; the theorems are about these
functions. The file system is a map from the directories that `opendir` opens to
what `readdir_r` lists. Plugins, MIME and DRM answers are parameters
(`MediaDb.Env`); so are the kernel's watch descriptors, which come with each
event (`Notice.kernel`). Polls of `power_off` and of the card state are read, one
after the other, from a script that is any sequence of answers (`Polls.Script`):
each pass of a scan stops at its first yes, and at nothing else.

## Where the code does not do what one would expect

* `(prev_mask & IN_ISDIR) & IN_CREATE` is never true
  (`InotifyEvents.NeverDirectoryCreated`).
* `ms_inoti_modify_watch` never renames the first watch (`RenamedTree.FirstWatchStays`);
  the old tree disappears from the list exactly if the first watch is outside it
  (`RenamedTree.NoOldNameIff`). In practice the first watch is
  `/opt/data/file-manager-service`, added at start-up.
* It also renames onto a name that another watch has (`WatchList.RenameOntoTakenName`);
  `WatchList.ModifiedKeepsDistinctIff` says when for one call,
  `RenamedTree.StayDistinctIff` for a whole tree, and
  `DirectoryEvents.NamesStayDistinctIff` for whole runs.
* `ms_inoti_remove_watch_recursive` removes by substring. It removes a subtree and
  nothing else exactly if no watch outside the subtree contains the argument
  (`WatchList.RemovesSubtreeIff`); taking the card out also drops the watches of
  `/opt/media/opt/storage/sdcard` and of `/opt/storage/sdcard2`
  (`WatchList.RemovesTooMuch`).
* An unknown descriptor is attributed to the last watch (`WatchList.ResolveKnown`).
  A file closed between the two events of a directory rename
  (`DirectoryEvents.ForgottenAfterClose`) makes the loop forget where the directory
  came from, exactly as `DirectoryEvents.RememberedIff` says; the arriving directory
  is then followed as if it came from the directory watched last
  (`DirectoryEvents.PairForgotten`).
* A file that is deleted while it is open, and then closed, comes back into the
  database, because its entry in the create list is still there
  (`FileSync.DeletedWhileOpen`). Among the events on tracked files only such a close
  puts database and files out of step (`FileSync.EffectKeepsSyncIff`,
  `FileSync.DatabaseFollowsEvents`); events on directories have ways of their own
  (`DirectoryEvents.PairForgotten`, `TreeSync.SyncFollowsIff`).
* A file that a plugin did not accept at its old path gets no item when its
  directory is renamed, even if the plugin accepts it now (`TreeSync.OneFileStaysIff`).
* `_insert_array` puts one request in several places exactly when it replaces
  several (`SchedulerRuns.PlacedTwice`); `SchedulerRuns.TwoScansThenInvalid` is a
  run of the thread in which it happens.
* A partial rescan without an INVALID before it keeps valid items whose files
  are gone (`Reconcile.ValidItemWithoutFile`); it equals a full rescan exactly if
  there are none (`Reconcile.PartEqualsAll`).
* `ms_strappend` cuts a joined path of 4095 or 4096 characters to 4094. The
  recursive walks go on with the cut path and the stackless one with the whole
  one; the first walk ends and visits the same directories, and just the reachable
  ones, exactly if no child path is cut (`RecursiveWalk.WalkVisitsPreorderIff`,
  `WalkResults.WalkVisitsReachableIff`, `RecursiveWalk.WalksDiffer`).
* In a directory whose path has 4094 characters a one-letter subdirectory gets the
  path of its parent, and the recursive walks enter the parent again, with no bound
  on their depth (`WalkEnds.StalledForever`, `WalkEnds.StallingTree`). A walk returns
  by itself if and only if it does not come to such a directory, and is then at most
  4096 calls deep (`WalkEnds.EndsIff`). `WalkEnds.Progresses` says that it does not,
  of the tree that is walked and of nothing else.
* `ms_strappend` then stores a terminator at the length of the joined path, inside the
  4096 cells of the buffers exactly up to 4095 characters
  (`PathBuffer.StoreInsideIff`, `PathBuffer.StoreOutside`).
* The comment above `ms_get_full_path_from_node` asks for a buffer of
  `MS_FILE_PATH_LEN_MAX` cells, but a path of exactly that length is accepted and
  needs one more (`DirNode.RoomForIff`, `DirNode.BufferTooSmall`); the store to that
  cell is part of `DirNode.GetFullPathFromNode`.

## Model

| member | source | states |
|---|---|---|
| `Base.StrAppend` | common/media-server-utils.c:203-224 | succeeds exactly when the joined path has at most 4096 characters; the result is a prefix of the joined path, all of it exactly up to 4094, and otherwise its first 4094 characters |
| `Base.StorageTells` | common/media-server-utils.c:192-201 | which paths belong to which storage, and that none belongs to both |
| `PathBuffer.AppendInto` | common/media-server-utils.c:203-224 | the same on the buffer: a refused path leaves it alone; an accepted one is written with its terminator and with a second one at the length of the joined path, and no other cell changes |
| `PathBuffer.StoreInsideIff` | common/media-server-utils.c:203-224 | the second terminator is inside a buffer of 4096 cells if and only if the joined path has at most 4095 characters |
| `PathBuffer.StoreOutside` | common/media-server-utils.c:203-224 | an accepted path, made of names of at most 255 characters, for which it is not |
| `DirNode.GetFullPathFromNode` | common/media-server-utils.c:144-190 | for a node at its true depth it fails exactly when the root-to-node path is longer than the limit, otherwise it writes that path and a terminator and leaves the rest of the buffer alone; the cell behind the limit is stored to exactly if the limit is not room enough |
| `DirNode.JoinComponents` | common/media-server-utils.c:170-189 | the joining loop, from components in leaf-to-root order |
| `DirNode.JoinAllLength` | common/media-server-utils.c:170-185 | the length of a built path is the sum of the name lengths plus the depth |
| `DirNode.RoomForIff` | common/media-server-utils.c:140-190 | 4097 cells always suffice; 4096 suffice exactly if no prefix of the path has 4096 characters |
| `DirNode.BufferTooSmall` | common/media-server-utils.c:140-190 | a chain of names of at most 255 characters whose path is accepted and for which 4096 cells do not suffice |
| `ScanQueue.ScanList.Find` | common/media-server-scan-internal.c:98-113 | finds a path iff it is listed, and otherwise the tail |
| `ScanQueue.ScanList.Add` | common/media-server-scan-internal.c:98-127 | the linked list grows by the path at its end, unless the path is listed already |
| `ScanQueue.NoCellTwice` | common/media-server-scan-internal.c:98-124 | a chain of cells that ends in NULL never meets a cell twice |
| `Traversal.ScanAddNode` | common/media-server-scan-internal.c:86-128 | at the true depth it lists the root-to-node path, or fails exactly when that is too long |
| `Traversal.LinkChild` | common/media-server-scan-internal.c:228-247 | a new node becomes the last brother under the right parent and the end of the `next` chain, and both chains stay well formed |
| `Traversal.CollectChildren` | common/media-server-scan-internal.c:194-256 | creates one node per openable, non-hidden child directory, in listing order, and lists their paths; it stops exactly at the first poll that is answered yes, with the children of just those entries whose polls were answered no |
| `Traversal.FindNext` | common/media-server-scan-internal.c:54-75 | brother, climb over several levels, or end: the new current node heads exactly the visits that remained, with the depth equal to its level; it returns NULL only if none remained |
| `Traversal.GetNextPath` | common/media-server-scan-internal.c:47-84 | the depth invariant across the call, in all three cases, and the path of the new current directory |
| `Traversal.VisitStep` | common/media-server-scan-internal.c:176-270 | one visit keeps the list, and the count of polls, on the way to those of the recursive walk and strictly shortens what remains |
| `Traversal.CutShort` | common/media-server-scan-internal.c:196-210 | stopping within a directory leaves on the list just what the recursive walk finds with the polls made before |
| `Traversal.FreeNodes` | common/media-server-scan-internal.c:278-284 | the cleanup follows `next` through every node in the order of creation and meets none twice |
| `Traversal.WalkTree` | common/media-server-scan-internal.c:176-270 | the outer loop terminates with all its nodes chained; it is stopped exactly by the first yes, and in any case has found just what the recursive walk finds before that poll |
| `Traversal.DirCheck` | common/media-server-scan-internal.c:130-285 | stopped exactly if one of its polls is answered yes; in any case the list has the root and just what the recursive walk finds before that poll, and one node was allocated, and is freed once, for each of these and for the root; not stopped, that is everything |
| `Traversal.WalkFindsPrefix` | common/media-server-scan-internal.c:176-270 | what the recursive walk finds before the first yes is a first part of what it finds, and all of it if there is none |
| `ScanPolls.FoundWithinPrefix` | common/media-server-scan-internal.c:176-270 | the first of these for any visits and any number of polls answered no |
| `ScanPolls.EntriesPollsCounted` | common/media-server-scan-internal.c:196-210 | power_off is looked at for every entry, and for the external storage the card once more for every entry that is not hidden |
| `ScanPolls.VisitPollsCounted` | common/media-server-scan-internal.c:176-212 | how many polls a visit makes in all |
| `Traversal.StoppedIsPrefix` | common/media-server-scan-internal.c:176-270 | a stopped traversal leaves a prefix of the complete list |
| `Polls.StoppedIffHit` | common/media-server-scan-internal.c:178-212 | a scan that makes all its polls unless it stops is stopped if and only if one of them is answered yes |
| `Reachable.PreorderSound` | common/media-server-scan-internal.c:194-256 | every directory the walk visits is reachable through openable, non-hidden directories |
| `Reachable.PreorderComplete` | common/media-server-scan-internal.c:194-256 | every directory so reachable is visited |
| `Reachable.ScanListIsReachableSet` | common/media-server-scan-internal.c:130-285 | the complete scan list has no duplicates and holds exactly the reachable directories |
| `ScanOrder.ScanListInOrder` | common/media-server-scan-internal.c:130-285 | if directories list distinct names without '/', no addition is ever skipped: the list is the root and then each directory's children in preorder |
| `ScanOrder.PreorderDistinct` | common/media-server-scan-internal.c:47-84 | the walk never visits a directory twice and stays below its root |
| `RegList.RegisterList.Insert` | common/media-server-db-svc.c:79-89 | appends the path |
| `RegList.RegisterList.Find` | common/media-server-db-svc.c:91-111 | true exactly for listed paths |
| `RegList.RegisterList.Delete` | common/media-server-db-svc.c:113-134 | removes the first occurrence only |
| `RegList.RemoveFirstMembers` | common/media-server-db-svc.c:113-134 | on a list without duplicates that removes the path and nothing else |
| `Registration.StepKeepsHandoff` | common/media-server-db-svc.c:478-541 | every step keeps: soc_queue is set only for a waiter whose path is still being registered or was just answered |
| `Registration.RunKeepsInv` | common/media-server-db-svc.c:459-544 | the whole invariant (mutex, list, hand-off, counts, replies) holds after every interleaving |
| `Registration.HandoffIsSafe` | common/media-server-db-svc.c:478-541 | in every reachable state the reply queue holds at most one item, and that item decodes to the result for the path the waiter asked for |
| `Registration.RepliesAreRight` | common/media-server-socket.c:71-74 | an answer taken from the queue is the result of exactly the registration, of exactly the path, that was going on when the thread asked |
| `Registration.RegListIsExact` | common/media-server-db-svc.c:478-533 | reg_list has no duplicates and is the set of paths being registered; no path is registered by both threads at once |
| `Registration.RepliesAreConserved` | common/media-server-db-svc.c:478-541 | when both threads are idle, pushes, pops and NOW_REGISTER answers are equal in number and nothing is left over |
| `Registration.WaiterHasHelp` | common/media-server-db-svc.c:494-541 | a blocked waiter without a reply faces an inotify thread whose next step is enabled and brings it one step nearer to the push, on the MIME failure path too |
| `Registration.WaiterIsServed` | common/media-server-db-svc.c:494-541 | whatever the schedule, once the inotify thread has had that many turns the waiter has had its reply |
| `Registration.NeverStuck` | common/media-server-db-svc.c:459-544 | no deadlock: if one thread is blocked the other can move |
| `Registration.SectionsAreSteps` | common/media-server-db-svc.c:478-541 | what the two locked sections of ms_register_file do to list, soc_queue and queue is what the steps of the protocol do |
| `Registration.Registrar.Claim` | common/media-server-db-svc.c:478-493 | the first section: lists the path, or answers MS_ERR_NOW_REGISTER_FILE and leaves its queue if it wants a reply |
| `Registration.Registrar.Release` | common/media-server-db-svc.c:530-541 | the last section: unlists the path, pushes the shifted result if somebody waits, and forgets the waiter |
| `RegistrationRuns.EachQuestionAnswered` | common/media-server-db-svc.c:459-544 | after every interleaving each question of a client but the one the thread is busy with has exactly one answer, in order: success at once exactly if the check found the file, otherwise the result of the thread's own insertion of that path, or a handed-over one |
| `RegistrationRuns.AnswersComeFromInsertions` | common/media-server-db-svc.c:472-541 | an answer about a file that the check did not find carries the code of an insertion of that very path by one of the two threads, and is success exactly if that inserted it |
| `RegistrationRuns.KnownFilesAreFound` | common/media-server-db-svc.c:472-476 | success at once is told only of a path that the thread's check found |
| `RegistrationRuns.OnlyUnknownInserted` | common/media-server-db-svc.c:472-494 | neither thread inserts a path but directly after a check of it that did not find it |
| `RegistrationRuns.NothingPushedIsNull` | common/media-server-db-svc.c:535-537 | what is pushed for a waiter is never zero, which the queue would take for NULL |
| `RegistrationRuns.CodesTell` | common/media-server-db-svc.c:494-526 | only a file that was inserted gives MS_ERR_NONE, and the failures give different codes |
| `RegistrationRuns.EachStepNearer` | common/media-server-db-svc.c:459-544 | every step that a busy thread can make brings it nearer to its answer; eight are enough |
| `RegistrationRuns.AloneWithKnown` | common/media-server-db-svc.c:472-476 | a client alone that asks about a known file is answered after two turns, and nothing else changes |
| `RegistrationRuns.AloneWithUnknown` | common/media-server-db-svc.c:478-544 | about an unknown one after nine, with the result of the insertion, and nothing else changes |
| `MediaDb.MediaService.Validate` | common/media-server-db-svc.c:387-437 | per plugin: inserts what is missing, validates what is there, touches nothing in the other categories; the last error is returned |
| `MediaDb.MediaService.Insert` | common/media-server-db-svc.c:584-615 | inserts in every plugin of the category, and returns the last error |
| `MediaDb.MediaService.InsertInBatch` | common/media-server-db-svc.c:546-582 | the same in batch mode; for a DRM file the result is that of the DRM registration alone |
| `MediaDb.MediaService.DeletePath` | common/media-server-db-svc.c:617-649 | deletes wherever the item exists; an absent item counts as an error |
| `MediaDb.MediaService.MovePath` | common/media-server-db-svc.c:651-682 | moves the record, keeping its validity, in the plugins of the target's category that have it under the old storage |
| `MediaDb.MediaService.InvalidateAllItems` | common/media-server-db-svc.c:439-457 | marks every item of the storage in all plugins that do not fail, going on after a failure |
| `MediaDb.MediaService.DeleteAllItems` | common/media-server-db-svc.c:684-702 | empties the storage in the plugins before the first failing one and stops there |
| `MediaDb.MediaService.DeleteInvalidItems` | common/media-server-db-svc.c:704-721 | the same for the invalid items |
| `MediaDb.MediaService.CheckExist` | common/media-server-db-svc.c:756-773 | succeeds only if every plugin, of whatever category, has the item |
| `MediaDb.MediaService.RegisterFile` | common/media-server-db-svc.c:459-544 | the exact result code: success if all plugins had the item, or if a MIME type is found and the last accepting plugin has it afterwards, whatever the others did |
| `MediaDb.NoInsertError` | common/media-server-db-svc.c:600-614 | the returned code is MS_ERR_NONE exactly if no plugin of the category failed |
| `MediaDb.LastErrorTells` | common/media-server-db-svc.c:405-433 | the code that a validation returns is that of the last plugin whose call failed, and MS_ERR_NONE if there is none |
| `MediaDb.LastAcceptingHasIff` | common/media-server-db-svc.c:508-522 | what the last pass over the plugins finds out: whether the last one that accepts the path, if there is one, has it |
| `MediaDb.InsertedAt` | common/media-server-db-svc.c:600-614 | what an insertion leaves in one plugin, whatever else fails |
| `MediaDb.ValidatedAt` | common/media-server-db-svc.c:405-433 | the same for a validation, which needs one of two calls |
| `MediaDb.DeletedAt` | common/media-server-db-svc.c:627-648 | the same for a deletion |
| `MediaDb.MovedAt` | common/media-server-db-svc.c:664-681 | the same for a move: the record goes with its validity and is filed under the new storage |
| `MediaDb.RegisteredAt` | common/media-server-db-svc.c:472-494 | the same for a registration: a file that every plugin has is left alone |
| `MediaDb.StopsAtFirstFailure` | common/media-server-db-svc.c:684-721 | the plugins before the first failing one have lost just the items meant, that one and those behind it none |
| `MediaDb.InvalidatedAt` | common/media-server-db-svc.c:439-457 | invalidation changes only the validity, only in the storage, and in every plugin that does not fail |
| `Scheduler.ScanThread.InsertArray` | common/media-server-scan.c:48-79 | the loop that edits the array while scanning it replaces every pending request of the storage with a larger type, or else appends; POWEROFF goes to the front |
| `Scheduler.InsertedShape` | common/media-server-scan.c:59-78 | on the pending requests of a storage exactly a suffix is replaced, one copy of the new object for each |
| `Scheduler.InsertedOrder` | common/media-server-scan.c:59-78 | they stay nondecreasing, the new request is the last and none is larger |
| `Scheduler.InsertedKeepsPowerOff` | common/media-server-scan.c:59-60 | POWEROFF requests remain a prefix of the array |
| `Scheduler.OfInserted` | common/media-server-scan.c:62-74 | an insertion leaves the requests of other storages as they were |
| `Scheduler.GivesWay` | common/media-server-scan.c:62-67 | within a storage INVALID displaces scans of both kinds, PART displaces ALL, and nothing else displaces anything |
| `Scheduler.ScanThread.Serve` | common/media-server-scan.c:122-187 | the action sequence for one request, cut after the scan if power is off |
| `Scheduler.ScanThread.Move` | common/media-server-scan.c:100-120 | one move of the thread: read the queue length, or act on the length read, which may be out of date |
| `Scheduler.ScanThread.Loop` | common/media-server-scan.c:100-191 | the thread interleaved with its producers, along any script |
| `SchedulerRuns.PendingIsOrdered` | common/media-server-scan.c:59-78 | on every run each storage's pending requests are in nondecreasing type order and POWEROFF comes first |
| `SchedulerRuns.NothingDropped` | common/media-server-scan.c:100-120 | on every run the requests moved to the array and those still queued are, in order, all that were pushed |
| `SchedulerRuns.NothingIsLost` | common/media-server-scan.c:59-120 | on every run each request is taken up, pending, or was overtaken by a later one of a smaller type that is; the latest request always comes last |
| `SchedulerProgress.EverythingIsTakenUp` | common/media-server-scan.c:100-191 | from every state the thread can get into, if it is not stopped and no POWEROFF waits, more than 4 moves for each queued and 2 for each pending request empty queue and array unless power_off is seen; every request that ever arrived is then taken up or overtaken by a later, smaller one that was |
| `SchedulerProgress.LastArrivalIsTakenUp` | common/media-server-scan.c:100-191 | then the last request taken up for a storage is the last that arrived |
| `SchedulerProgress.StoppedIff` | common/media-server-scan.c:104-191 | on every run the thread is stopped if and only if a POWEROFF was taken out of the array or power_off was seen behind a scan; a failed connect does not stop it |
| `SchedulerRuns.ScansFollowInvalid` | common/media-server-scan.c:48-120 | if an INVALID separates any two scans of a storage, every object sits in the array once and every scan taken up is the first request or directly follows an INVALID |
| `SchedulerRuns.PlacedTwice` | common/media-server-scan.c:62-74 | a new object is put in two places exactly if two pending requests of its storage are larger |
| `SchedulerRuns.TwoScansThenInvalid` | common/media-server-scan.c:48-79 | a run from the initial state after which one request is pending twice |
| `SchedulerRuns.PowerOffEndsScanning` | common/media-server-scan.c:100-110 | once POWEROFF is in the array no request is taken up any more in any continuation |
| `SchedulerRuns.PowerOffArrived` | common/media-server-scan.c:100-120 | once it is queued at most one more is, and only if the thread had already read an empty queue |
| `SchedulerRuns.TraceIsOrderly` | common/media-server-scan.c:122-191 | the action trace of every run is accepted by an automaton in which every start has its end, delete-invalid follows the end of validation, and UPDATING and UPDATED alternate |
| `SchedulerRuns.TraceIsBlocks` | common/media-server-scan.c:100-191 | the trace of every run is made of the blocks of the requests taken up, in their order, each according to its type and to how it fared |
| `SchedulerRuns.BlockTells` | common/media-server-scan.c:122-191 | which actions a block has: delete-all exactly for a full scan, validation and delete-invalid exactly for a partial one, what was opened is closed |
| `ExternalStorage.CardMonitor.VconfCallback` | common/media-server-external-storage.c:262-300 | the request pushed for each card state, and the watches of the card dropped when it is gone |
| `ExternalStorage.CardMonitor.RemovedHandler` | common/media-server-external-storage.c:240-260 | an INVALID request, and the watches that contain the path of the card are dropped |
| `ExternalStorage.CardMonitor.Callbacks` | common/media-server-external-storage.c:262-300 | a sequence of callbacks pushes the requests of the readings, in order |
| `ExternalStorage.RequestsTell` | common/media-server-external-storage.c:206-297 | INVALID exactly when the card is gone or not mounted, PART exactly for a mounted card whose identity is kept, ALL for any other |
| `ExternalStorage.InternalWatchStays` | common/media-server-external-storage.c:240-260 | taking the card out leaves a watch of the internal storage alone |
| `ExternalStorage.ChangesAlternate` | common/media-server-external-storage.c:276-297 | callbacks on real changes of the card state produce a stream in which INVALID separates any two scans |
| `DirScan.ScanDirectory` | common/media-server-scan-internal.c:325-363 | handles the directory's files in listing order and stops exactly at the first yes, having handled just the entries whose polls were answered no |
| `DirScan.ScanListed` | common/media-server-scan-internal.c:310-375 | the same over all listed directories |
| `DirScan.ScanStorage` | common/media-server-scan-internal.c:287-399 | traversal and scan together: stopped if and only if one of the polls made is answered yes; which files are handled, and after how many polls it ends, is a function of the tree and of the answers; INVALID only marks; the list is empty again at the end |
| `DirScan.ScanSeesPrefix` | common/media-server-scan-internal.c:287-399 | these files are a first part of those of a complete scan, and all of them if no poll is answered yes |
| `DirScan.SecondPassGoesOn` | common/media-server-scan-internal.c:287-375 | however early the traversal is stopped, the second pass goes over all that it listed, and sees every file there if no poll of its own is answered yes |
| `DirScan.ServeRequest` | common/media-server-scan.c:133-167 | the database effect of one request, with the files handled as a function of tree and answers; it counts as powered off exactly if the poll behind the scan is answered yes |
| `Reconcile.HandledAll` | common/media-server-scan-internal.c:346-361 | after handling any files a plugin has its old items and the accepted files, the latter valid |
| `Reconcile.AllKeys` | common/media-server-scan.c:133-140 | what a full rescan leaves, in this and in other storages |
| `Reconcile.AllKeysAnyway` | common/media-server-scan.c:133-157 | the same whether or not power_off is seen behind the scan |
| `Reconcile.PartKeys` | common/media-server-scan.c:148-167 | what a partial rescan leaves |
| `Reconcile.PartCutOff` | common/media-server-scan.c:148-157 | what it leaves if power_off is seen behind the scan: nothing is deleted, and only the accepted files become valid |
| `Reconcile.PartEqualsAll` | common/media-server-scan.c:133-167 | both leave the same keys in every plugin if and only if no valid item of the storage lies outside the accepted files; marking everything invalid first is a special case |
| `Reconcile.ValidItemWithoutFile` | common/media-server-scan.c:133-167 | a database on which the two differ |
| `Reconcile.InvalidateMarks` | common/media-server-db-svc.c:439-457 | invalidation marks all items of its storage, keeps all keys and leaves other storages alone |
| `Reconcile.ScanSeesReachableFiles` | common/media-server-scan-internal.c:305-375 | a complete scan handles exactly the visible entries of the kinds with the DT_REG bit that reachable directories list |
| `FileTree.BitsTell` | common/media-server-scan-internal.c:212-346 | which kinds of entries pass the tests for DT_DIR and for DT_REG |
| `FileTree.HiddenIff` | common/media-server-scan-internal.c:204-337 | the entries passed over are those whose names begin with a dot |
| `Reachable.LeadsDownIff` | common/media-server-scan-internal.c:204-220 | the scanner enters a visible entry of the kinds with the DT_DIR bit that opens under the path made for it, and no other |
| `Reconcile.RegularFilesAreSeen` | common/media-server-scan-internal.c:340-361 | each visible regular file of a reachable directory whose path is accepted is handled |
| `Reconcile.DirectoriesAreNotSeen` | common/media-server-scan-internal.c:340-361 | a path that only directories or hidden entries have is not |
| `Reconcile.RescanMirrorsTheTree` | common/media-server-scan.c:133-167 | after a complete rescan each plugin has, for the storage, exactly the reachable files it accepts |
| `Mirror.TreeFilesInPlace` | common/media-server-utils.c:192-201 | a scan of a storage's root only meets files of that storage |
| `Mirror.OthersKept` | common/media-server-scan.c:133-167 | serving a request, however it fares, changes no item of another storage |
| `Mirror.LastRequestReflects` | common/media-server-scan.c:100-191 | over any sequence of requests the database reflects the last one of a storage, provided that one was carried out and, if it was a partial scan, came after an INVALID that was carried out, or first on a database without valid items; nothing is asked of the requests before |
| `Mirror.AlternationPrepares` | common/media-server-scan.c:100-191 | if the requests of a storage alternate, what comes before a scan is an INVALID |
| `Mirror.PreparedFindsNothingStray` | common/media-server-scan.c:100-191 | a partial scan that comes after an INVALID that was carried out, or first on a database without valid items, finds no valid item that it would not insert |
| `Mirror.DisciplinePrepares` | common/media-server-scan.c:100-191 | if an INVALID separates any two scans among the arrivals, a scan is so prepared for if and only if the request before it was carried out or, if there was none, nothing of the storage was valid at first |
| `Mirror.LastScanIff` | common/media-server-scan.c:100-191 | over any sequence of requests in which the last one of a storage for which the database could be opened is a scan that was carried out: each plugin holds, for the storage, exactly the accepted files that this scan went through if and only if it was a full one or found no valid item that it would not insert |
| `Mirror.DatabaseHoldsLastScanIff` | common/media-server-scan.c:100-191 | the same on every run of the thread, whatever became of the requests before, of those dropped behind it, and of those of the other storage |
| `Mirror.DatabaseMirrorsLastScanIff` | common/media-server-scan.c:100-191 | the main result on the tree alone: if that scan was complete, these are exactly the accepted files reachable in the tree it scanned, under the same condition |
| `WatchList.InotiList.AddWatch` | common/media-server-inotify.c:269-309 | appends unless the name is there or the kernel refuses |
| `WatchList.InotiList.ModifyWatch` | common/media-server-inotify.c:431-467 | renames the first match in place, keeping its descriptor, unless it is the first watch; otherwise adds the new name |
| `WatchList.InotiList.RemoveWatchRecursive` | common/media-server-inotify.c:359-394 | one pass over the links drops every watch whose name contains the argument, keeping the order of the others, for any pattern of removals |
| `WatchList.InotiList.RemoveWatch` | common/media-server-inotify.c:396-429 | drops the first watch of that name |
| `WatchList.InotiList.GetFullPath` | common/media-server-inotify-internal.c:93-120 | joins the name to the watch with the descriptor, or to the last watch if there is none |
| `WatchList.WithoutContainingMembers` | common/media-server-inotify.c:359-394 | exactly the watches stay whose names do not have the argument in them as a stretch, and names stay distinct |
| `WatchList.ContainsIff` | common/media-server-inotify.c:368-379 | the test finds the argument exactly if the name is some text, the argument, and some text |
| `WatchList.WithoutContainingConcat` | common/media-server-inotify.c:359-394 | the list is gone through part by part, so the others keep their order |
| `WatchList.RemovesSubtreeIff` | common/media-server-inotify.c:368-379 | it removes just the subtree of the argument if and only if no watch outside that subtree contains the argument in its name |
| `WatchList.RemovesTooMuch` | common/media-server-inotify.c:368-379 | a list of two watches outside the card that lose their watches with the card |
| `WatchList.AddedKeepsDistinct` | common/media-server-inotify.c:269-309 | adding never makes a name appear twice |
| `WatchList.ModifiedKeepsDistinctIff` | common/media-server-inotify.c:431-467 | a rename keeps names distinct if and only if the new name is not yet taken by another watch |
| `WatchList.RenameOntoTakenName` | common/media-server-inotify.c:431-467 | a list on which a rename leaves two watches of one name |
| `WatchList.ResolveKnown` | common/media-server-inotify-internal.c:101-110 | a known descriptor resolves to its own watch, an unknown one to the last |
| `CreateList.CreateFileList.Add` | common/media-server-inotify-internal.c:37-58 | the doubly linked list grows at its newest end and stays well formed |
| `CreateList.CreateFileList.Find` | common/media-server-inotify-internal.c:77-91 | the most recent match, or NULL |
| `CreateList.CreateFileList.Delete` | common/media-server-inotify-internal.c:60-75 | removes exactly that node, at the head, at the tail or between, and both directions stay inverse |
| `CreateList.RemovedOnce` | common/media-server-inotify-internal.c:60-91 | find and delete together remove one occurrence and no other element |
| `WalkEnds.StallsIff` | common/media-server-utils.c:203-224 | a joined path is that of the directory itself exactly for a name of at most one letter under a path of 4094 characters |
| `WalkEnds.StalledForever` | common/media-server-inotify.c:43-160 | a recursive call that enters its own directory is not finished within any depth, in either walk |
| `WalkEnds.EndsIff` | common/media-server-inotify.c:43-160 | either walk ends by itself if and only if it does not come to a call that enters its own directory, and is then at most 4096 calls deep |
| `WalkEnds.StallsInNewTreeIff` | common/media-server-inotify.c:43-90 | what such a directory is in the walk over a new tree: a path of 4094 characters and a visible directory of one letter in it |
| `WalkEnds.StallsAfterRenameIff` | common/media-server-inotify.c:92-160 | in the walk after a rename the old path must be accepted, too |
| `WalkEnds.StallingTree` | common/media-server-inotify.c:43-160 | such a file system, for any path of 4094 characters and any old path of at most that length: neither walk over it ends |
| `WalkEnds.StallingPath` | common/media-server-inotify.c:43-90 | there is such a path below the internal storage, of names with at most 255 characters |
| `RecursiveWalk.WalkVisitsPreorderIff` | common/media-server-inotify.c:43-90 | the recursive walk ends and opens the same directories in the same order as the stackless traversal if and only if no child path is cut on the way |
| `RecursiveWalk.WalksDiffer` | common/media-server-inotify.c:43-90 | a tree on which it ends and they differ |
| `RecursiveWalk.DirectoryScanAndRegister` | common/media-server-inotify.c:43-90 | terminates whenever the recursion ends, and performs the steps of the walk in order on the watch list and the database |
| `RecursiveWalk.RegisteredTree` | common/media-server-inotify.c:43-90 | after any steps: old watches stay, visited directories are watched, names distinct, and items are the old ones and the accepted files |
| `RecursiveWalk.NewDescriptors` | common/media-server-inotify.c:269-309 | the watches added have the descriptors that the kernel gave |
| `WalkResults.WalkVisitsCalled` | common/media-server-inotify.c:43-90 | every walk that ends visits exactly the openable directories to which a chain of its calls leads, cut paths included |
| `WalkResults.WalkVisitsReachableIff` | common/media-server-inotify.c:43-90 | the walk ends and visits exactly the reachable directories if and only if no child path is cut on the way |
| `WalkResults.WalkFiles` | common/media-server-inotify.c:62-84 | it meets exactly the non-hidden entries that the visited directories list |
| `WalkResults.RegisteredWholeTree` | common/media-server-inotify.c:43-90 | registering any tree whose walk ends: which watches and which items are added, in terms of the directories come to and what is listed there |
| `Rename.ScanRenamedFolder` | common/media-server-inotify.c:92-160 | terminates whenever the recursion ends, and follows the two trees pair by pair on the watch list and the database |
| `Rename.MoveFile` | common/media-server-inotify.c:142-152 | the item moves if both paths belong to a storage |
| `RenamePairs.RenameVisitsCalled` | common/media-server-inotify.c:92-160 | every walk after a rename that ends visits exactly the openable directories that its calls lead to, each with the old path of that call |
| `RenamePairs.RenameMeets` | common/media-server-inotify.c:115-152 | it meets exactly the other visible entries listed there both of whose paths are accepted, with these paths |
| `RenamePairs.RenameWalkPairsIff` | common/media-server-inotify.c:92-160 | if the walk over the new tree ends, so does the one with the old paths; it pairs each path met with the same relative path under the old root if and only if ms_strappend does so at each entry that the walk goes on with |
| `RenamePairs.TreeFitsPairs` | common/media-server-inotify.c:115-139 | it does if none of the paths met is cut, and none of those they had before is cut or refused |
| `RenamedTree.RenamedItems` | common/media-server-inotify.c:92-160 | for any steps below the new root each plugin ends up with exactly the renamed items |
| `RenamedTree.RenamedWatches` | common/media-server-inotify.c:431-467 | existing watches are renamed in place with their descriptors, missing ones added under names that are new, others kept - also when new names are taken |
| `RenamedTree.NoOldNameIff` | common/media-server-inotify.c:436-437 | no watch keeps an old name if and only if the first watch had none of them |
| `RenamedTree.StayDistinctIff` | common/media-server-inotify.c:431-467 | names stay distinct if and only if no watch but the first gets a name that is in the list already |
| `RenamedTree.FirstWatchStays` | common/media-server-inotify.c:436-437 | a list whose first watch keeps its old name |
| `RenamedTree.TreeItemsFollow` | common/media-server-inotify.c:92-160 | following a renamed tree: at each regular file's new path the plugin holds what it held at the old one, nothing at the old one, and everything else unchanged |
| `RenamedTree.TreeWatchesFollow` | common/media-server-inotify.c:92-160 | the same for the watch list, with the exact conditions for the names to stay distinct and for the old tree to be gone |
| `InotifyEvents.NeverDirectoryCreated` | common/media-server-inotify.c:629-630 | the second half of that test never holds |
| `InotifyEvents.KindsOfEvents` | common/media-server-inotify.c:537-656 | which masks of the kernel are which events, and which are on directories |
| `InotifyEvents.PassedOverIff` | common/media-server-inotify.c:508-545 | an event is passed over exactly for three kinds of names, a descriptor below 1, the length of its name, or a path that is too long |
| `InotifyEvents.InotifyThread.HandleEvent` | common/media-server-inotify.c:500-656 | one event: which are passed over, which end the loop, and the new database, lists and memory of the others |
| `InotifyEvents.InotifyThread.HandleDirectory` | common/media-server-inotify.c:537-592 | the directory branch: remember, follow a rename, register a new tree, or drop a watch |
| `InotifyEvents.InotifyThread.HandleFile` | common/media-server-inotify.c:593-656 | the file branch |
| `InotifyEvents.InotifyThread.HandleCloseWrite` | common/media-server-inotify.c:624-655 | registers a file that is in the create list and takes one entry off, otherwise changes no items |
| `InotifyEvents.InotifyThread.Loop` | common/media-server-inotify.c:490-667 | how many events are handled and why the loop ends, and the state after that many events, if the walks that these events set off end |
| `InotifyEvents.EndOfTells` | common/media-server-inotify.c:490-530 | the loop ends before an event only if power_off is seen there or the event before was that of the power-off directory, and it handles all events otherwise |
| `InotifyEvents.InotifyThread.Shutdown` | common/media-server-inotify.c:671-675 | what the three removals at the end leave of the watch list |
| `FileSync.SamePathSameFile` | common/media-server-inotify-internal.c:93-120 | two tracked files never share a path |
| `FileSync.EffectKeepsSyncIff` | common/media-server-inotify.c:594-655 | one event keeps every plugin equal to the file model if and only if it is not the close of an absent file with a stale create-list entry and an accepting plugin |
| `FileSync.DatabaseFollowsEvents` | common/media-server-inotify.c:594-655 | on every stream, after each event each plugin has exactly the accepted files that the simple model calls present, stale create-list entries notwithstanding, if and only if every event is harmless in that sense |
| `FileSync.ItemIffPresent` | common/media-server-inotify.c:594-655 | the same for one file and one plugin: the item is there if and only if the file is present and accepted |
| `FileSync.CreateListIsExact` | common/media-server-inotify.c:594-655 | on every stream the create list has, for each file, exactly as many entries as there are creations not closed yet |
| `FileSync.ReturnsToDatabase` | common/media-server-inotify.c:624-655 | such a close puts the item of the absent file into every plugin that accepts it |
| `FileSync.DeletedWhileOpen` | common/media-server-inotify.c:594-655 | creating, deleting and then closing any absent file does that |
| `DirectoryEvents.RememberedIff` | common/media-server-inotify.c:541-655 | after events that move no directory and leave the watch of its descriptor alone, the directory that left is still remembered if and only if none of them was a handled CLOSE_WRITE |
| `DirectoryEvents.FilesAreQuiet` | common/media-server-inotify.c:593-656 | any run of events on files is made of such events |
| `DirectoryEvents.CreationIsQuiet` | common/media-server-inotify.c:581-586 | so is the creation of a directory |
| `DirectoryEvents.DeletionIsQuiet` | common/media-server-inotify.c:587-591 | so is the deletion of another directory |
| `DirectoryEvents.ForgottenAfterClose` | common/media-server-inotify.c:624-655 | one file closed after writing is enough to forget |
| `DirectoryEvents.ForgottenOrigin` | common/media-server-inotify-internal.c:101-112 | if it was forgotten, its origin is looked up in the directory watched last |
| `DirectoryEvents.CreationRegistersTree` | common/media-server-inotify.c:581-586 | the event of a new directory gives exactly the watches and items of its whole tree, the old watches in front, and changes nothing else but the remembered mask |
| `DirectoryEvents.DeletionDropsWatch` | common/media-server-inotify.c:587-591 | that of a deleted one drops exactly the first watch of its path, keeps the others in order, and changes nothing else |
| `DirectoryEvents.OtherDirEvents` | common/media-server-inotify.c:537-592 | a directory event of another kind, or one that is passed over, changes nothing |
| `DirectoryEvents.PairIsRename` | common/media-server-inotify.c:541-574 | a MOVED_FROM and a MOVED_TO with such events between them, none of which makes the loop forget, follow the rename of the whole tree |
| `DirectoryEvents.PairForgotten` | common/media-server-inotify.c:541-574 | if an event between them makes the loop forget, the same pair follows the tree as one that came from the directory watched last, or does nothing if that path is too long |
| `DirectoryEvents.RenamePairMovesItems` | common/media-server-inotify.c:541-574 | end to end from the two events to the items of every plugin |
| `DirectoryEvents.RenamePairMovesWatches` | common/media-server-inotify.c:541-574 | end to end from the two events to the watch list |
| `DirectoryEvents.NamesStayDistinctIff` | common/media-server-inotify.c:490-667 | over whole runs: no two watches ever have the same name if and only if no arriving directory gives a watch a name that is taken |
| `TreeSync.InsideMoves` | common/media-server-inotify.c:92-160 | after a rename into a free place of a tree whose directories were all watched, a file's item is at the new path if and only if the file is present, listed there, and accepted at both paths |
| `TreeSync.SyncFollowsIff` | common/media-server-inotify.c:92-160 | after such a rename the watches are good and database and files are in step, with the same files under new paths, if and only if no file of the tree that is open is forgotten, and each one that is present and accepted by some plugin at its new path is listed there and was accepted by that plugin at its old path |
| `TreeSync.RenamePairKeepsSyncIff` | common/media-server-inotify.c:490-667 | end to end: a directory leaves, files change, the directory arrives; if database and files were in step at first they are at the end, under the same condition |
| `TreeSync.OneFileStaysIff` | common/media-server-inotify.c:92-160 | a rename of a directory with one file, between any two places apart from each other, meets what the theorem asks; in step afterwards if and only if the plugin does not accept the file only now |
| `TreeSync.ShorterName` | common/media-server-inotify.c:92-160 | one to a shorter name, after which they are in step |

## Left out

- Plugins, MIME detection, DRM, sockets, D-Bus, vconf, heynoti and bundle commit counts: foreign calls; only their answers appear, as parameters.
- `ms_inoti_add_watch_all_directory`: the same traversal as `Traversal.DirCheck` with another action per node; it would repeat the proof.
- The client library, start-up, the process check and the configuration files.
- `ms_refresh_item`: it changes what is known of an item, not which items there are; only whether it succeeds matters to the loop.
- The ignore-file list: whether a path is ignored is part of an answer; the list is not modelled.
- Decoding the inotify buffer: the model starts from decoded events.
- Unsynchronised access to the watch list from several threads: the list is sequential here; interleaving is modelled for `ms_register_file` and for the scan queue.
- Allocation failures, freeing and leaks, among them the list that `_ms_dir_scan` drops after freeing its first cell.
- Open directory descriptors and the stack: both are unbounded here, while each recursive call keeps its directory open (common/media-server-inotify.c:54, :87); a walk that does not end in the model ends in the program when they run out.
- Changes of the file system during a scan: only an early stop is modelled; each inotify event comes with the tree at its time.
- Updates of the same path by two threads inside the database: each operation over the plugins is one step.
- Traversal.ScanAddNode: allocates a path buffer one cell larger than the source does, because a path of 4096 characters is accepted and needs it; so do Traversal.CheckRoot and Traversal.PathOfNode.
- DirNode.GetFullPathFromNode: requires room for every path prefix it writes, which the source's own 4096 cells give except for a prefix of exactly 4096 characters; what a store beyond the buffer would do is not modelled.
- DirNode.JoinComponents: requires room for the same reason.
- PathBuffer.AppendInto: requires that the second terminator is inside the buffer; the callers use StrAppend, the text that is in the buffer afterwards.
- MediaDb.MediaService.RegisterFile: the registration proper; the answer MS_ERR_NOW_REGISTER_FILE and the reply to a waiter are those of Registration.Registrar.
- ExternalStorage.CardMonitor.VconfCallback: the default directories made and the watches added when a card is mounted are not part of this model.
- WatchList.InotiList.ModifyWatch: requires a first watch, as the source dereferences it unchecked.
- WatchList.InotiList.RemoveWatch: requires a first watch for the same reason.
- Rename.ScanRenamedFolder: requires a first watch for the same reason, and that its recursion ends.
- InotifyEvents.InotifyThread.Shutdown: requires a first watch for the same reason.
- RecursiveWalk.DirectoryScanAndRegister: requires that its recursion ends, which WalkEnds.EndsIff makes exact.
- WalkResults.RegisteredWholeTree: requires the same, and that plugin calls succeed.
- RenamePairs.RenameWalkPairsIff: requires that the walk over the new tree ends.
- RenamedTree.TreeItemsFollow: assumes the same and that its paths are paired, which RenamePairs.RenameWalkPairsIff makes exact, that the new root has at most 4094 characters, as every path that ms_strappend makes, that neither tree contains the other and that plugin calls succeed.
- RenamedTree.TreeWatchesFollow: assumes the same but for the plugin calls.
- MediaDb.MediaService.MovePath: a plugin call that fails leaves its table alone, and moving onto an existing path replaces it.
- FileSync.DatabaseFollowsEvents: covers events on files with plain names below watched directories with distinct names and descriptors; assumes that plugin calls succeed.
- DirectoryEvents.RenamePairMovesItems: between the two events of the rename no other directory may be moved, and the watch of the directory's descriptor must stay.
- DirectoryEvents.NamesStayDistinctIff: of an arriving directory it assumes what RenamedTree.TreeWatchesFollow does, in AllPlain.
- TreeSync.SyncFollowsIff: assumes what RenamePairs.TreeFitsPairs does, that neither tree contains the other, that plugin calls succeed, that both roots belong to a storage, that listed names have no '/', that all directories of the tree were watched, none of them by the first watch, and that no watch and no item is below the place it goes to.
- TreeSync.RenamePairKeepsSyncIff: assumes the same; between the two events there are only events on tracked files, which are harmless and do not make the loop forget.
- SchedulerRuns.TraceIsOrderly: a request whose connect fails is dropped, as in the source, and shows up as one ConnectFailed.
- Mirror.DatabaseMirrorsLastScanIff: assumes that plugin calls succeed and that the last scan was complete and carried out.
