# A verified model of fsNotifier and three companions

fsNotifier (`native/fsNotifier`) keeps a recursive inotify watch over a set of roots. Its state is a
forest of watch nodes, indexed by `wd % capacity` in a table without collision chains, a list of roots
whose id names a descriptor or means "missing", and one path buffer that a recursive walk shares with
its callers. This project models that state and every operation on it, and proves what holds over all
runs, whatever the kernel answers. Three smaller parts follow: the launcher's VM options, the
restarter's command line, and the ownership of SQLite callback contexts.

## How it is built

- The operating system is an oracle (`Posix.World`): for each path, what `opendir`, `inotify_add_watch`,
  `stat` and `realpath` answer. Every turn of the main loop, and every root within a turn, has its own
  oracle. All that is assumed of one: no empty path and none of `PATH_MAX` or more characters resolves,
  and a directory lists file names once each. Descriptors are arbitrary; nothing forbids that they collide
  in the table, and one directory may be reached by many paths.
- Watch nodes live in an explicit heap (`Inotify.nodes`, a map from addresses). `free` removes a node
  from it, so reading a freed node is an error Dafny has to exclude.
- `Walk`, `MainLoop` and `Runs` define each operation as a function from state to state; the theorems
  are lemmas about these functions. `Notifier.Notifier` is the program: the static variables are its
  fields, the path buffer and the table are arrays changed in place, and each method is proved to reach
  the state the function says. `Notifier.Notifier.Serve` is the whole program, from its main loop to its
  clean-up.
- Standard output is a character string in the class; its meaning is a sequence of records (`Protocol`).

| file | content |
|---|---|
| `Options`, `Posix`, `Paths`, `Protocol` | optional values, the oracle, path comparison, the output format and reading it back |
| `Watches`, `Walk`, `MainLoop` | the forest and its invariant; adding and walking; events and roots |
| `WalkGrowth`, `Rollback`, `Coverage`, `Failures`, `Descent`, `Exposure` | what a walk does: growth, roll-back, exactness, when it fails, termination, when it can come to a mount |
| `Runs`, `Leaks`, `MountExclusion`, `DirectoryDeletion`, `EventEffects` | what holds over runs and events |
| `Registration`, `RootReports`, `Replay` | what the client is told: unwatchable paths, roots, events |
| `Pruning`, `Collections`, `Notifier` | the imperative program |
| `Macros`, `VmOptions`, `Restarter`, `NativeDb` | the companions |

## Findings

- Every watch node is freed after any run, even if descriptors collide in the table. But a descriptor refused
  in a collision is never handed back, and the kernel keeps watching until the inotify descriptor is closed.
  `Leaks.NothingLeaksIff` gives the exact condition on the descriptors that the kernel may issue: every run ends
  without a leak if and only if no two of them are congruent modulo the capacity. `Leaks.CollisionLeaks` has the
  run for any two that are. For a single run, `Runs.ShutdownIsClean` says which descriptors are left.
- Deleting a directory removes the wrong subtree when a kid earlier in the array has a path that is a
  string prefix of the deleted one. `DirectoryDeletion.DeletionIsExactIff` gives the exact condition,
  `DirectoryDeletion.SiblingPrefixRun` a run from the start for any two such names, such as "b" and "bc".
- Registering roots can end with a mount watched in two cases, and only in them
  (`MountExclusion.UpdateRootsStaysOutsideIff`, over everything the kernel may answer). A recursive root with a
  trailing slash hides the mounts below it from the scan (`MountExclusion.TrailingSlashWatchesMount`: the root
  "/a/" and the mount "/a/m"); `read_input` strips one slash, so only a root typed with two comes to that. And
  `is_parent_path` sees nothing under the mount "/", so that an unwatchable root file system is watched
  (`MountExclusion.RootMountIsOverlooked`: the root "/a" and the mount "/").
- Walks started by events or by restored roots get no mount list. Mounts stay unwatched, whatever the kernel
  answers, exactly when none lies at, above or below the directory walked, as far as names and free slots
  allow to get there (`MountExclusion.EventStaysOutsideIff`, `MountExclusion.RestoredRootStaysOutsideIff`).
- All of this compares paths as text: "/a//" and "/a/." reach what lies under "/a/m" under another spelling,
  which is not under it here.
- The walk's mount check also stops at directories that lie under no mount, and they are not reported as
  unwatchable (`MountExclusion.PrefixSiblingIsSkipped`: the mount "/a/m" and the directory "/a/mx").
  `Coverage.WalkWatchesWantedIff` gives the exact condition.
- A mount whose name contains a newline, or a path "#", makes the list of unwatchable paths ambiguous
  (`Protocol.NewlineSplitsMount`); `Protocol.OutputReadsBackIff` says that nothing else does.
- A missing root's negative id is passed to the table as a key. The table maps it to a negative slot, or
  to slot 0 when the capacity divides it; the model has C's remainder, and all invariants hold either way.
- A "$" inside a substituted path can make the path's own text be expanded again, depending on the order of
  replacement (`Macros.DollarBreaksExpansion`). Not every "$" does: `Macros.ExpandIsSimultaneousIff` and
  `Macros.ExpandIgnoresOrderIff` give the exact conditions, `Macros.LinuxExpansionIff` what has to be
  checked. `Macros.ExpandLeavesNoMacroIff` says when a macro is left behind.

## Model

| member | source | states |
|---|---|---|
| Paths.AncestorsComparable | native/fsNotifier/util.c:185-189 | two ancestors of one path in the sense of `is_parent_path` are ancestors of one another, one way or the other |
| Paths.SiblingsDisjoint | native/fsNotifier/util.c:185-189 | nothing lies at or below two different children of a directory |
| Watches.TableGet | native/fsNotifier/util.c:136-159 | in a valid state a lookup finds only live nodes, in the slot of the key with C's remainder for negative keys |
| Watches.DropValid | native/fsNotifier/inotify.c:180-211 | freeing a node with its descendants and blanking its slot in the parent keeps the forest, its agreement with the table and the balance of issued and released descriptors; exactly the subtree goes |
| Pruning.RemoveIsExact | native/fsNotifier/inotify.c:180-211 | `rm_watch(wd, true)` frees exactly the node in the slot and the nodes that have it as an ancestor, clears exactly their slots, blanks one slot of the surviving parent and leaves every other node as it was |
| Pruning.RemoveReleasesOnce | native/fsNotifier/inotify.c:188-197 | each descriptor of the freed subtree goes to `inotify_rm_watch` exactly once, and no other does |
| Pruning.SubtreeIsKidTrees | native/fsNotifier/inotify.c:192-197 | the descendants by parent links, the reference for removal, are the node and the subtrees of its kids, which the recursion visits |
| Pruning.SiblingTreesDisjoint | native/fsNotifier/inotify.c:192-197 | the subtrees of different kids are disjoint and newer than their parent, so the recursion ends and frees nothing twice |
| Pruning.BlankInParent | native/fsNotifier/inotify.c:360-369 | removing a kid with `rm_watch(wd, false)` and blanking its index is removing it with `rm_watch(wd, true)` |
| Notifier.Notifier.RmWatch | native/fsNotifier/inotify.c:180-211 | the recursion, for both values of `update_parent` and with siblings freed already, frees the subtree by parent links and nothing else; no freed node is read |
| Notifier.Notifier.Unwatch | native/fsNotifier/inotify.c:326-328 | the state becomes that of removing the node in the slot, for any id, stale or negative ones included |
| Walk.AddWatch | native/fsNotifier/inotify.c:105-171 | keeps the invariant for any answer of the kernel: refusals, descriptors known under the same path, another path or colliding in the table |
| Notifier.Notifier.AddWatch | native/fsNotifier/inotify.c:105-171 | the code does that, reading the path from the shared buffer; result codes as in the source |
| Notifier.Notifier.NewNode | native/fsNotifier/inotify.c:149-170 | the put into the table never fails, because the slot was seen empty; the node is linked to its parent and holds the length of its path |
| Walk.WalkTree | native/fsNotifier/inotify.c:214-282 | a walk keeps the invariant whatever the kernel answers, roll-back included |
| WalkGrowth.WalkTreeGrows | native/fsNotifier/inotify.c:214-282 | unless it fails hard a walk only adds nodes and ends with the node of its root at the returned descriptor; an ignored directory changes nothing; no old node changes descriptor, path or parent; only the root's node can be a new node without parent, and none is left after a hard failure |
| WalkGrowth.WalkTreePlaces | native/fsNotifier/inotify.c:214-282 | every new node is at or below the walked path, has none of the mounts as string prefix, and its path is its parent's path, "/" and one file name |
| Rollback.WalkIsAllOrNothing | native/fsNotifier/inotify.c:237-245 | started with no live node at or below the path, at any depth: a hard failure restores nodes and table, but for one blank kid slot in the parent; an ignored directory changes nothing; a success adds exactly one tree and leaves all other nodes as they were |
| Rollback.EntriesAllOrNothing | native/fsNotifier/inotify.c:272-277 | inside a directory: a hard failure below leaves the forest without the directory's own subtree, otherwise nothing outside that subtree has changed |
| Rollback.WalkSpares | native/fsNotifier/inotify.c:214-282 | from any forest whose paths follow its links, with live nodes at or below the path or without: however a walk ends, every node elsewhere lives on with its descriptor, path and parent |
| Coverage.WalkCoversReachable | native/fsNotifier/inotify.c:214-282 | when no two directories reachable from the root share a slot with each other or with a node at another path, a walk that does not fail hard adds to the watched paths exactly those to which a chain of listed and admitted directories leads; other spellings of these paths may share their descriptors |
| Coverage.ReachableSplits | native/fsNotifier/inotify.c:249-272 | reachability by chains of names unfolds into the directory itself and what its followed entries reach |
| Coverage.WalkWatchesWantedIff | native/fsNotifier/inotify.c:215-221 | a walk that does not fail hard watches every reachable directory under no mount if and only if no mount is a string prefix of one of them not watched before |
| Failures.WalkFailsHardIff | native/fsNotifier/inotify.c:214-282 | on a forest consistent with the file system, a recursive walk fails hard if and only if it looks at a directory, past the mount check, whose opendir fails with another errno than EACCES, ENOENT and ENOTDIR, or that opens and is refused with another errno than EACCES and ENOENT; the first in the order of the walk decides between ERR_ABORT (refused, and not for ENOSPC) and ERR_CONTINUE; otherwise the answer is the root's descriptor or ERR_IGNORE |
| Failures.AddWatchAnswers | native/fsNotifier/inotify.c:105-178 | for any forest, each result of `add_watch` by the kernel's answer, the slot's node and the real paths; the limit is reported the first time it is met |
| Failures.LinksEndNoWalk | native/fsNotifier/inotify.c:132-145 | where several paths lead to one directory, cycles included, a walk that fails hard has met a directory that cannot be opened or watched, and answers accordingly |
| Failures.TypesDoNotMatter | native/fsNotifier/inotify.c:254-270 | where listings tell types truly, without links, a walk is the same as on the same file system telling no types |
| Descent.WalkEnds | native/fsNotifier/inotify.c:126-147 | for paths of any length and finitely many descriptors, links and cycles included: a budget of as many directories to list as there are descriptors not watched yet and live nodes at or below the root never runs out |
| Descent.BudgetedIsWalkTree | native/fsNotifier/inotify.c:214-282 | where paths resolve only below PATH_MAX, a walk on a budget that suffices has the state and result of `walk_tree` |
| Descent.NewListingIsPaid | native/fsNotifier/inotify.c:149-170 | listing a new directory uses up one unwatched descriptor |
| Descent.KnownListingIsPaid | native/fsNotifier/inotify.c:126-147 | listing a known directory uses up the live node at its own path; a descriptor known under another path is not descended into |
| Notifier.Notifier.WalkTree | native/fsNotifier/inotify.c:214-282 | the walk over the shared buffer reaches the state of the walk with the path passed by value, and gives the caller's prefix back unchanged; every write is inside the buffer |
| Notifier.Notifier.ReadDir | native/fsNotifier/inotify.c:247-281 | the loop over a directory, with roll-back and break, is the recursion over its entries; the prefix and its slash survive the calls below |
| Notifier.Notifier.ReadEntry | native/fsNotifier/inotify.c:251-272 | which entries are followed: not "." or "..", directories by type or, if the type is unknown, by `stat`; the path below is prefix, "/" and name |
| Notifier.Notifier.Watch | native/fsNotifier/inotify.c:285-323 | flat roots, trailing slash, result codes of `stat`, regular files and special files as in the source |
| Registration.WatchAnswers | native/fsNotifier/inotify.c:285-323 | which errno of `stat` gives which answer, what special files give, and what is walked, recursively or not |
| MainLoop.ProcessEvent | native/fsNotifier/inotify.c:331-372 | keeps the invariant for every event with one event bit; the event's node is live whenever it is used after the callback |
| Runs.EventNodeSurvives | native/fsNotifier/inotify.c:349-363 | an event that changes the tree leaves its own node in place during the callback |
| Runs.CallbackFreesRootNode | native/fsNotifier/main.c:361-363 | an event about a registered root itself frees the root's node before the callback returns, so the single event bit is what keeps the code after it safe |
| Notifier.Notifier.ProcessEvent | native/fsNotifier/inotify.c:331-372 | the code does what the function says, composing the path in the shared buffer |
| Notifier.Notifier.ComposePath | native/fsNotifier/inotify.c:340-347 | the buffer holds the node's path, or it, "/" and the event's name, inside its bounds |
| Notifier.Notifier.RemoveKid | native/fsNotifier/inotify.c:360-369 | the loop removes the first kid whose path is a string prefix of the event's path, if any |
| DirectoryDeletion.DeletionIsExactIff | native/fsNotifier/inotify.c:360-369 | exactly the nodes of the kids with the event's path go if and only if at most one kid has it and every kid whose path is a proper string prefix of it comes after one that has it |
| DirectoryDeletion.SiblingPrefixRun | native/fsNotifier/inotify.c:363 | for any directory and any two names of which one is a proper prefix of the other, a run from the start registers both as kids and, on the event that deletes the second, removes the first and keeps the second |
| DirectoryDeletion.SiblingPrefixExample | native/fsNotifier/inotify.c:363 | the run for `/a/b` and `/a/bc` |
| EventEffects.GoneDirectoryIff | native/fsNotifier/inotify.c:360-369 | when a directory is deleted or moved away, exactly the nodes of the kids with its path go if and only if no other kid can be mistaken for it |
| EventEffects.NewDirectoryIsCovered | native/fsNotifier/inotify.c:353-358 | when a directory is created or moved in, the watched paths grow by exactly those reachable from it unless the walk meets an obstacle, and the program ends if and only if the first obstacle gives ERR_ABORT |
| EventEffects.OtherEventsKeepForest | native/fsNotifier/inotify.c:331-372 | no other event ends the program, and none changes the forest unless a root is gone from its path |
| Notifier.Notifier.InotifyCallback | native/fsNotifier/main.c:347-367 | which reports an event causes, and when roots are checked for removal |
| Replay.EventTells | native/fsNotifier/main.c:347-367 | for any event with one bit about a watched object: an entry that comes is reported by CREATE and at once CHANGE, one that goes by DELETE, content by one CHANGE, attributes by one STATS, an object gone from its path by one DELETE for each present root there, nothing else; RESET is written if and only if a mount ends |
| Replay.RunReplays | native/fsNotifier/main.c:347-428 | over any run, replaying the output on a set of paths, where CREATE adds and DELETE removes, gives the set that the kernel's events and the polls of missing roots give |
| Replay.RunReadsBackIff | native/fsNotifier/main.c:347-428 | over any run, the text is read back as the output if and only if no unwatchable path breaks its list |
| Notifier.Notifier.ReportEvent | native/fsNotifier/main.c:369-390 | appends exactly the two lines of the report; the caller's buffer is not among what it may change |
| Notifier.Notifier.EscapeNewlines | native/fsNotifier/main.c:370-383 | the text written is the path with each newline turned into NUL, at the same length; without newlines the caller's buffer is used as it is |
| Protocol.ReportIsTwoLines | native/fsNotifier/main.c:381-384 | for a NUL-free path the report has exactly two newlines, after the tag and at its end |
| Protocol.OutputReadsBackIff | native/fsNotifier/main.c:231-235 | any output, reports about paths with newlines and all messages included, is recovered from the text if and only if no unwatchable path is "#" or contains a newline |
| Protocol.NewlineSplitsMount | native/fsNotifier/main.c:232-234 | a mount with a newline in its name is written like two mounts |
| MainLoop.RootRestored | native/fsNotifier/main.c:402-416 | re-attaching a missing root keeps the forest valid and the root list's length and paths |
| Notifier.Notifier.CheckRootRemoval | native/fsNotifier/main.c:418-428 | every present root with the path is unwatched, marked missing and reported, in order |
| Notifier.Notifier.CheckMissingRoots | native/fsNotifier/main.c:402-416 | every missing root that exists again is watched without mounts and reported, whatever the result of watching it |
| RootReports.RunTracks | native/fsNotifier/main.c:402-428 | over any run of events and timeouts the root list keeps its length and paths, and the notes about each root fit the sign of its id before and after |
| RootReports.TimeoutNotesIff | native/fsNotifier/main.c:402-416 | a timeout notes a root, and once, if and only if it was missing and exists again; it is then present if and only if the note says so; all others are left as they were |
| RootReports.EventNotesIff | native/fsNotifier/main.c:361-363 | an event notes a root as deleted, and marks it missing, if and only if it was present and the watched object at its path is gone from there |
| RootReports.RunNotesExactly | native/fsNotifier/main.c:402-428 | over any run of events and timeouts the notes about a root are exactly those of these turns |
| RootReports.RunIsReported | native/fsNotifier/main.c:347-428 | over any run, the reports in the output are those of the events and, for each note, its rendering: DELETE, or CREATE and CHANGE, with the root's path |
| RootReports.ReportsAlternateIff | native/fsNotifier/main.c:402-428 | the notes about a root, which `RunIsReported` ties to the output, start with DELETE if and only if it was present, and strictly alternate if and only if no failed re-watch comes before the last of them |
| MountExclusion.ScanIsExact | native/fsNotifier/main.c:270-285 | a root is skipped if and only if it lies under a mount, where only "/" itself and roots with two leading slashes count as under the mount "/"; otherwise exactly the mounts under a root without trailing slash are handed to the walk |
| MountExclusion.ChecksCover | native/fsNotifier/main.c:271-285 | a path below the root that passes the walk's prefix check lies under no mount, except possibly "/" |
| MountExclusion.UpdateRootsStaysOutsideIff | native/fsNotifier/main.c:205-242 | right after `update_roots`, over everything the kernel may answer and whether or not it succeeded, no watched path lies under an unwatchable mount if and only if no recursive, unskipped root ends with a slash and has a mount below it, to which plain names lead and the table has room, and no root can be watched if "/" is a mount |
| MountExclusion.HiddenMountIsReached | native/fsNotifier/main.c:270-290 | for each such root and mount some answers lead `update_roots` to watch the mount |
| MountExclusion.TrailingSlashWatchesMount | native/fsNotifier/main.c:273-284 | with the root "/a/" and the mount "/a/m", some answers make it watch "/a/m", for any capacity above 1 |
| MountExclusion.RootMountIsOverlooked | native/fsNotifier/util.c:185-189 | with the root "/a" and the mount "/", some answers make it watch "/a" |
| MountExclusion.WatchableRootIsReached | native/fsNotifier/main.c:290 | any root that is not skipped is watched for some answers |
| MountExclusion.PrefixSiblingIsSkipped | native/fsNotifier/inotify.c:217 | for any two names of which one is a proper prefix of the other, a mount with the first keeps the directory with the second unwatched, and it is not reported |
| MountExclusion.EventStaysOutsideIff | native/fsNotifier/inotify.c:353-354 | for any event, over everything the kernel may answer: mounts stay unwatched if and only if it is not about a new directory that lies at, above or below one, as far as plain names lead and the table has room |
| MountExclusion.RestoredRootStaysOutsideIff | native/fsNotifier/main.c:409 | the same for re-attaching a missing root |
| Exposure.WalkStaysOutsideIff | native/fsNotifier/inotify.c:214-282 | for a walk from any valid forest and any mount list: over everything the kernel may answer nothing it watches lies under a mount, "/" included, if and only if none is exposed, a condition on paths, mounts and free slots |
| Exposure.NewDirsHadRoom | native/fsNotifier/inotify.c:126-168 | the directories a walk adds had free slots, one for each |
| Exposure.WalkReaches | native/fsNotifier/inotify.c:214-282 | along names that no prefix check stops and the table has room for, some answers lead a walk to the end |
| Notifier.Notifier.CheckMounts | native/fsNotifier/main.c:270-285 | the loop over the mounts computes the scan, with its early break |
| Notifier.Notifier.RegisterRoots | native/fsNotifier/main.c:256-311 | the loop over the roots registers, skips or reports each as the function says, and stops at ERR_ABORT |
| Notifier.Notifier.UnregisterRoots | native/fsNotifier/main.c:245-253 | pops and unwatches the roots, last first |
| Notifier.Notifier.UpdateRoots | native/fsNotifier/main.c:205-242 | replaces the roots; the empty list, the single root "/" and an unreadable mount table as in the source |
| Registration.AnnouncedExactly | native/fsNotifier/main.c:205-311 | replacing roots succeeds if and only if no root tried is answered with ERR_ABORT; the list then announced has exactly the roots that a mount contains, the mounts inside a root up to the first that contains it, and the roots that could not be watched; the registered roots are exactly those watched or missing |
| Registration.NoRootIsLost | native/fsNotifier/main.c:256-311 | every absolute root is registered, listed, or answered with ERR_IGNORE |
| Registration.AnnouncedWithoutMounts | native/fsNotifier/main.c:210-224 | what is announced for no root and for the single root "/"; an unreadable mount table ends the program |
| Runs.RegisterRootKeeps | native/fsNotifier/main.c:256-311 | registering a root, with any outcome, keeps the whole invariant, ownership of parentless nodes included |
| Runs.ProcessEventKeeps | native/fsNotifier/inotify.c:331-372 | so does any event |
| Runs.CheckRootRemovalKeeps | native/fsNotifier/main.c:418-428 | so does removing roots, even when it takes nested roots' nodes along and leaves their ids stale |
| Runs.CheckMissingRootsKeeps | native/fsNotifier/main.c:402-416 | so does re-attaching roots, failed attempts included |
| Runs.UpdateRootsKeeps | native/fsNotifier/main.c:205-242 | so does replacing the root list |
| Runs.Run | native/fsNotifier/main.c:137-169 | every state reached by any sequence of root commands, events and timeouts satisfies the invariant: a forest that agrees with the table, balanced descriptors, paths below PATH_MAX that are one name below the parent's, every parentless node in the slot of a registered root's id |
| Runs.UnregisterEmpties | native/fsNotifier/main.c:245-253 | from any such state, unregistering the roots frees every node, empties the table and releases each descriptor as often as it was issued, but the strays once less |
| Runs.ShutdownIsClean | native/fsNotifier/main.c:76-95 | after any run from the start, for any descriptors and any failures, unregistering frees every watch node and empties the table, and every descriptor issued is released if and only if none is a stray: refused because another node had its slot, and without a node since |
| Walk.Stray | native/fsNotifier/inotify.c:128-131 | refusing a descriptor whose slot another node has keeps the invariant |
| Leaks.NothingLeaksIff | native/fsNotifier/inotify.c:126-131 | if the kernel may issue the descriptors of a set, every run ends with all of them released if and only if no two share a slot |
| Leaks.NothingLeaksWhenApart | native/fsNotifier/inotify.c:126-131 | if the descriptors issued in a run are distinct modulo the capacity, all are released |
| Leaks.CollisionLeaks | native/fsNotifier/inotify.c:128-131 | for any two descriptors that share a slot, any root and any name below it there is a run after whose clean-up the kernel still holds one of them |
| Notifier.Notifier.constructor | native/fsNotifier/main.c:77-79 | a new object is in the state in which the runs start |
| Notifier.Notifier.Serve | native/fsNotifier/main.c:78-95 | the program does this: its state after the main loop and the clean-up is that of the run, with no node, no root and an empty table left, and all descriptors released if and only if there is no stray |
| Collections.GrowArray.Push | native/fsNotifier/util.c:18-59 | appends the element; reallocations so far moved fewer than two elements for each one appended |
| Collections.GrowArray.Pop | native/fsNotifier/util.c:61-68 | takes the last element off, or answers null on an empty array |
| Collections.GrowArray.Put | native/fsNotifier/util.c:70-77 | replaces an element inside the size, extends the array inside the capacity, and does nothing elsewhere |
| Collections.GrowArray.Get | native/fsNotifier/util.c:79-86 | answers null outside the size |
| Collections.TableRefinesMap | native/fsNotifier/util.c:136-159 | while the keys in use are distinct modulo the capacity the table is a finite map; a put over a live entry changes nothing |
| Collections.TableClash | native/fsNotifier/util.c:140-159 | a key that shares a slot never overwrites the entry there, but a lookup finds it |
| Macros.ReplaceThenSimultaneous | native/XPlatLauncher/src/default.rs:72-75 | if no value can produce a macro replaced later, replacing one macro throughout and then the others at once is replacing all at once |
| Macros.LinuxExpansion | native/XPlatLauncher/src/default.rs:22-34 | with the Linux macros and absolute, dollar-free paths, the three replacements are one left-to-right simultaneous substitution, in any order, and leave no macro |
| Macros.ExpandIsSimultaneousIff | native/XPlatLauncher/src/default.rs:72-75 | for absolute paths: sequential replacement is simultaneous substitution on all texts if and only if no value contains, or ends with the start of, the name of a macro replaced later |
| Macros.ExpandIgnoresOrderIff | native/XPlatLauncher/src/default.rs:72-75 | the order does not matter on any text if and only if this holds for any two macros, both ways |
| Macros.ExpandLeavesNoMacroIff | native/XPlatLauncher/src/default.rs:72-75 | no macro is left behind on any text if and only if no value can produce its own macro or one replaced before |
| Macros.LinuxExpansionIff | native/XPlatLauncher/src/default.rs:22-34 | for the Linux macros, the three comparisons that decide whether replacing is simultaneous, and the six that decide whether a macro can be left |
| Macros.DollarBreaksExpansion | native/XPlatLauncher/src/default.rs:69-76 | with the home directory `/$IDE_HOME`, the replacements in the code's order differ from those in another order and from substituting at once |
| VmOptions.ReadVmOptions | native/XPlatLauncher/src/default.rs:317-334 | the first undecodable line fails, the first option with a NUL voids the file, otherwise the trimmed options come in order without comments and blank lines |
| VmOptions.TrimTakesSpace | native/XPlatLauncher/src/default.rs:322 | trimming takes the white space at both ends, all of it and nothing else |
| VmOptions.OptionsAreLines | native/XPlatLauncher/src/default.rs:321-330 | the options of a file are its trimmed lines that are neither empty nor comments |
| VmOptions.OverridesIff | native/XPlatLauncher/src/default.rs:263-274 | a line sets at most one thing; a collector overrides a collector, a percentage the size it replaces, and nothing else overrides anything |
| VmOptions.FiltersOf | native/XPlatLauncher/src/default.rs:263-274 | the filters catch exactly the lines some user line overrides |
| VmOptions.CollectVmOptionsFromFiles | native/XPlatLauncher/src/default.rs:244-284 | surviving distribution options, user options and the file properties, in this order, or the error cases |
| VmOptions.GetVmOptions | native/XPlatLauncher/src/default.rs:53-81 | error files, options from files and product options, all expanded, and the launcher's own option last |
| VmOptions.AssemblingFailsIff | native/XPlatLauncher/src/default.rs:244-284 | assembling fails if and only if the distribution's file cannot be read or has an option with a NUL, or the user has a file that cannot be read; what the user's layer and the file properties are otherwise |
| VmOptions.DroppedIff | native/XPlatLauncher/src/default.rs:263-275 | a distribution option is dropped if and only if a user GC or RAM-percentage line overrides it, and otherwise occurs as often as before |
| VmOptions.SurvivingKeepsOrder | native/XPlatLauncher/src/default.rs:275 | filtering keeps the order of the distribution options |
| VmOptions.LaterLayersWin | native/XPlatLauncher/src/default.rs:53-81 | under last-occurrence-wins, for any notion of what an option sets: launcher, product, file properties, user, surviving distribution, error files |
| VmOptions.OptionsAreFullyExpanded | native/XPlatLauncher/src/default.rs:69-78 | every option but the last is a layer's option with all macros substituted at once, in order, with none left |
| VmOptions.LinuxOptionsAreFullyExpanded | native/XPlatLauncher/src/default.rs:56-78 | so on Linux for absolute, dollar-free paths; the first two options are the expanded crash-file options |
| Restarter.ParseCommands | native/restarter/src/main.rs:43-53 | the loop decodes the commands, or fails, or panics when the index sum does not fit |
| Restarter.DecodesExactlyTilings | native/restarter/src/main.rs:43-53 | decoding succeeds exactly when the arguments are the commands one after another, each behind a header that parses to its length |
| Restarter.DecodeInvertsEncode | native/restarter/src/main.rs:43-53 | any list of non-empty commands, encoded with decimal lengths, is decoded to itself |
| Restarter.DecimalParses | native/restarter/src/main.rs:46 | a decimal numeral below 2^64 parses to its value |
| Restarter.SignedDecimalParses | native/restarter/src/main.rs:38 | a numeral, signed or not, parses to its value if that fits 32 bits, and not otherwise |
| Restarter.OnlyNumeralsParse | native/restarter/src/main.rs:38 | nothing else parses |
| Restarter.ProcessArgs | native/restarter/src/main.rs:37-68 | nothing happens unless the whole line parses; then the wait, all commands but the last in order, and the last exec-ed, up to the first that cannot be started |
| NativeDb.ApplyValid | native/sqlite/sqlite/NativeDB.c:211-223 | every listener operation keeps: what SQLite can call back with is what the Java field stores, the live contexts are exactly those stored, and a freed one never returns |
| NativeDb.ContextsAreOwned | native/sqlite/sqlite/NativeDB.c:1272-1310 | over any run every registered context is live and the one its field stores, a freed one is never live, stored or registered again, and none remains after close |
| NativeDb.RegisteredIff | native/sqlite/sqlite/NativeDB.c:372-402 | over any run from a closed connection, a callback is registered if and only if the connection is open and the last operation about it since opening enabled it; a busy timeout counts as disabling the busy handler |
| NativeDb.EnablingRegisters | native/sqlite/sqlite/NativeDB.c:1225-1291 | enabling registers, for exactly the callbacks of the operation, a context newer than all before, stores it, frees the one stored before and changes nothing else |
| NativeDb.DisablingUnregisters | native/sqlite/sqlite/NativeDB.c:1225-1291 | disabling unregisters exactly these callbacks, frees their context and changes nothing else |
| NativeDb.TimeoutKeepsContext | native/sqlite/sqlite/NativeDB.c:347-358 | a busy timeout unregisters the busy handler only, and its context stays stored; on a closed connection the checked operations do nothing |
| NativeDb.NativeDB.SetNewHandler | native/sqlite/sqlite/NativeDB.c:211-223 | the old context is freed only if SQLite no longer holds it, then the new one is stored |
| NativeDb.NativeDB.ChangeBusyHandler | native/sqlite/sqlite/NativeDB.c:372-402 | the code registers first and frees then; without an open connection nothing changes |
| NativeDb.NativeDB.ChangeUpdateListener | native/sqlite/sqlite/NativeDB.c:1225-1241 | the same for the update hook |
| NativeDb.NativeDB.ChangeCommitListener | native/sqlite/sqlite/NativeDB.c:1272-1291 | the same for the commit and rollback hooks, which share one context |
| NativeDb.NativeDB.CloseDb | native/sqlite/sqlite/NativeDB.c:1293-1310 | after close no context is live, stored or registered |

## Left out

- Watch nodes are records in an explicit heap, not Dafny objects, because `free` has to have a meaning; an address is never reused, which `malloc` may do, so identity of a new node with a freed one's address is not modelled.
- A node's array of kids is a sequence in the heap; that the growable array refines a sequence is proved separately in `Collections`.
- Each operation sees one answer per path; a file system that answers differently about the same path within one operation is not modelled.
- Descriptors that the kernel drops by itself, when their directory is deleted, count as issued until the program releases them.
- Lists the source allocates and does not always free (native/fsNotifier/main.c:222-229, native/fsNotifier/main.c:286-288): sequences have no lifetime here.
- Failed allocations, system calls, `select`, sleeps, log lines, self-test mode, option parsing, and reading the mount table.
- `read_input`: the command syntax; a root command enters the model as its list of roots.
- `process_inotify_input`: the layout of the event buffer and the events it skips (`IN_IGNORED`, `IN_Q_OVERFLOW`).
- Events with several event bits at once, or directory events without a name: the kernel sends none.
- C's integer width: descriptors and sizes are unbounded, since none is computed beyond a remainder and an increment.
- Macros: the Windows and macOS constants, which need a different argument, and relative paths.
- VmOptions: finding the user's file and decoding its bytes; both enter as their results.
- Restarter: the wait itself, the commands' output, and the Windows variant.
- NativeDb: everything but the callback contexts.
- NativeDb.NativeDB.ChangeUpdateListener: on an open connection only; the code does not check for one, and what SQLite does with the null handle is its own matter.
- NativeDb.NativeDB.ChangeCommitListener: on an open connection only, for the same reason.
