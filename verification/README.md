# fusefs, verified

A Dafny model of the stateful parts of `fusefs`, the Go adapter that serves any `absfs.FileSystem`
over FUSE, with proofs about every run of each part: the lock manager, the LRU caches, the inode
manager, the handle tracker, the handlers that combine them, and the attribute-name encoder.

    dafny verify dfyconfig.toml

## How the model is laid out

Each component appears twice: as a class whose methods do what the Go methods do, loops and
in-place updates included, and as a value with one function for each transition. The methods are
proved equal to the functions, and the theorems are about the functions and sequences of them.
In the original a mutex makes every method of a component atomic, so any interleaving of
concurrent callers is such a sequence. The FUSE handlers hold no lock of their own; a handler is
one sequential step here.

| files | original | content |
|---|---|---|
| `LockSpec`, `LockManager` | `locks.go` | lock table as a value; the manager with its two maps |
| `LockFacts`, `LockAlgebra`, `LockRuns` | `locks.go` | bytes held, invariant; laws between calls; whole runs |
| `LinkedList`, `LruSpec`, `LruCache` | `cache.go` | the ring list; the cache as a value; the cache over map and list |
| `LruRuns`, `LruInclusion` | `cache.go` | what hits return and how long entries stay; larger against smaller caches |
| `InodeSpec`, `InodeManager`, `InodeRuns` | `inode.go` | numbers as a value; the manager and its caches; identity over runs |
| `HandleSpec`, `HandleTracker` | `handles.go` | handles as a value; the tracker with its entries |
| `BackingFs`, `AdapterSpec`, `Adapter` | `operations.go`, `mount.go` | the file system behind the adapter; handlers as steps; the adapter |
| `Coherence`, `Numbering` | `operations.go` | cached listings against the tree and against the live inode numbers |
| `Attributes`, `Listings` | `operations.go` | what the attribute and directory caches answer, over runs of the adapter |
| `Outcomes` | `operations.go` | when calls succeed, what they do to the tree, and what the calls after them see |
| `Conservation`, `HandlerFacts` | `operations.go`, `handles.go` | open files; what handles stand for |
| `HandleLocks` | `operations.go`, `locks.go` | locks taken through handles, over runs of the adapter |
| `Xattr` | `xattr.go` | two-pass encoder and its inverse |

Conventions:

- A cleaned path is the list of its names and `path.Join(dir, name)` appends a name, as it does for
  the plain names a kernel sends.
- The clock, failures of the backing file system, the metadata it reports, the order of a listing,
  the error of closing a file and the result of unmounting the server are parameters. `EBackend`
  stands for whatever `mapError` makes of a backing error.
- The backing file system is a tree of names with file or directory kinds. It refuses to remove a
  non-empty directory and to rename a file onto a directory or a directory onto anything but an
  empty one, and its listings have every child once (`AdapterSpec.Honest`). It counts how often
  every opened file has been closed.
- Inode and handle numbers are natural numbers; lock ranges, owners and types keep their widths.
  Lock type and flag constants are those of Linux.

## What the code does differently from its comments

- `locks.go` announces deadlock prevention; there is none (`LockRuns.DeadlockExample`). A refused
  request is refused until another owner unlocks on the path or is released
  (`LockRuns.RefusedStaysRefused`), so owners that only retry wait for ever
  (`LockRuns.DeadlockLasts`). `Setlkw` does not wait.
- The "whole file" case of `rangesOverlap` replaces a value by itself.
- `Setlk` never merges or replaces the owner's own ranges, so one owner may hold a byte in both
  modes, and a read lock taken over one's own write lock is no downgrade
  (`LockRuns.DowngradeHasNoEffect`). `LockFacts.OneModeIff` and `LockFacts.StepOneModeIff` say
  exactly when a byte keeps one mode.
- Ends are exclusive, so the last byte is never covered (`LockFacts.LockableIff`).
- Grants do not quite follow the bytes held. An empty request inside another owner's range is
  refused although it asks for no byte (`LockRuns.EmptyRequestRefused`), and an empty lock, once
  granted, refuses other owners' requests around it although it covers no byte
  (`LockRuns.EmptyLockRefuses`). `LockFacts.DecidedByBytesIff` says exactly when the bytes decide.
- `NewInodeManager` says numbers start at 1; the first number issued is 2
  (`Numbering.LookupRenumbersExample`), and none is ever below it (`InodeRuns.AlwaysGood`).
- Renaming a directory invalidates the two parents only, so cached listings inside the moved
  subtree survive. `Coherence.RenameCoherentIff` says exactly when that leaves a stale listing and
  `Coherence.DirectoryRenameExample` is a run that shows one. Opening a missing file with the create
  flag has the same effect on its directory (`Coherence.OpenCoherentIff`, `Coherence.OpenCreateExample`).
- `Lookup`, and `Getattr` and `Setattr` when the attribute cache misses, renumber a file that has
  changed but leave its directory's cached listing alone, which then answers the retired number
  (`Numbering.LookupRenumbersExample`, `Numbering.GetattrRenumbersExample`).
  `Numbering.StepNumbersIff` says exactly when that happens.
- `Setattr` means to answer the updated attributes, but answers the cached ones when there are any
  (`Attributes.SetattrAnswersOldExample`, `Attributes.SetattrUpdatedIff`).
- `Link` means to share the target's number; numbers belong to paths, so it never does
  (`Numbering.LinkSharesNoNumber`).
- A second `Unmount` changes nothing (`Conservation.UnmountIsFinal`), but it asks the server again
  and answers what the server answers, so it need not succeed.
- Closing a handle means to release the locks taken through it, but releases those whose owner
  number equals the handle number, and lock requests carry an owner of their own. A lock may
  outlive its handle (`HandleLocks.LockOutlivesHandleExample`) and another handle's close may free
  it (`HandleLocks.OtherHandleFreesExample`); `HandleLocks.CloseFreesItsLocksIff` says exactly when
  the right bytes are freed. Unmount frees none (`HandleLocks.LocksOutliveUnmount`).

## Model

| member | source | states |
|---|---|---|
| LockSpec.FirstConflict | locks.go:104-115 | there is a conflict reported exactly when some stored lock of another owner overlaps and one of the two is a write lock |
| LockManager.LockManager.Getlk | locks.go:57-92 | the request structure becomes the probe answer characterised by GetlkIsOracle and GetlkKeepsRequest; the table is untouched |
| LockManager.LockManager.Setlk | locks.go:95-128 | the outcome characterised byte by byte by GrantAddsBytes, UnlockRemovesBytes and RefusalChangesNothing; flocks untouched, invariant kept |
| LockManager.LockManager.Setlkw | locks.go:132-136 | the same as Setlk |
| LockManager.LockManager.UnlockPosix | locks.go:139-189 | the rebuilt list is the old one with every lock cut, and the key goes when it is empty |
| LockManager.LockManager.Flock | locks.go:192-269 | the outcome characterised by FlockByFlags for the raw flags; byte locks untouched, invariant kept |
| LockManager.LockManager.AcquireFlock | locks.go:207-268 | new lock, relock, upgrade, downgrade, join and both refusals |
| LockManager.LockManager.FlockUnlock | locks.go:272-287 | the owner leaves, and the entry goes with the last owner |
| LockManager.LockManager.ReleaseOwner | locks.go:290-316 | both tables lose exactly that owner on every path, and empty entries go |
| LockFacts.SharedByteIff | locks.go:319-329 | two ranges share a byte exactly when they overlap and neither is empty |
| LockFacts.GrantAddsBytes | locks.go:117-127 | a granted request adds exactly its bytes, in its mode, for its owner |
| LockFacts.UnlockRemovesBytes | locks.go:145-186 | unlocking removes exactly that owner's bytes of the range, in any mode, for any range |
| LockFacts.LockableIff | locks.go:43-43 | a byte can be asked for exactly when it is not the last of the 64-bit range |
| LockFacts.ReleaseRemovesBytes | locks.go:302-315 | releasing owners removes exactly their bytes on every path |
| LockFacts.CutAllHeld | locks.go:147-180 | the split cases lose no byte outside the range and keep none inside |
| LockFacts.ApplyKeepsGood | locks.go:95-316 | every step keeps: no empty list or owner set, no stored unlock type, no conflicting overlap, one owner when exclusive |
| LockFacts.GetlkIsOracle | locks.go:57-128 | Getlk answers unlocked exactly when Setlk would succeed, except for unlock probes over a conflict; otherwise it reports the first conflicting lock |
| LockFacts.GetlkKeepsRequest | locks.go:62-91 | with no lock in the way the probe answers the request with its start, end and process, only the type changed |
| LockFacts.DecidedByBytesIff | locks.go:103-128 | for every table and request: granted exactly when no other owner holds a conflicting byte, if and only if, whenever a stored lock is in the way, the request is non-empty and so is some stored lock in its way |
| LockFacts.OneModeIff | locks.go:117-127 | after a granted request its owner holds a byte of the range in one mode only exactly when it held it in no other mode before |
| LockFacts.StepOneModeIff | locks.go:95-316 | every step keeps one mode for every owner and byte exactly unless it is granted a lock over bytes its owner holds in another mode |
| LockFacts.GrantOnlyRestricts | locks.go:103-127 | after a granted request any other request is granted exactly when it was before and does not conflict with the new lock |
| LockFacts.RefusalChangesNothing | locks.go:104-115 | a refused request, flock upgrades included, leaves the table unchanged |
| LockFacts.FlockGrantedIff | locks.go:207-268 | a flock is granted exactly when every other owner's flock and the request are shared |
| LockFacts.FlockStanding | locks.go:192-287 | what one flock call does to every owner's mode on every path |
| LockFacts.FlockByFlags | locks.go:192-269 | over the bits of the flags: 8 lets go, 2 asks for exclusive and its absence for shared, granted and held exactly when every other owner's flock and this one are shared, 4 chooses the error of a refusal, which changes nothing; other owners and paths are untouched |
| LockAlgebra.LockThenUnlockRestoresIff | locks.go:117-189 | lock then unlock gives the same table back exactly when the range is non-empty and overlaps none of the owner's locks |
| LockAlgebra.UnlockIdempotent | locks.go:139-189 | a second unlock of any range changes nothing |
| LockAlgebra.UnlocksCommute | locks.go:139-189 | unlocks commute on the stored lists, order included, on different paths, for different owners and for swappable ranges, which all non-inverted ones are |
| LockAlgebra.UnlocksCommuteIff | locks.go:139-189 | and for no other ranges: the table with one lock over everything tells the two orders apart exactly when the ranges are not swappable |
| LockAlgebra.UnlocksCommuteOnBytes | locks.go:139-189 | any two unlocks commute on the bytes held |
| LockAlgebra.ReleaseEachIsSet | locks.go:290-316 | releasing owners one by one depends only on which are released |
| LockAlgebra.DrainedIff | locks.go:290-316 | the tables are empty afterwards exactly when every owner that appeared was released |
| LockRuns.AlwaysGood | locks.go:49-316 | the invariant holds after every run |
| LockRuns.HeldIffGranted | locks.go:95-189 | an owner holds a byte in a mode exactly when the history of requests and answers granted it and nothing later gave it up |
| LockRuns.MutualExclusion | locks.go:103-127 | in every run two owners of one byte both hold it without write mode |
| LockRuns.GrantedIffNoConflictingByte | locks.go:103-128 | in every run a request is granted exactly when no other owner holds a conflicting byte, exactly under the condition of DecidedByBytesIff; a non-empty request is safe as long as no other owner asked for an empty lock of the path |
| LockRuns.StoredFromGrant | locks.go:118-180 | every stored lock, hence every lock Getlk reports, is what is left of one granted request: owner, type, process and within its range, and empty only if the request was |
| LockRuns.StoredInGrantOrder | locks.go:126-180 | in every run the locks of a path are stored in the order of the grants they are left of |
| LockRuns.GetlkReportsEarliest | locks.go:69-88 | so Getlk reports what is left of the earliest granted lock still in the way |
| LockRuns.EmptyRequestRefused | locks.go:328-328 | an empty request inside another owner's range is refused |
| LockRuns.EmptyLockRefuses | locks.go:118-127 | an empty lock is granted and then refuses another owner's request although nobody holds a byte |
| LockRuns.DowngradeHasNoEffect | locks.go:117-127 | a read lock over one's own write lock leaves the byte held in both modes and other owners' read requests refused |
| LockRuns.RefusedStaysRefused | locks.go:103-115 | in every run a refused request is refused again as long as no other owner unlocks on the path or is released |
| LockRuns.DeadlockLasts | locks.go:18-18 | a group of refused owners that only retry is refused for ever |
| LockRuns.DeadlockExample | locks.go:103-128 | two owners that each hold what the other asks for are both refused, however often they retry |
| LockRuns.FlockIffGranted | locks.go:192-300 | an owner holds a path in a mode exactly when its latest granted request there had that mode and it has not let go since |
| LockRuns.FlockExclusion | locks.go:248-268 | in every run two owners of one path both hold it shared |
| LinkedList.List.PushFront | cache.go:94-94 | the ring gains a first element and stays linked both ways |
| LinkedList.List.Remove | cache.go:164-164 | the ring loses exactly that element and stays linked |
| LinkedList.List.MoveToFront | cache.go:69-69 | the element comes first, the others keep their order |
| LinkedList.List.Back | cache.go:152-155 | the last element, null exactly when the list is empty |
| LruCache.LruCache.Get | cache.go:49-72 | entries, counters and result are those of the recency-sequence operation |
| LruCache.LruCache.Put | cache.go:75-101 | update in place or insert with eviction, as the recency-sequence operation |
| LruCache.LruCache.Push | cache.go:88-95 | a new entry comes first in list and map |
| LruCache.LruCache.EvictOldest | cache.go:151-160 | the last entry goes and is counted |
| LruCache.LruCache.Remove | cache.go:163-166 | the key leaves list and map together |
| LruCache.LruCache.MoveToFront | cache.go:68-69 | the key's entry comes first, map and list stay in bijection |
| LruCache.LruCache.Delete | cache.go:104-111 | the key's entry goes, others keep order and age |
| LruCache.LruCache.Clear | cache.go:114-120 | no entries, counters kept |
| LruCache.LruCache.Len | cache.go:123-127 | the number of entries |
| LruCache.LruCache.ValidIsGood | cache.go:17-26 | the representation invariant of map, list and entries gives distinct keys and the size bound |
| LruSpec.GetKeepsGood | cache.go:49-72 | keys stay distinct and the size bound holds after Get |
| LruSpec.PutKeepsGood | cache.go:75-101 | keys stay distinct and the size bound holds after Put |
| LruRuns.AlwaysGood | cache.go:49-120 | distinct keys and size bound in every run |
| LruRuns.ResidentIsLastPut | cache.go:75-101 | every resident entry carries value and time of the last Put of its key, with no Delete or Clear since |
| LruRuns.HitReturnsLastPut | cache.go:49-72 | a hit returns the last value put, no older than the TTL; hits do not refresh age |
| LruRuns.UnlimitedIsExact | cache.go:35-72 | without a size limit, Get answers exactly what the calls determine; with no TTL the cache is a plain map |
| LruRuns.CountersAddUp | cache.go:55-70 | every Get is counted once, as hit or miss |
| LruRuns.CountersExact | cache.go:55-101 | in every run hits are the answered Gets, misses the unanswered ones, expired entries included, and evictions the Puts of a new key into a full cache |
| LruRuns.EntriesConserved | cache.go:75-166 | entries put in are present, taken out or counted as evictions |
| LruRuns.StaysResident | cache.go:68-100 | after a Put or hit a key stays until Delete, Clear, expiry or maxSize other keys put or hit |
| LruRuns.ResidentIff | cache.go:68-100 | the bound is exact when nothing else removes entries |
| LruInclusion.LargerIncludesSmaller | cache.go:49-166 | on every run the smaller cache's entries are a subsequence of the larger's, the gap is bounded and hits are no fewer |
| LruInclusion.LargerAnswersMore | cache.go:49-72 | whatever the smaller cache answers the larger answers too |
| InodeManager.InodeManager.GetInode | inode.go:74-98 | the number and maps whose history InodeRuns characterises; caches untouched, invariant kept |
| InodeManager.InodeManager.IsSameFile | inode.go:101-112 | equal recorded modification time and size |
| InodeManager.InodeManager.StoreMeta | inode.go:115-123 | records the observation |
| InodeManager.InodeManager.DeleteMeta | inode.go:126-131 | forgets the observation |
| InodeManager.InodeManager.GetCached | inode.go:134-142 | an attribute-cache Get, which answers the very structure that was cached |
| InodeManager.InodeManager.Cache | inode.go:145-151 | an attribute-cache Put of the reply's own structure |
| InodeManager.InodeManager.CacheDir | inode.go:154-160 | a directory-cache Put |
| InodeManager.InodeManager.GetDirCache | inode.go:163-171 | a directory-cache Get |
| InodeManager.InodeManager.InvalidateDir | inode.go:174-176 | a directory-cache Delete |
| InodeManager.InodeManager.InvalidateAttr | inode.go:179-181 | an attribute-cache Delete |
| InodeManager.InodeManager.Clear | inode.go:184-196 | maps and caches are emptied, the counter is kept |
| InodeSpec.GetInodeKeepsGood | inode.go:74-98 | path and number maps stay inverse, observations exactly for live numbers, numbers within 2 and the counter |
| InodeRuns.AlwaysGood | inode.go:74-196 | map consistency in every run |
| InodeRuns.AlwaysRemembers | inode.go:74-196 | the live numbers are exactly those of the latest issue of each path since the last Clear |
| InodeRuns.SameNumberIff | inode.go:74-131 | two calls return one number exactly when they are for one path and nothing between cleared or saw another time or size |
| InodeRuns.NumberNamesOneFile | inode.go:74-98 | a number never names two paths or two observations |
| InodeRuns.RetiredNumberStaysRetired | inode.go:84-91 | a retired number is never issued again, not even after Clear |
| InodeRuns.LiveNumberIsLargest | inode.go:89-95 | the live number of a path is the largest ever issued for it |
| HandleTracker.HandleTracker.Add | handles.go:44-58 | a fresh number stands for the file, its entry has the flags and path given, and the other entries stay |
| HandleTracker.HandleTracker.Get | handles.go:61-71 | the file behind a live handle, nothing otherwise |
| HandleTracker.HandleTracker.GetEntry | handles.go:74-79 | the entry of a live handle with its file, flags and path, null otherwise |
| HandleTracker.HandleTracker.Release | handles.go:82-101 | closes the file once and forgets the handle, or reports a bad handle and changes nothing |
| HandleTracker.HandleTracker.CloseAll | handles.go:104-112 | every live file is closed once, no handle is left, the counter is kept |
| HandleTracker.HandleTracker.Count | handles.go:115-120 | the number of live handles |
| Adapter.FuseFS.NewFuseFS | fuse.go:125-146 | a new adapter has no inodes, handles or locks and both caches empty, with the sizes and lifetimes asked for |
| Adapter.FuseFS.Lookup | operations.go:15-59 | numbers an existing child and touches nothing else; a refusal changes nothing |
| Adapter.FuseFS.Getattr | operations.go:62-94 | copies the cached structure into the reply, or numbers the path, fills the reply and caches the reply itself; a refusal leaves the reply alone |
| Adapter.FuseFS.Setattr | operations.go:519-566 | refuses, or does what Getattr does |
| Adapter.FuseFS.Readdir | operations.go:273-322 | answers the cached listing when there is one, else builds, numbers and caches the listing the backing file system reports; the directory it opens is closed on every way out |
| Adapter.FuseFS.EnterAll | operations.go:301-316 | the loop's entries and inodes are those of the transition |
| Adapter.FuseFS.Create | operations.go:325-386 | the outcome characterised by RefusedIff, CreatedIffStat and TreeEffect: opens, invalidates the parent, numbers the path and hands out a handle for the opened file with its flags and path; when Stat fails the file is closed and no handle is handed out |
| Adapter.FuseFS.Mkdir | operations.go:389-437 | on success the parent is invalidated before Stat may fail and the path is numbered; a refusal by the file system changes nothing |
| Adapter.FuseFS.Unlink | operations.go:440-461 | removes the path and invalidates the parent, or changes nothing; TreeEffect and RemovedIsGone say what that means |
| Adapter.FuseFS.Rmdir | operations.go:464-485 | removes the path and invalidates the parent, or changes nothing; TreeEffect and RemovedIsGone say what that means |
| Adapter.FuseFS.Rename | operations.go:488-516 | moves the path and invalidates both parents and nothing else, or changes nothing |
| Adapter.FuseFS.Link | operations.go:664-726 | as Mkdir for a second name of a file, with the two early refusals |
| Adapter.FuseFS.Open | operations.go:97-124 | opens and hands out a handle for that file with its flags and path, without touching the directory cache |
| Adapter.FuseFS.Getlk | locks.go:332-337 | a copy of the request becomes the probe answer for the node's path, characterised by LockAnswers |
| Adapter.FuseFS.Setlk | locks.go:340-344 | the lock manager's Setlk on the node's path, even when unmounting |
| Adapter.FuseFS.Setlkw | locks.go:347-351 | the same as Setlk |
| Adapter.FuseFS.Flock | locks.go:354-358 | the lock manager's Flock on the node's path, even when unmounting, characterised by FlockAnswers |
| Adapter.FuseFS.Release | operations.go:193-201 | frees the locks of the owner with the handle number, then closes and forgets the handle once |
| Adapter.FuseFS.Unmount | mount.go:128-144 | from then on every handler but lock requests and Release refuses, every live file has been closed once, inodes, attributes and listings are forgotten but not their counters, and the server's result is answered |
| Coherence.ReaddirCoherent | operations.go:273-322 | an answered listing is current, and the cache stays coherent |
| Coherence.OpenCoherentIff | operations.go:97-124 | opening keeps the cache coherent exactly unless it creates a file in a cached directory |
| Coherence.RenameCoherentIff | operations.go:488-516 | a rename keeps the cache coherent exactly unless it carries off a cached listing with children |
| Coherence.RenamedListing | operations.go:504-513 | which cached listings a rename makes stale |
| Coherence.StepCoherentIff | operations.go:15-726 | every modelled handler keeps the cache coherent exactly when its call is harmless |
| Coherence.RunsStayCoherent | operations.go:15-726 | the cache is coherent after every run of harmless calls, whatever was evicted or expired |
| Coherence.ReaddirIsCurrent | operations.go:280-321 | after such a run an answered Readdir lists exactly the directory's names and kinds, hit or miss |
| Coherence.OrdinaryIsHarmless | operations.go:325-726 | every call but renames of directories and creating opens is harmless |
| Coherence.RenamedDirectoryGoesStale | operations.go:504-513 | after renaming a listed directory and making a new one in its place, the old children are answered |
| Coherence.DirectoryRenameExample | operations.go:504-513 | a concrete run of that kind |
| Coherence.OpenCreateExample | operations.go:107-115 | a concrete run in which a created file is missing from its cached directory |
| Conservation.HandlerShape | operations.go:15-726 | a handler opens nothing, opens and closes, or opens and hands out the next handle |
| Conservation.RunsConserve | handles.go:44-112 | in every run opened files are the live handles' files plus the closed ones, once each |
| Conservation.FilesAreConserved | handles.go:44-112 | at most one close for each file, none while its handle lives, opened = live + closed |
| Conservation.HandlesAreFresh | handles.go:48-48 | handle numbers are never reused |
| Conservation.UnmountIsFinal | mount.go:122-144 | after Unmount only lock requests and releases still do anything, and to the lock table only: no handle is handed out, nothing is opened or closed, inodes and caches stay empty, and a further Unmount changes nothing |
| Numbering.ListedNumbersAreLive | operations.go:302-316 | every entry of a fresh listing has the live number of its path |
| Numbering.AnsweredNumberIsLive | operations.go:32-33 | Lookup, Getattr and Setattr on a miss, Create, Mkdir and Link answer the live number of the path they looked up or made |
| Numbering.RunsKeepGood | inode.go:74-98 | the maps stay consistent in every run of the handlers |
| Numbering.ObservesNumbersIff | operations.go:15-94 | Lookup, Getattr and Setattr keep the numbers in cached listings live exactly unless they renumber a listed path |
| Numbering.ReaddirNumbers | operations.go:273-322 | building a listing renumbers no child of another cached directory, and every entry answered, hit or miss, has its live number |
| Numbering.StepNumbersIff | operations.go:15-726 | every modelled handler keeps all numbers in cached listings live exactly unless it is a Lookup, Getattr or Setattr that renumbers a listed path |
| Numbering.RunsKeepNumbers | operations.go:15-726 | the numbers in all cached listings are live after every run without such a call |
| Numbering.ListedNumbersStayLive | operations.go:280-321 | after such a run every entry of an answered Readdir has the live number of its path, hit or miss |
| Numbering.LookupRenumbersExample | operations.go:32-33 | a concrete run in which a listing answers a retired number |
| Numbering.GetattrRenumbersExample | operations.go:84-84 | the same with Getattr |
| Numbering.PathsHaveOwnNumbers | inode.go:89-95 | in every run two paths have two live numbers |
| Numbering.LinkSharesNoNumber | operations.go:705-706 | in every run the number Link answers is not the target's, which stays what it was |
| Outcomes.RefusedIff | operations.go:15-726 | a call is refused exactly when the adapter is unmounting, the call names a foreign node, there are no links, or the file system does not do what is asked, and the error is that of the first of these |
| Outcomes.AnswerFits | operations.go:15-726 | every call not refused gives its own kind of answer |
| Outcomes.TreeEffect | operations.go:15-726 | a made name is added with its kind, a removed one taken away, a renamed subtree moved, and nothing else ever changes the tree |
| Outcomes.RefusedKeepsTreeIff | operations.go:349-354 | a refused call leaves the tree alone exactly unless only Stat failed after the name was made |
| Outcomes.NumberedIff | operations.go:15-726 | exactly the calls that answer a number of their own give their path a number |
| Outcomes.MountedAs | mount.go:128-130 | in every run the adapter is unmounting exactly when Unmount was called, and has links exactly when mounted with them |
| Outcomes.RunsKeepWellFormed | operations.go:325-726 | in every run everything that exists lies in a directory |
| Outcomes.FilesEffect | operations.go:97-386 | exactly which calls open a file, which of those hand it out in a handle, and that the others close it once |
| Outcomes.CreatedIffStat | operations.go:337-385 | once the file is open Create answers a handle exactly when Stat succeeds; otherwise the file is closed once and the handles stay |
| Outcomes.RemovedIsGone | operations.go:440-485 | after a successful Unlink or Rmdir the name is not found and not listed |
| Outcomes.MadeIsThere | operations.go:325-726 | after a successful Create, Mkdir or Link the name is found under the number answered and listed with its kind |
| Outcomes.RenamedIsFound | operations.go:488-516 | after a successful Rename the old name is not found and the new one is |
| Outcomes.RemoveUndoesMake | operations.go:325-726 | removing what Create, Mkdir or Link made gives the old tree back, even when Stat failed |
| Outcomes.RenameUndoesRename | operations.go:488-516 | renaming to a free name and back gives the old tree back |
| Listings.RunsKeepLastListings | operations.go:273-322 | in every run each cached listing is the last one built, with its time, and no change of its directory has followed; without limits all of these are cached |
| Listings.CachedListingIsLast | operations.go:279-282 | a hit answers that listing, no older than the lifetime; without limits it always does |
| Attributes.RunsKeepLastFills | operations.go:62-94 | in every run each cached reply is the last one cached for its path, with its time; without limits all of these are cached |
| Attributes.CachedAnswerIsLastFill | operations.go:70-74 | a hit answers the reply of the last call that asked the file system about the path, no older than the lifetime; without limits it always does |
| Attributes.SetattrUpdatedIff | operations.go:564-565 | Setattr answers what was observed after the change exactly when the cache has nothing for the path |
| Attributes.SetattrAnswersOldExample | operations.go:564-565 | a concrete run in which Setattr answers the old attributes |
| HandlerFacts.HandleStandsForFile | operations.go:114-121 | a handle stands for the file its call opened, with the flags and path it was opened with |
| HandlerFacts.HandleStaysLive | handles.go:61-101 | a handle stands for the same file until it is released or everything is unmounted |
| HandlerFacts.ReleaseOutcome | operations.go:193-201 | a dead handle is a bad handle; a live one is forgotten and its file closed once even when closing fails, which is then answered; a second Release finds it dead |
| HandlerFacts.UnmountOutcome | mount.go:128-144 | Unmount closes the file of every live handle once and answers what the server answers |
| HandleLocks.LocksFollowRequests | locks.go:332-358 | in every run of the adapter the lock table is that of its lock requests and releases made of the lock manager alone |
| HandleLocks.HandlersExclude | locks.go:103-127 | mutual exclusion in every run of the adapter |
| HandleLocks.LockAnswers | locks.go:57-128 | what lock requests and probes through a handle answer, with the type numbers written out |
| HandleLocks.FlockAnswers | locks.go:192-269 | what a flock through a handle answers and leaves held, by the bits of its flags |
| HandleLocks.ReleaseFreesOwner | operations.go:196-198 | a lock, byte range or flock, survives the closing of a handle exactly when its owner is not the handle's number |
| HandleLocks.HeldIffTaken | locks.go:332-358 | in every run a byte is held exactly when it was taken through some handle, open or not, and not given up since |
| HandleLocks.CloseFreesItsLocksIff | operations.go:196-198 | closing a handle frees exactly the bytes taken through it if and only if those are exactly the bytes of the owner with its number |
| HandleLocks.LocksOutliveUnmount | mount.go:128-144 | Unmount leaves the lock table as it was, and lock requests are answered as before |
| HandleLocks.LockOutlivesHandleExample | operations.go:196-198 | a lock of owner 7 taken through handle 1 stays held after handle 1 is closed |
| HandleLocks.OtherHandleFreesExample | operations.go:196-198 | a lock of owner 1 taken through handle 2 is freed by closing handle 1 |
| Xattr.Listxattr | xattr.go:138-179 | errors leave the buffer alone; both passes answer the encoded size; the call runs out of bounds exactly when there is a buffer shorter than the encoding, and in every case the buffer starts with as much of the encoding as fits and keeps its rest |
| Xattr.SizeAll | xattr.go:159-162 | the sizing pass |
| Xattr.FillAll | xattr.go:170-176 | the filling pass: it reaches its end exactly when the encoding fits, and writes as much of it as fits |
| Xattr.RoundTripIff | xattr.go:158-178 | splitting at NULs gives the names back exactly when none contains a NUL |
| Xattr.EncodeInjective | xattr.go:158-178 | different lists of NUL-free names are encoded differently |

## Left out

- Interleavings inside a handler: a handler is one step, although the original holds no lock across its calls.
- Freshness of cached attributes: no handler invalidates them. The cache keeps the reply's structure, so its contents may change later; what a hit copies is whatever it holds then.
- What `Setattr` does to a file, and the attributes other than number, size and time: the new observation is a parameter.
- `mapOpenFlags`: a table of bits; handlers take the flags it yields.
- Entries of both caches carry a second timestamp that nothing reads; only the cache's own timestamp is modelled.
- Symbolic links and `Symlink`, and file contents: reading, writing, seeking, flushing and allocating.
- `Mount`, `Wait`, `IsMounted`, the go-fuse server and inode tree: foreign or I/O behaviour; the mount part that remains is Unmount's flag, handles and caches.
- `Getxattr`, `Setxattr`, `Removexattr`: single calls.
- Wrap-around of the inode, handle and statistics counters, which are natural numbers here.
- Blocking, fairness and deadlock detection: the original has none.
- `errors.go`, `access.go`, `statfs.go`, `stats.go`, `options.go`, `pool.go`: single-branch mappings, counters and a buffer pool.
- `CacheStats.HitRate`: floating point.
