# libnih file watching, modelled in Dafny

This project models the file-watching core of libnih (`nih/file.c`). The
library keeps one list, `file_watches`, of the inotify watches a program
holds. It reads the records the kernel delivers on the inotify descriptor
and hands each to the first watch holding its descriptor. On top of that it
builds *tree watches* (`NihDirWatch`): a directory, and optionally every
directory below it, each with its own file watch. Events on a tree are
turned into calls to the tree's create, modify and delete handlers. Watches
are added as directories appear, and the tree is torn down when its root
goes away. `nih_dir_walk`, the recursive directory walk, is what finds the
directories below a tree's root.

The model is written in the same imperative form as the code:

- `FileWatching.Registry` is a class. Its fields are:
  - the `file_watches` list, as a sequence of `FileWatch` objects, each
    with a mutable `wd`;
  - the descriptors handed to `inotify_rm_watch`, in order;
  - the calls made into users' code, in order (the trace).
- Every operation of the core is a method of the class:
  - the add and remove of a watch;
  - the reader loop and its list scan;
  - the walk, as a loop over `readdir` names that recurses into
    directories;
  - tree creation;
  - the tree watcher.
- Each method is proved against a specification function:
  - the reader against `InotifyEvent.Parse` and `Watches.Notifications`;
  - the walk against `DirWalkSpec.Walk`;
  - the tree watcher against `Watches.Classify` and
    `FileWatching.ContentEffects`.
- The properties of those functions are proved as lemmas.

The world outside the process is a value, `FileSystem.Host`. It records:

- whether `inotify_init` succeeded;
- what `stat`, `opendir` and `readdir` report for each path;
- which descriptor `inotify_add_watch` would grant for each path.

Handlers and watchers are not executed. Each call to one is appended to
the trace.

A tree owns a file watch exactly when the watch's watcher is `Tree(t)`.
This stands in for `nih_alloc` parenting. Freeing a tree therefore removes
exactly the watches it owns.

Modules:

- `Wrappers`: Option and Result.
- `InotifyEvent`: the byte layout of `struct inotify_event`, how the reader
  splits a delivery into records, and the name argument.
- `FileSystem`: paths, `st_mode` bits and the host oracle.
- `DirWalkSpec`: what `nih_dir_walk` visits, descends into and returns, as a
  function of the file tree. Also its soundness, completeness and failure
  properties.
- `Watches`: the watch objects and the callback trace. Also the list
  functions: first match, removal, ownership, and the watches a tree adds.
  And the classification of tree events.
- `FileWatching`: the `Registry` class with every operation, and the lemmas
  that tie tree teardown to the watches a tree added.

## Model

| member | source | states |
|---|---|---|
| FileWatching.Registry.constructor | nih/file.c:95-96 | The watch list starts empty. No descriptor has been cancelled and no call made. |
| FileWatching.Registry.AddWatch | nih/file.c:135-174 | Succeeds exactly when inotify is available and the kernel grants a descriptor. Success appends one new watch, holding that descriptor, path, events and watcher, at the end of the list. Failure (NoInotify or Refused) leaves the list untouched. No descriptor is cancelled and no user code is called. Every listed descriptor stays non-negative and no watch appears twice. |
| FileWatching.Registry.RemoveWatch | nih/file.c:186-197 | A watch whose descriptor is already negative is left exactly as it is. Otherwise its descriptor is cancelled once and set to -1, and the watch alone is unlinked. Combined with Watches.WithoutIdempotent, a second removal does nothing. |
| FileWatching.Registry.FindWatch | nih/file.c:254-258 | Returns the first list position holding the descriptor, or None when no watch holds it. This is the reference FirstMatch over the list's descriptors. |
| FileWatching.Registry.Reader | nih/file.c:213-268 | Consumes exactly the bytes of the whole records at the front of the delivery (Parse). When every watch is a caller's, the list and descriptors are unchanged, and the trace grows by one notification per record, in buffer order, each to the first watch with the record's descriptor. |
| FileWatching.Registry.ReadRecord | nih/file.c:225-264 | One pass of the reader loop. It stops only when Parse finds no whole record. Otherwise it consumes exactly one record of positive size, keeping the count of bytes consumed. When every watch is a caller's (AllUser), it also keeps the account of notifications still owed, and the list and descriptors are unchanged. |
| FileWatching.TakeRecord | nih/file.c:229-239 | Finds no record exactly when the buffer lacks a whole header or the whole name its len announces. Otherwise the record it takes is the first one Parse yields, and its size accounts for the bytes Parse consumes. |
| FileWatching.Registry.Dispatch | nih/file.c:254-264 | A record whose descriptor is negative or held by no watch changes nothing: not the list, the calls, the cancellations or any descriptor. When the first matching watch is a caller's, that watch alone is notified, with the mask, the cookie and the name only when len > 0, and nothing else changes. When it is a tree watch, the effect is exactly Reacted for that tree and watch, with the record's mask and name argument. |
| FileWatching.NotifyStep | nih/file.c:249-264 | Dispatching the first of the remaining records keeps the reader's invariant: the trace plus the notifications still owed equals the final trace. |
| FileWatching.Registry.SharesDescriptor | nih/file.c:545-551 | True exactly when some other listed watch holds the same descriptor. |
| FileWatching.Registry.DirWalk | nih/file.c:297-364 | The value returned and the visitor calls made, in order, are those of DirWalkSpec.Walk with the `mode & types` test. For a tree visitor, exactly the watches that nih_dir_add_file_watch makes for the visited paths are appended. |
| FileWatching.Registry.WalkStep | nih/file.c:315-359 | One readdir iteration carries the loop's account of the walk, visits and descents so far, past the entry. It breaks out exactly when EntryStep does. |
| FileWatching.Registry.DirEntry | nih/file.c:319-337 | "." and "..", filtered paths and paths stat fails on are passed over without effect. Any other entry is handled by Admit. The result is the entry's EntryStep. |
| FileWatching.Registry.Admit | nih/file.c:339-356 | An admitted entry is visited when its mode matches types. The walk stops on a negative visitor result. A directory is then always descended into, and the walk stops on a negative sub-walk result. The result matches EntryStep. |
| FileWatching.Registry.Visit | nih/file.c:340-341 | The visitor's result for the path. A caller's visitor appends one Visited call. The tree visitor appends that tree's watch when the kernel grants one. |
| FileWatching.Registry.DirAddFileWatch | nih/file.c:478-493 | Always returns 0. Appends a tree watch on the path when the kernel grants one and nothing otherwise. Cancels nothing and calls nothing. |
| FileWatching.Registry.DirAddWatch | nih/file.c:411-465 | The cases are: StatFailed when stat fails; NotADirectory (ENOTDIR) when the path is not a directory; NoInotify or Refused when the root watch fails, with the list and cancellations untouched. WalkFailed when the S_IFDIR walk below the root fails: the list is back as it was, and the descriptors of every watch the tree had added are cancelled in order. Success returns a new tree with the given fields, and appends watches on the root and, with subdirs, on every directory the walk visits. In every case each watch listed before the call keeps its descriptor. |
| FileWatching.Registry.Discard | nih/file.c:447-452 | Freeing a tree that owns no watch changes nothing: the list, the calls, the cancellations and every listed watch's descriptor stay as they were. |
| FileWatching.Registry.WatchBelow | nih/file.c:455-462 | The walk below a new tree's root fails exactly when TreeWalk returns a negative value. On failure the list returns to what it was before the root watch, the tree's descriptors are cancelled, and the tree's watches are set to -1. On success one watch is appended per walked directory the kernel grants. Every watch outside the tree keeps its descriptor. |
| FileWatching.Registry.Abandon | nih/file.c:459 | Freeing a new tree whose watches follow the old list restores that list and cancels the tree's descriptors in order. The tree's watches are set to -1, and every other watch keeps its descriptor. |
| FileWatching.Registry.FreeTree | nih/file.c:537 | Freeing a tree runs the removal destructor of each watch it owns. Those watches are unlinked, their descriptors are cancelled in list order, and each is set to -1. Every other watch stays, in order, with its descriptor. |
| FileWatching.Registry.FreeOne | nih/file.c:186-197 | One watch of the teardown. If the tree owns it, it is removed, its descriptor is cancelled and it is set to -1. Otherwise it stays with its descriptor. Every other watch of the list keeps its descriptor, so the teardown invariant advances by one. |
| FileWatching.Registry.DirWatcher | nih/file.c:509-610 | The effect is exactly Reacted. A zero mask, or a content event without a name, is an assertion failure that changes nothing. Self-removal of the root calls the delete handler with no path, then frees the tree. Self-removal of a sub-directory unlinks its watch, and cancels it (setting it to -1) only when no other watch holds its descriptor. Any other event has the effect ContentEffects gives on parent/name. Every watch that is not freed keeps its descriptor. |
| FileWatching.Registry.Reacted | nih/file.c:509-610 | The reference definition of nih_dir_watcher's effect, given the registry before (a Snapshot). It covers the assertion failures, root and sub-directory self-removal (with the descriptors freed, set to -1, or kept), and content events through ContentEffects. Whatever happens, cancellations are only added and at most one call is made. |
| FileWatching.ContentEffects | nih/file.c:566-606 | The reference definition of a content event's effect. A filtered path changes nothing. Otherwise the handler Classify picks is called, if set. A created or moved-in directory in a subdirs tree gets watches on itself and on every directory TreeWalk visits below it. At most one call is made, and the list only grows at its end. |
| FileWatching.Registry.Ceased | nih/file.c:525-563 | Root: the delete handler is called with no path (if set), then every watch of the tree is cancelled, unlinked and set to -1. Non-root: only that watch is unlinked, and it is cancelled and set to -1 only if its descriptor is not shared. Every other watch keeps its descriptor. |
| FileWatching.Registry.ReleaseWatch | nih/file.c:539-559 | The watch is unlinked. Its descriptor is cancelled, and the watch set to -1, exactly when no other listed watch holds it. Otherwise it keeps its descriptor. No other watch is touched. |
| FileWatching.Registry.ContentChanged | nih/file.c:570-606 | A filtered path calls nothing. Otherwise exactly the handler Classify ranks first is called, if set. A created or moved-in directory in a subdirs tree gets watches on itself and every directory the walk below it visits. |
| FileWatching.Registry.WatchNewDir | nih/file.c:586-595 | A new directory gets a watch, and so does every directory the walk below it visits (where granted), whatever the walk returns. Nothing is cancelled or called. |
| FileWatching.TornDown | nih/file.c:455-462 | After a tree's watches are appended to a list it owned nothing in, freeing the tree gives that list back and cancels exactly the descriptors granted for the walked paths. |
| FileWatching.AddedTorn | nih/file.c:482-490 | Every watch a tree adds is owned by it. Their descriptors are those the kernel granted for the paths, in order. |
| FileWatching.NoneOwned | nih/file.c:447-452 | A list in which the tree owns nothing is untouched by freeing the tree. |
| FileWatching.VisitCallsAppend | nih/file.c:340-341 | Visitor calls over two runs of paths are those of the first run followed by those of the second. |
| FileWatching.EffectsCompose | nih/file.c:315-359 | The effects of visiting two runs of paths one after the other are the effects of visiting both runs together. |
| InotifyEvent.Signed | nih/file.c:257 | The descriptor in a record is a two's-complement 32-bit integer. It is negative exactly when the top bit is set. |
| InotifyEvent.DecodeRecord | nih/file.c:236-237 | A record read from a buffer holding a whole record is well formed. Its size is the header plus len. |
| InotifyEvent.Parse | nih/file.c:225-247 | The bytes the reader consumes never exceed the delivery. |
| InotifyEvent.ParseConsumesWholeRecords | nih/file.c:225-247 | The reader consumes whole records only. The consumed prefix is exactly the encoding of the well-formed records returned. What is left does not hold a whole record. |
| InotifyEvent.ParseWholeRecords | nih/file.c:225-247 | A delivery made of whole records is consumed completely, yielding exactly those records in order. |
| InotifyEvent.ParseEncoded | nih/file.c:225-247 | Records in front of any tail are read in order before whatever the tail yields. |
| InotifyEvent.ParseCons | nih/file.c:225-247 | A delivery starting with one encoded record yields that record first. |
| InotifyEvent.ParseSplit | nih/file.c:225-247 | Reading a delivery in two parts reads the same records as reading it whole, when the leftover partial record is kept in front of the second part. |
| InotifyEvent.DecodeEncoded | nih/file.c:236-237 | Decoding an encoded record returns it and its exact size, whatever follows it. |
| InotifyEvent.EncodeDecoded | nih/file.c:236-237 | A decoded record re-encodes to exactly the bytes it was read from. |
| InotifyEvent.RecordPrefix | nih/file.c:229-239 | Bytes after a whole record do not change how it is read. |
| InotifyEvent.NameArg | nih/file.c:262 | The name is passed exactly when len > 0. It is never longer than the name field and holds no NUL. |
| InotifyEvent.CString | nih/file.c:262 | The name is the bytes of the field up to the first NUL. |
| FileSystem.AddWatchResult | nih/file.c:158-159 | The result is a descriptor (non-negative) exactly when inotify is available and the kernel grants the path. Otherwise it is -1. |
| FileSystem.Join | nih/file.c:567-568 | The `%s/%s` path is the directory, a slash and the name. |
| DirWalkSpec.Walk | nih/file.c:297-364 | The reference definition of nih_dir_walk on a file tree. It returns -1 when the path cannot be opened, and otherwise gives the readdir loop over the path's listing, started with ret = 0. It returns 0, -1, or the visitor's result for an entry it visited. |
| DirWalkSpec.WalkEntries | nih/file.c:315-359 | The reference definition of the readdir loop. It skips ".", "..", filtered paths and paths stat fails on. It visits an entry when `mode & types` is non-zero and stops on a negative result. It descends into every directory and stops on a negative sub-walk. Otherwise ret carries the last result. The loop ends with the ret it started from, 0, -1, or the visitor's result for an entry it visited. |
| DirWalkSpec.WalkAdmitted | nih/file.c:319-349 | A walk never visits or enters ".", "..", a filtered path or a path stat fails on. Only entries whose mode is wanted are visited, and only directories are entered. Everything lies under the root, through directories already entered, so nothing below a filtered path is reached. |
| DirWalkSpec.WalkComplete | nih/file.c:315-359 | A walk returning non-negative went everywhere. Every admitted entry of the root and of each entered directory was visited when its mode is wanted, and entered when it is a directory, even when S_IFDIR is not among the types. |
| DirWalkSpec.WalkFailure | nih/file.c:311-355 | The visitor is never called after it returned a negative value. A negative result is either the visitor's last result or the -1 of a directory that could not be opened. |
| DirWalkSpec.WalkNonPositive | nih/file.c:305-363 | If the visitor never returns a positive value, neither does the walk. |
| DirWalkSpec.QuietWalk | nih/file.c:454-462 | With a visitor that always returns 0, as the tree visitor does, the walk returns 0 or -1. A -1 happens only because the root or the last entered directory could not be opened. |
| DirWalkSpec.SkipStep | nih/file.c:319-337 | ".", "..", filtered entries and entries stat fails on are passed over, with ret unchanged. |
| DirWalkSpec.StopStep | nih/file.c:340-345 | A negative visitor result ends the walk with that result. |
| DirWalkSpec.LeafStep | nih/file.c:339-347 | A non-directory is visited if wanted and never entered. ret then holds the visitor's result. |
| DirWalkSpec.DirStep | nih/file.c:348-356 | A directory is visited if wanted, then walked. A negative sub-walk ends the walk. Otherwise ret holds the sub-walk's result. |
| DirWalkSpec.EntriesByStep | nih/file.c:315-359 | The readdir loop is its first iteration (EntryStep) followed, unless that iteration breaks out, by the loop over the remaining names. |
| DirWalkSpec.LoopStep | nih/file.c:315-359 | The loop invariant "walk = what was done so far + loop over the remaining names" holds after each iteration. |
| DirWalkSpec.PathsAt | nih/file.c:324-325 | Each visited entry's path is its directory, a slash and its name. |
| Watches.FirstMatch | nih/file.c:254-264 | The reference definition of the list scan: the first position whose descriptor is wd. Any position it returns holds wd. |
| Watches.Notify | nih/file.c:254-264 | The reference definition of the calls one record causes when every watch is a caller's: at most one call, to the first watch holding the record's descriptor. |
| Watches.Notifications | nih/file.c:225-264 | The calls a sequence of records causes, record by record. There are never more calls than records. |
| Watches.FirstMatchFirst | nih/file.c:254-264 | The match found is the earliest one. No match is found exactly when no watch holds the descriptor. |
| Watches.FirstMatchAt | nih/file.c:254-264 | The first position holding the descriptor is the one matched. |
| Watches.NotifySpec | nih/file.c:254-264 | A record causes no call exactly when no watch holds its descriptor. Otherwise it causes one call, to the first watch holding it. |
| Watches.NotificationsAppend | nih/file.c:225-264 | The notifications of a sequence of records are made record by record, in buffer order. |
| Watches.NegativeWdIgnored | nih/file.c:257 | When every listed descriptor is non-negative, a record with a negative descriptor notifies nobody. |
| Watches.WithoutIdempotent | nih/file.c:196 | Unlinking is idempotent. The watch is gone afterwards, and unlinking an absent watch changes nothing. |
| Watches.WithoutFront | nih/file.c:196 | Unlinking a watch removes only it, and the rest keeps its order. |
| Watches.DistinctAppend | nih/file.c:171 | Linking a watch not yet listed keeps the list free of repeats. |
| Watches.WatchableSpec | nih/file.c:482-490 | The paths a tree gets watches on are exactly the walked paths the kernel grants. |
| Watches.AddedSpec | nih/file.c:482-490 | The watches a tree adds are, in order, one for each granted path, each with that path, DIR_EVENTS, the tree as watcher and the granted descriptor. |
| Watches.AddedAppend | nih/file.c:455-458 | Watches added over two runs of paths are those added over both runs together. |
| Watches.Classify | nih/file.c:575-606 | No handler is chosen exactly when no create, modify or delete bit is set. Otherwise the chosen handler is signalled, and it outranks every other signalled one: create or moved-to, then modify, then delete or moved-from. |
| Watches.WdsAt | nih/file.c:257 | The descriptors compared are those of the listed watches, position by position. |

## Left out

- `nih_file_map` and `nih_file_unmap` (memory-mapping a file): not part of
  the watch machinery.
- `nih-dbus-tool/property.h` is not part of this model.
- `nih_file_init`: the lazy creation of the list and of the inotify
  descriptor is folded into `Host.inotify` (whether `inotify_init`
  succeeded) and into the Registry constructor.
- The system calls (`inotify_add_watch`, `inotify_rm_watch`, `stat`,
  `opendir`, `readdir`) are answered by the `Host` value, which is fixed
  for the duration of each call. Changes to the file tree while a walk
  runs are not modelled.
- `inotify_rm_watch` is recorded in `cancels`. Its return value is ignored
  by the code and by the model.
- `nih_io_read` and the receive buffer: the reader works on the delivered
  bytes, and taking a record off the front is a slice. The allocation and
  freeing of each record is not modelled.
- Allocation failure (`nih_new` returning NULL, `NIH_MUST` retries) is not
  modelled. Allocation always succeeds.
- `nih_alloc` parenting is reduced to tree ownership of file watches. A
  caller-supplied parent, the freeing of memory, and the destructor slot
  itself are not modelled.
- Logging (`nih_debug`, `nih_warn`) and the raised error objects are left
  out. Errors are the `FileError` values.
- `nih_assert`:
  - The checks on pointers, `len > 0`, `types != 0` and `events != 0` are preconditions
    (`requires`).
  - In the tree watcher, a zero mask or a missing name records an
    `AssertionFailed` call and changes nothing else. The real program would
    abort.
- The header fields are read little-endian, as on the platforms inotify
  runs on. Other byte orders are not modelled.
- The walk's type test is `st_mode & types != 0`, as in the code. With
  `types == S_IFDIR`, sockets and block devices also pass it, because they
  share the 0x4000 bit. A tree therefore also visits them, and tries to add
  watches on them. The model keeps this behaviour.
- Symbolic-link loops and path-length limits: the file tree is a finite
  map, so a walk always ends. The real walk relies on the kernel's
  ELOOP/ENAMETOOLONG.
- The cookie is passed to caller watchers (in the `Notified` call) but the
  tree watcher ignores it, as the code does.
- FileWatching.Registry.Reader: it states the trace only when every listed
  watch belongs to a caller. When tree watches are present it promises only
  the consumed byte count and that the list stays valid. The tree case is
  stated per record, through Reacted, by Dispatch. Reader does not add up
  those effects over a buffer.
- FileWatching.Registry.ReadRecord: it states the calls owed and the
  unchanged list and descriptors only when every listed watch belongs to a
  caller (AllUser). With tree watches present it promises the consumed bytes
  and a valid list. The effect of each record is Dispatch's contract.
- FileWatching.Registry.DirAddWatch: in the teardown, the freed tree's watches
  are removed in list order, not in `nih_alloc`'s order of children. Only
  the order of the recorded cancellations could differ, and the model
  records list order.
