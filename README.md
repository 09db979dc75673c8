# bftw: a breadth-first file tree walk, modelled in Dafny

bfs walks a directory tree with `bftw()`. The walk is breadth-first and calls a
callback once for every file it meets. Each call gets the file's path and a
`struct BFTW` record. The record holds:

- the stat buffer when `BFTW_STAT` is set;
- the typeflag;
- the offset of the filename in the path;
- the depth;
- the errno when the typeflag is `BFTW_ERROR`.

The callback returns an action: continue, skip the siblings, skip the subtree,
or stop. The walk keeps at most `nopenfd` directory handles open. With
`BFTW_RECOVER` set, a file that cannot be processed is reported as an error
entry. Without it, such a file ends the walk with -1.

The model has four modules.

- `Paths` (paths.dfy) holds dirname and basename as POSIX describes them. These
  are the helpers `xdirname()` and `xbasename()` that the test driver pins down.
  Each of the driver's vectors is an evaluation lemma.
- `ShortLex` (shortlex.dfy) holds positions in an ordered tree and their
  shortlex order. A breadth-first walk that reads each directory's entries in
  order calls the callback in exactly this order.
- `Bftw` (bftw.dfy) holds the header's contract:
  - the typeflag and action enumerations with their integer codes;
  - the two flag bits;
  - the record;
  - the callback type;
  - the in-memory file tree the walk runs over, with the path and base offset
    of each file.
- `Walker` (walker.dfy) holds the walk itself as imperative code.
  - `Walk` makes the root call and hands a FIFO queue of directories still to
    be read to `Drain`.
  - `Drain` takes directories from the queue in order. Before reading one it
    opens a handle for it (`ReadQueued` calls `CountedOpen`, which wraps
    `OpenHandle` and keeps the counts). The handles are a
    least-recently-opened cache of at most `nopenfd` entries: when it is full,
    the oldest handle is closed first. The handles still open are closed when
    the walk ends.
  - `ReadDirectory` loops over one directory's entries (one turn is
    `ReadNext`). `ReadEntry` handles one entry: it gives up on an entry that
    cannot be processed, and otherwise `CallEntry` makes the call.
  - The loop invariants are named predicates: `Between` holds between
    directories and `Reading` holds inside one.
  - Step lemmas show that each call keeps them.
  - The walk's results are lemmas about the trace of calls: level order,
    soundness and completeness. A walk that ends early is described by what
    it owed: a walk that stops, or gives up at an entry, has made every call
    it owed that comes before that point in breadth-first order.

Where a file cannot be processed is a property of the tree: a node carries an
optional errno. The callback is a pure function of the path and the record.

## Model

| member | source | states |
|---|---|---|
| Paths.Basename | tests/bfstd.c:20-22 | the basename is never empty; it is "/" or contains no '/' |
| Paths.Dirname | tests/bfstd.c:15-17 | the dirname is never empty; it is ".", "/", or a prefix of the path that does not end in '/' |
| Paths.BaseOffset | bftw.h:25-26 | the offset of the final component lies within the path |
| Paths.StripTrailingSlashesUnique | tests/bfstd.c:29 | stripping trailing slashes is the unique split into a prefix without a trailing '/' and a run of slashes |
| Paths.StripTrailingNameUnique | tests/bfstd.c:35 | stripping the trailing name is the unique split into a prefix that is empty or ends in '/' and a '/'-free tail |
| Paths.AllSlashesDecompose | tests/bfstd.c:31-33 | a path of slashes only has dirname "/" and basename "/" |
| Paths.NameDecomposes | tests/bfstd.c:28-29 | a '/'-free name followed by any number of slashes has basename the name and dirname "." |
| Paths.PathDecomposes | tests/bfstd.c:34-37 | for d + slashes + name + slashes, the basename is the name and the dirname is d (or "/" when d is empty), with interior repeated slashes kept |
| Paths.Decompose | tests/bfstd.c:14-24 | every non-empty path that is not all slashes splits into one of those two shapes, so the two lemmas above determine both functions |
| Paths.TrailingSlashesIgnored | tests/bfstd.c:28-29 | appending slashes to a non-empty path changes neither dirname nor basename |
| Paths.BasenameIdempotent | tests/bfstd.c:20-22 | the basename of a basename is itself |
| Paths.BaseOffsetIsBasename | bftw.h:25-26 | from the base offset on, the path is the basename up to trailing slashes, or "/" for an all-slash path |
| Paths.SlashFreeName | tests/bfstd.c:28 | "usr" gives "." and "usr" |
| Paths.SlashFreeNameTrailingSlash | tests/bfstd.c:29 | "usr/" gives "." and "usr" |
| Paths.EmptyPath | tests/bfstd.c:30 | "" gives "." and "." |
| Paths.RootPath | tests/bfstd.c:31 | "/" gives "/" and "/" |
| Paths.TripleSlash | tests/bfstd.c:33 | "///" gives "/" and "/" |
| Paths.RootChildTrailingSlash | tests/bfstd.c:34 | "/usr/" gives "/" and "usr" |
| Paths.AbsoluteTwoComponents | tests/bfstd.c:35 | "/usr/lib" gives "/usr" and "lib" |
| Paths.RepeatedSlashes | tests/bfstd.c:36 | "//usr//lib//" gives "//usr" and "lib" |
| Paths.InteriorRepeatedSlashes | tests/bfstd.c:37 | "/home//dwc//test" gives "/home//dwc" and "test" |
| ShortLex.LessIrreflexive | bftw.h:47-52 | the breadth-first order never puts a position before itself |
| ShortLex.LessAsymmetric | bftw.h:47-52 | of two positions, at most one comes first in breadth-first order |
| ShortLex.LessTransitive | bftw.h:47-52 | the breadth-first order is transitive |
| ShortLex.LessThanDescendant | bftw.h:47-52 | a directory comes before everything below it |
| ShortLex.ParentOrder | bftw.h:47-52 | entries of an earlier directory, and earlier entries of the same directory, come first |
| Bftw.TypeflagCode | bftw.h:69-86 | every typeflag's code is in 0..8 |
| Bftw.TypeflagOfCode | bftw.h:69-86 | exactly the codes 0..8 name a typeflag, and that typeflag encodes back to the code |
| Bftw.TypeflagCodeRoundTrip | bftw.h:69-86 | decoding a typeflag's code gives the typeflag back |
| Bftw.ActionCode | bftw.h:88-95 | every action's code is in 0..3 |
| Bftw.ActionOfCode | bftw.h:88-95 | exactly the codes 0..3 name an action, and that action encodes back to the code |
| Bftw.ActionCodeRoundTrip | bftw.h:88-95 | decoding an action's code gives the action back |
| Bftw.FlagsIndependent | bftw.h:97-100 | BFTW_STAT and BFTW_RECOVER are distinct bits, each settable without the other |
| Bftw.ReachableIsInTree | bftw.h:47-52 | a position the walk can reach is a file of the tree |
| Bftw.JoinPath | bftw.h:36-37 | an entry's path ends with the entry's name and is longer than it |
| Bftw.JoinPathParent | bftw.h:36-37 | what precedes the name in an entry's path is the directory's path, up to trailing slashes, followed by a '/' |
| Bftw.ChildPathDecomposes | bftw.h:36-37 | an entry's path has the entry's name as basename and its directory's path (trailing slashes dropped) as dirname |
| Bftw.Record | bftw.h:20-31 | the record carries the given base and level; the typeflag is Error exactly when the file cannot be processed, and then the errno is set and there is no stat buffer; otherwise the typeflag is the file's type and the stat buffer is present exactly when BFTW_STAT is set |
| Bftw.EntryBase | bftw.h:25-28 | below the root, the path from the base offset on is the file's name, and the level is one more than the parent's |
| Bftw.RootBase | bftw.h:25-28 | the root is at level 0 and its base offset points at the final component of the starting path |
| Walker.EntryDescribed | bftw.h:20-31 | the call built for entry i of a directory has the entry's path, record and level; without BFTW_RECOVER it is never an Error record |
| Walker.StartDirectory | bftw.h:47-52 | taking the next directory from the queue keeps the walk's invariant |
| Walker.VisitEntry | bftw.h:88-93 | a call that continues or skips the subtree keeps the invariant for the next entry, queuing the entry only when the walk descends into it |
| Walker.VisitSkip | bftw.h:90-91 | a call that asks to skip its siblings ends the directory with the invariant kept |
| Walker.VisitLast | bftw.h:94-95 | a call that asks to stop is the last call, and the trace is still a correct walk |
| Walker.FinishDirectory | bftw.h:47-52 | after a directory's last entry, the invariant between directories holds again, with no next-entry duty left for the directory |
| Walker.Conclude | bftw.h:47-52 | any trace the walk builds starts at the root, describes each file correctly, is in breadth-first order, goes below a file only when that file is a directory the callback let it enter, obeys SkipSiblings, and has no Error record without BFTW_RECOVER |
| Walker.Drained | bftw.h:47-52 | when the queue is empty, every first-entry and next-entry duty has been done |
| Walker.ReadEntry | bftw.h:33-45 | reading entry i of a directory: the walk fails at exactly that entry when it cannot be processed and BFTW_RECOVER is not set; then no call is made, and the walk has made every call it owed before that entry. Otherwise exactly one call is appended to the trace, the call built for that entry. The outcome follows the action: Stop ends the walk with this call last and everything owed before it done; SkipSiblings ends the directory; Continue and SkipSubtree keep the invariant for the next entry. The entry is queued exactly when the walk is to descend into it |
| Walker.CallEntry | bftw.h:33-45 | for an entry that can be processed, or is to be reported as an error: exactly one call, the one built for the entry, is appended; the outcome is Stopped exactly when the action is Stop, and skip is set exactly when it is SkipSiblings; the entry is queued exactly when the walk descends into it; the walk's invariants are kept |
| Walker.NextQueue | bftw.h:92-93 | the queue only grows at its end, by at most one directory, and exactly when the walk is to descend into the entry; what is appended is entry i itself: its node, its position below the directory, and the path it was called with |
| Walker.ReadNext | bftw.h:47-52 | one turn of the loop over a directory: the trace stays the directory's first entries in order, one more unless the walk fails; a skip names the entry that asked for it; a failure names entry i and leaves the trace as it was |
| Walker.ReadDirectory | bftw.h:47-52 | reading a directory appends the calls for its entries, in order, to the trace. A finished read called every entry, or ended at an entry that asked to skip its siblings. Stop makes its call the last, with everything owed before it done. A failure names the entry after the last call, which cannot be processed and was owed |
| Walker.Walk | bftw.h:47-67 | returns 0 or -1. nopenfd < 1 and an unprocessable root give -1 with no call. Any other -1 happens only without BFTW_RECOVER, at a file that cannot be processed, after every call owed before it was made, and every call the walk made comes before that file in breadth-first order, so nothing is called after the file the walk gave up at. The root is called first; every call describes its file; calls are in breadth-first order; SkipSubtree, SkipSiblings and Stop are obeyed; Stop returns 0, and every call owed before the stopping file was made; there are no Error records without BFTW_RECOVER. The directories opened are listed once each, in breadth-first order, and every call below the root is for an entry of one of them; at most nopenfd handles are open at once, the most open at once is exactly the smaller of the opens and nopenfd, and every handle opened is closed. A successful walk that was not stopped left out nothing the callback did not prune |
| Walker.OpenHandle | bftw.h:58-59 | opening a handle keeps between 1 and nopenfd handles open, closes at most one handle, and closes one exactly when all nopenfd were in use, and leaves the handles of the last directories opened, ending with the new one |
| Walker.ReadQueued | bftw.h:47-52 | reading the directory at the head of the queue first opens a handle for it, recording it as the last directory opened and keeping the handle counts; it keeps the list of opened directories correct and shrinks the work left when it finishes; a failure names a file owed and unprocessable, with everything owed before it done and every call made before it |
| Walker.Drain | bftw.h:47-67 | taking directories from the queue until it is empty: a finished walk is complete, a stopped one has Stop last with everything owed before it done, a failed one gave up at an unprocessable file it owed after everything owed before it, with every call made coming before that file; the directories opened are counted by the opens, the most handles open at once is the smaller of the opens and nopenfd, and opens equal closes |
| Walker.CountedOpen | bftw.h:58-59 | opening one more handle adds one open, closes a handle exactly when nopenfd were already open, and keeps the handle bookkeeping: the open handles are the last directories opened, their number is the smaller of the opens and nopenfd, and the most open at once equals it |
| Walker.LastCalledBefore | bftw.h:47-52 | in a breadth-first trace, a position after the last call comes after every call |
| Walker.EntryAfterCalls | bftw.h:64-65 | while a directory is being read, the entry after the last call made for it comes after every call of the trace |
| Walker.ReadingOwed | bftw.h:47-52 | inside a directory, the next entry is owed by the calls made: the first entry by the directory's own call, a later one by the call for the entry before it |
| Walker.ReadingDoneBefore | bftw.h:47-52 | inside a directory, every call owed before the next entry in breadth-first order has been made |
| Walker.ReadingAborted | bftw.h:47-52 | inside a directory, an entry that cannot be processed is a point where the walk may give up: owed, unprocessable, with everything owed before it done |
| Walker.DoneBeforeAppend | bftw.h:94-95 | a call made with everything owed before it done still has everything owed before it done after it is appended, since what a call owes comes after it |
| Walker.EntryVisits | bftw.h:47-52 | the calls for the first n entries of a directory are n calls, the k-th built for entry k |
| Walker.EntriesReadStep | bftw.h:47-52 | appending the call for the next entry keeps the trace the directory's first entries in order |
| Walker.OpenedStep | bftw.h:58-59 | opening a directory after those opened before it and reading its entries keeps the opened list sorted, made of directories the walk descended into, and covering every call's directory |
| Walker.LevelOrder | bftw.h:27-28 | the root is at level 0 and levels never decrease along the walk |
| Walker.SkipSubtreeObeyed | bftw.h:92-93 | nothing below a file whose call returned SkipSubtree is called |
| Walker.EntryBasename | bftw.h:25-26 | for an entry with a proper name, the base offset is where its path's basename starts, and its dirname is its directory's path |
| Walker.VisitedReachable | bftw.h:47-52 | soundness: every file called lies below readable directories only |
| Walker.EntriesVisited | bftw.h:88-91 | when every call continues, once a directory's first entry is called all its entries are |
| Walker.ReachableVisited | bftw.h:47-52 | completeness: when every call continues, every file reachable through readable directories is called |

## Left out

- The system calls (`opendir`, `readdir`, `fstatat`, `close`) and real errno values are not modelled. The tree is given in memory. A file that cannot be processed carries an errno in the tree. Handles are positions in the cache, and opening or closing one is a counter step.
- How a typeflag is derived from `d_type` or from `stat()` is not modelled. Each file's type is part of the tree.
- The `void *ptr` argument is left out. The callback is a pure function of the path and the record, so it cannot have side effects and cannot change the tree.
- The callback cannot return a value outside the four actions, because `Action` is a closed datatype. `ActionOfCode` models the decoding of the integer.
- Walk: the header does not say what `nopenfd < 1` means. The model returns -1 before any call.
- Walk: a root that cannot be processed always returns -1, with or without BFTW_RECOVER.
- Walk: the handle cache is a plain least-recently-opened list. Directories are addressed by full path. The reference counts that keep ancestor handles open, so that entries can be opened relative to them, are not modelled.
- Walk: a handle in the cache is never reused. Every directory is opened once, when it is read. The model counts handles opened and closed and ties the opens to the directories read; it does not model reopening a directory whose handle was closed.
- Entry names are taken as given. The tree does not require them to be non-empty, free of '/' and other than "." and "..". `Walker.EntryBasename` and `Bftw.ChildPathDecomposes` assume such proper names.
- Bftw.JoinPath: an empty starting path gives entry paths "/name". The real walk cannot open the directory "" and fails there.
- Walk: SkipSiblings is read literally from the header. It skips the remaining entries of the current directory. The walk still descends into the entry itself when that entry is a directory.
- Record: the stat buffer is present only when BFTW_STAT is set. The implementation may also fill it when it needs a `stat()` to find the type.
- Walker.ReachableVisited: completeness is proved only for walks in which every call returns Continue. Pruned walks are covered by the duties in `Walker.Walk`'s `Complete` clause, and walks that stop or give up by `DoneBefore` and `AbortedAt`.
- Paths: the path "//" is not modelled as a separate case. POSIX lets it give "/" or "//", the test driver leaves it commented out, and the model gives "/".
- The implementation of `xdirname()` and `xbasename()` in src/bfstd.c is not part of this model. Their behaviour follows the POSIX steps and the test vectors.
- Allocation failure in `xdirname()` and `xbasename()` is not modelled, and neither are the `bfs_verify()` reports. The model's functions are total.
