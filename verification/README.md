# vogue change detection, in Dafny

vogue watches the stylesheets under one or more web roots and tells the
connected browsers to reload them. It registers every `.css`, `.sass`,
`.scss`, `.less` and `.styl` file it finds in a registry (`watching`: path ->
`'normal'` | `'hyperspeed'`). Each registered file gets a stat poller. A file
whose modification time changes is announced with an `update` broadcast and
moves to a faster poller. A periodic rescan picks up new files. The model
covers the four pieces of `src/vogue.js` that make up this logic:

- `text.dfy` (module `Text`): `String.prototype.split` on one character, its
  inverse `join`, and prefix/suffix tests.
- `extensions.dfy` (module `Extensions`): the stylesheet filter
  (`file.split('.').pop()` looked up with `indexOf`).
- `registry.dfy` (module `Registry`): the registry, its two tiers with their
  poll intervals (2000 ms and 100 ms), and the observable effects. The effects
  are broadcasts on the plain or SSL socket, plus `fs.watchFile` /
  `fs.unwatchFile`. This module also interprets those effects on the set of
  running pollers, and defines when registry and pollers agree.
- `walk.dfy` (module `Walk`): the recursive directory walk over a directory
  tree. The tree records what `readdir` and `stat` report. The module also
  has an explicit-stack version of the same walk.
- `rescan.dfy` (module `Rescan`): `watchAllFiles`. It covers registration of one
  root's listing, that root's broadcast and count, and the whole rescan over
  the roots in the order their walks complete.
- `filechange.dfy` (module `FileChange`): `onFileChange`, the poller callback
  of one file.
- `roots.dfy` (module `Roots`): `getDirectoriesToWatch`, limited to the
  absolute/relative choice and the split on `:`.
- `watcher.dfy` (module `Watcher`): the process as a sequential state machine
  whose events are "a root's walk completed" and "a file's poller fired".

Every callback in vogue runs to completion before the next one starts.
A run is therefore a sequence of such events. Timers, sockets and the file
system are outside the model. They show up only as the inputs of an event
(a listing, two stat snapshots) and as the effects it produces.

Some of the code's behaviour is easy to miss, and the model keeps it as
written:

- The mtime test compares `Date.toString()` renderings (line 106). These show
  whole seconds, so two snapshots within the same second count as unchanged,
  where a full-precision comparison would count them as changed.
  `FileChange.MtimeSecond` models the comparison as written.
- A deletion (`nlink === 0`) is only noticed when the mtime also changed. The
  plain-socket `update` goes out before the deletion check, so a deletion is
  announced on the plain socket but not on the SSL one (lines 106-116).
- A rescan broadcasts once per root that contributed a new file, and only on
  the plain socket (lines 96-98). It is not one broadcast per rescan, and the
  SSL socket never hears of new files.
- The walk reports an entry whose `stat` fails as a file (lines 63-71). It is
  not dropped.

## Model

| member | source | states |
|---|---|---|
| Text.SplitPieces | src/vogue.js:214 | `split(':')` yields one more piece than there are separators, and no piece contains the separator |
| Text.JoinSplit | src/vogue.js:214 | joining the pieces of a split with the separator restores the original string |
| Text.SplitJoin | src/vogue.js:214 | splitting a join of separator-free pieces restores the pieces, so split and join are inverse |
| Text.SplitAtSeparator | src/vogue.js:85 | splitting `a + sep + b` gives the pieces of `a` followed by the pieces of `b` |
| Extensions.IndexOfFinds | src/vogue.js:86 | `indexOf` returns -1 exactly when the extension is not in the list, and otherwise a position holding it |
| Extensions.ExtensionIsSuffix | src/vogue.js:85 | the computed extension is either the whole path or the path ends in `.` followed by it |
| Extensions.ExtensionCharacterized | src/vogue.js:85 | for a dot-free `ext`, `path.split('.').pop() == ext` holds exactly when the path is `ext` or ends in `.ext` |
| Extensions.EligibleIff | src/vogue.js:85-86 | a path passes the filter exactly when it is, or ends in `.` followed by, one of `css`, `sass`, `scss`, `less`, `styl` (the list at lines 29-35), case-sensitively |
| Rescan.RegisterFiles | src/vogue.js:83-91 | after one root's `forEach`, the registry holds exactly the old paths plus the eligible listed ones. Old tiers are kept, new paths are `normal`, and `newFiles` holds exactly the new paths, one per registry growth |
| Rescan.RegisteredOnce | src/vogue.js:84-89 | a path listed twice is registered and pushed onto `newFiles` once: the new paths are pairwise distinct |
| Rescan.RescanIdempotent | src/vogue.js:84-89 | scanning a listing a second time registers nothing, changes no tier and broadcasts nothing |
| Rescan.ScanRoot | src/vogue.js:81-99 | one root's callback: the logged count equals the registry's growth, the registry gains exactly the eligible listed paths, and old tiers are kept. It emits one plain `update` iff the count is positive, and no SSL `update` |
| Rescan.RegisterKeepsPollersConsistent | src/vogue.js:87-88 | every newly registered path gets a 2000 ms poller, so registry and pollers stay in agreement |
| Rescan.ScanKeepsPollersConsistent | src/vogue.js:82-100 | a root's callback, broadcasts included, keeps registry and pollers in agreement |
| Rescan.WatchAllFiles | src/vogue.js:78-102 | a full rescan over the roots' listings. Afterwards a path is watched exactly when it was watched before or is an eligible path of some listing; old tiers are kept and new paths are `normal`. Root `i` logs the number of its eligible paths that were neither watched before the rescan nor registered by an earlier root. The counts sum to the registry's growth, which is the number of eligible listed paths not watched before, however often a path is listed. There is one plain `update` per root with new files, and no SSL `update` |
| Rescan.EligibleAmongAllMembers | src/vogue.js:81-88 | the paths a full rescan may add are exactly those some root lists and the extension filter accepts |
| FileChange.OnFileChange | src/vogue.js:104-125 | same mtime second: registry unchanged, no effects. Changed: the plain `update` comes first. Changed with `nlink == 0`: only that path is removed, one plain and no SSL `update`. Changed with `nlink > 0`: same keys, the file becomes `hyperspeed` if watched, others unchanged, one plain `update` and one SSL `update` iff SSL is configured |
| FileChange.FileChangeKeepsPollersConsistent | src/vogue.js:109-122 | the callback keeps registry and pollers in agreement: a deleted file loses its poller, an escalated one is re-polled at 100 ms |
| FileChange.TierNeverDrops | src/vogue.js:119-123 | no file still watched after a callback has gone from `hyperspeed` back to `normal` |
| FileChange.EscalationIdempotent | src/vogue.js:114-123 | a further change of a `hyperspeed` file only broadcasts, leaving the registry as it is |
| Walk.ChildPath | src/vogue.js:62 | a child's path starts with the directory's path followed by `/` |
| Walk.WalkListing | src/vogue.js:54-76 | the walk delivers one path per non-directory entry of the tree, each under the walked directory |
| Walk.WalkListingContents | src/vogue.js:54-76 | a path is delivered exactly when some entry of the tree that `stat` does not call a directory has that path |
| Walk.WalkListingAppend | src/vogue.js:59-74 | the walk follows listing order: the walk of `xs + ys` is the walk of `xs` followed by the walk of `ys` |
| Walk.WalkReportsNonDirectory | src/vogue.js:63-72 | every listed entry that `stat` does not report as a directory is delivered under its own path, and so is an entry whose `stat` failed |
| Walk.WalkIterative | src/vogue.js:54-76 | the walk with an explicit stack of pending listings delivers exactly the recursive walk's paths, in the same order |
| Roots.DirectoriesToWatch | src/vogue.js:202-214 | the roots are never empty, contain no `:`, and join back to the chosen path. The chosen path is the working directory with no argument, the argument itself when it starts with `/`, and `path.join(cwd, arg)` otherwise |
| Roots.RootCount | src/vogue.js:214 | there is one root per `:`-separated piece of the chosen path, and a path without `:` gives exactly one root, itself |
| Roots.OnlyFirstRootMadeAbsolute | src/vogue.js:205-214 | only the argument as a whole is tested for a leading `/`: in `a:b` with `a` absolute, `b` is taken as it stands and is not joined to the working directory |
| Watcher.StepPreservesInvariant | src/vogue.js:78-125 | a rescan callback or a poller callback preserves the watcher's invariant: only eligible paths are watched, and the pollers are exactly those of the watched paths at their tier's interval |
| Watcher.RunPreservesInvariant | src/vogue.js:235-236 | any sequence of rescan and poller callbacks preserves that invariant |
| Watcher.IneligibleNeverWatched | src/vogue.js:84-88 | a path that fails the extension filter never enters the registry, however many rescans and poller callbacks run |
| Watcher.DeletedThenRelisted | src/vogue.js:109-111 | a deleted file that shows up in a later listing is registered afresh at `normal`, whatever its tier was, and that root broadcasts once |

## Left out

- The HTTP handler, the client-script serving, and the socket.io and TLS server setup (lines 19-23, 37-52, 127-134). These are network plumbing; broadcasts appear only as `Emit` effects, with `sslConfigured` standing for `typeof socket_ssl !== 'undefined'`.
- Option parsing with `parseopt` (lines 136-200). It wraps a library that is not part of this model.
- The `fs.statSync` validation of each root and its `process.exit` (lines 216-228), and all `console.log` output. These are I/O and process control. The per-root count that line 99 logs is returned as `Scan.count`.
- Real timers: `setInterval` (line 236) and the `fs.watchFile` polling clock. Each callback is one atomic event, and a poller is only its interval.
- The interleaving of the roots' asynchronous walks. `Rescan.WatchAllFiles` takes the listings in the order the callbacks complete, which the model leaves to the caller.
- `fs.watchFile` semantics are assumed, not modelled from Node. A second `watchFile` on a polled path keeps the existing poller's interval, and `unwatchFile` stops it (`Registry.ApplyEffect`).
- FileChange.OnFileChange: on deletion, line 110 calls `fs.unwatchFile(this)`, where `this` is the `String` wrapper the poller was bound to (lines 87 and 121), not the path itself (line 120 passes `this.toString()`). The model emits `UnwatchFile(file)` with the path, so it assumes the runtime converts the wrapper to the path. A Node version that rejects a non-string argument with a `TypeError` would throw before `delete watching[file]` (line 111), leaving the entry and its poller in place; that behaviour is not modelled, and `FileChange.FileChangeKeepsPollersConsistent` rests on the same assumption.
- Roots.DirectoriesToWatch: `path.join` is a parameter, so its normalisation is not modelled.
- Walk.WalkListing: the walk's error paths are not modelled. These are a failing `readdir` (line 57), the ignored error of a nested walk (lines 65-66), and the resulting undefined `list` at line 83. Their behaviour depends on the JavaScript runtime.
- Walk.WalkListing: the early stop on an empty entry name (line 61) is not modelled, because `readdir` never lists an empty name. Symbolic-link cycles are not modelled either, because the tree is finite.
- `!watching[file]` (line 84) is modelled as "the path is not a key". The stored values are non-empty strings, and every walked path contains `/`, so no inherited object property can be mistaken for a watched path.
