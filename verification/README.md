# Atomic writer model

A Dafny model of the atomic directory projector in
`pkg/webhook/util/writer/atomic/atomic_writer.go`, the webhook's copy of the
Kubernetes atomic writer. `Write` projects a payload of files, keyed by
relative path, into a target directory. It does not write them in place:

- it materialises the payload in a fresh `..<timestamp>.<suffix>` directory;
- it creates one user-visible symlink `<name> -> ..data/<name>` per first
  path segment;
- it publishes the new directory by renaming a `..data_tmp` symlink over
  `..data`;
- it then prunes the user-visible paths that the previous snapshot held and
  the new payload no longer references, and removes the previous snapshot.

## How the model is built

- **Filesystem.** The filesystem is a finite map from slash-separated paths,
  relative to the target directory, to `File(data, mode)`, `Dir(mode)` or
  `Link(target)` (module `FileSystem`). The target directory itself is the
  implicit root.
- **Primitives.** Every primitive the code calls (`Readlink`, `Symlink`,
  `Rename`, `Remove`, `RemoveAll`, `MkdirAll`, `MkdirTemp`, `WriteFile`,
  `Chmod`, `Lstat`, `ReadFile`) is a pure function or predicate on that map.
  Each, except `Lstat`, takes a failure oracle `fails: set<Op>`: an
  operation in the set fails with an I/O error that is not "does not exist".
  Otherwise the outcome depends on the tree alone, with the error kinds of
  module `Errors`. A path below an entry that is not a directory is "not a
  directory" for `Lstat` and `ReadFile` (`FileSystem.Blocked`), not "does
  not exist".
- **Modes.** A requested `int32` mode becomes Go's 32-bit `os.FileMode`
  (`FileSystem.FileMode`). What reaches the disk is its permission bits plus
  the setuid, setgid and sticky bits moved to their POSIX positions, which
  is what Go's `os.WriteFile` and `os.Chmod` pass to the system
  (`FileSystem.SyscallMode`, `FileSystem.DiskMode`).
- **Map iteration.** Go's unordered map iteration is modelled by picking an
  arbitrary remaining key on every pass. Every contract therefore holds for
  every iteration order.
- **Modules.** The modules follow the file's structure:
  - `Paths`: splitting, joining, first segment, parent, ancestors.
  - `Validation`: `validatePath`, lexical cleaning, `validatePayload`.
  - `Differ`: `shouldWriteFile`, `shouldWritePayload`, `pathsToRemove`.
  - `Links`: `createUserVisibleFiles`, `removeUserVisiblePaths`.
  - `Materialize`: `newTimestampDir`, `writePayloadToDir`.
  - `Writer`: `NewAtomicWriter` and `Write`.
  - `Scenarios`: two concrete trees and payloads run through `Write`.
- **Phases of `Write`.** `Write` is split along the numbered steps of its own
  comment:
  - `Prepare`: steps 1-4, with `Compare` for steps 3-4.
  - `Stage`: steps 5-7, with `Populate` for steps 6-7.
  - `Swap`: steps 8-9.
  - `Prune`: steps 10-11.
  - `Commit` is `Stage` followed by `Publish`, where `Publish` is `Swap` then
    `Prune`.

## Behaviour as written

The model follows the code where it departs from the narrative in its
comments:

- If writing the payload fails, or creating a visible link fails, the new
  timestamped directory stays on disk. `Writer.Stage` ensures it is still
  there.
- A failed `Chmod` of a payload file is logged and ignored. Only `MkdirAll`
  and `WriteFile` errors end `writePayloadToDir` (`Materialize.WriteEntry`).
- If removing a stale visible path fails, `Write` returns before it removes
  the old snapshot (`Writer.Prune`).
- The path and name limits of `validatePath` compare Go's `len`, which
  counts the bytes of the UTF-8 encoding, not characters
  (`Validation.ByteLen`, `Validation.RejectsWideName`).
- `shouldWriteFile` reports a key's file as absent only when `os.Lstat`
  says it does not exist. When a new key needs a directory where the old
  snapshot holds a file (old file `a`, new key `a/b`), `Lstat` and
  `ReadFile` fail with "not a directory". The comparison then stops the
  write with that error and changes nothing, and every later write of the
  same payload stops the same way (`Scenarios.WriteStuckOnFile`).
- The reverse change fails the same way. With old key `a/b` and new key
  `a`, the old snapshot holds a directory at `a`, so `ReadFile` of it fails
  with "is a directory" (`FileSystem.ReadFile`). `Differ.Unreadable`
  captures it, and every write of that payload stops with the read error and
  changes nothing.
- A key that is a proper prefix of another (`a` and `a/b` in one payload)
  makes `writePayloadToDir` fail in either order: the file `a` blocks
  `MkdirAll`, or the directory `a` blocks `WriteFile`. The success condition
  of `Materialize.WritePayloadToDir` therefore asks for prefix-free keys.
- Validation looks at the raw key and cleaning happens afterwards. So
  `./..data` is accepted and stored under the reserved name `..data`
  (`Validation.DotSlashBypassesReservedPrefix`). As a consequence, the
  success guarantees of `Write` are stated under the hypothesis
  `Writer.Sane`:
  - the generated directory name is fresh: nothing lies at or inside it;
  - the old `..data` link points neither at `..data` itself nor at the
    generated name, and the old snapshot holds no top-level entry named
    `..data` or the generated name, which pruning would otherwise delete;
  - the old link target is a plain name (`Writer.PlainTarget`): no
    separator, and neither `.` nor `..`. The code removes the old snapshot
    at the target directory joined with that target, and `path.Join` cleans
    `.`, `..` or `x/..` to the target directory itself or to its parent.
- `filepath.Walk` in `pathsToRemove` never reports an error: its visitor
  ignores errors, and a missing root only reaches the visitor. So
  `Differ.PathsToRemove` has no error result.

## Model

| member | source | states |
|---|---|---|
| Writer.NewAtomicWriter | pkg/webhook/util/writer/atomic/atomic_writer.go:69-76 | construction fails exactly when the stat result is "does not exist", with that error; otherwise the writer is bound to the target directory |
| Validation.ValidatePath | pkg/webhook/util/writer/atomic/atomic_writer.go:248-278 | the result is `None` exactly when the declarative acceptance rule `ValidPath` holds; `Empty`, `Absolute` and `TooLong` are returned exactly when their rule is the first to fire; a `..`-element, long-name or reserved-prefix rejection implies that rule is violated (the reserved one only when no earlier rule is) |
| Validation.FirstBadItem | pkg/webhook/util/writer/atomic/atomic_writer.go:265-272 | the index found is the first segment that is `..` or longer than 255 bytes in UTF-8; all earlier segments pass both checks |
| Validation.ByteLenUniform | pkg/webhook/util/writer/atomic/atomic_writer.go:260-271 | the byte length the limits compare is the character count times the width when every character has the same UTF-8 width |
| Validation.RejectsWideName | pkg/webhook/util/writer/atomic/atomic_writer.go:269-271 | a name of 200 two-byte characters (400 bytes) is rejected as a too-long name |
| Validation.RejectsEmptyAndAbsolute | pkg/webhook/util/writer/atomic/atomic_writer.go:253-258 | `""` is rejected as empty and `/abs` as absolute |
| Validation.RejectsLongPathAndName | pkg/webhook/util/writer/atomic/atomic_writer.go:260-271 | a 4097-byte ASCII path is rejected as too long, and a single 256-byte ASCII name as a too-long name |
| Validation.RejectsDotDotElement | pkg/webhook/util/writer/atomic/atomic_writer.go:264-268 | `x/../y` is rejected for its `..` element |
| Validation.RejectsReservedName | pkg/webhook/util/writer/atomic/atomic_writer.go:273-275 | `..secret` is rejected for its reserved prefix |
| Validation.ValidatePayload | pkg/webhook/util/writer/atomic/atomic_writer.go:227-238 | fails exactly when some key is invalid, with that key's validation error; on success the result's keys are exactly the cleaned accepted keys and each value is the value of some input key that cleans to it |
| Validation.CleanIdempotent | pkg/webhook/util/writer/atomic/atomic_writer.go:234 | cleaning a cleaned key changes nothing |
| Validation.CleanKeepsLimits | pkg/webhook/util/writer/atomic/atomic_writer.go:230-234 | a cleaned accepted key is non-empty, relative, no longer than the raw key, and free of `..` elements and over-long names |
| Validation.CleanSegmentsFromRaw | pkg/webhook/util/writer/atomic/atomic_writer.go:234 | every segment of a cleaned key is a segment of the raw key |
| Validation.DotSlashBypassesReservedPrefix | pkg/webhook/util/writer/atomic/atomic_writer.go:230-234 | `./..data` passes validation, yet cleans to `..data`, whose first segment is reserved |
| Paths.JoinSplit | pkg/webhook/util/writer/atomic/atomic_writer.go:264 | joining the segments of a split with `/` gives back the string |
| Paths.SplitJoin | pkg/webhook/util/writer/atomic/atomic_writer.go:264 | splitting a `/`-join of separator-free pieces gives back the pieces |
| Paths.SplitPieces | pkg/webhook/util/writer/atomic/atomic_writer.go:264 | no segment of a split contains a separator |
| Paths.FirstSegment | pkg/webhook/util/writer/atomic/atomic_writer.go:418-422 | the link name of a key is separator-free, a prefix of the key, and the key's first `/`-segment |
| Paths.AncestorSetStep | pkg/webhook/util/writer/atomic/atomic_writer.go:338-342 | the ancestors of a non-empty path are the path itself plus the ancestors of its parent, as one pass of the ancestor loop computes |
| Differ.ShouldWriteFile | pkg/webhook/util/writer/atomic/atomic_writer.go:297-309 | `false` exactly when the file is readable with identical bytes; `true` exactly when `Lstat` reports it absent or it is readable with other bytes; an error, from the read, exactly when something unreadable is there or an ancestor is not a directory |
| Differ.ShouldWritePayload | pkg/webhook/util/writer/atomic/atomic_writer.go:281-294 | `false` exactly when every entry's old file holds identical bytes; `true` only if some entry is absent or differs; an error only from a read of some entry that is unreadable |
| Differ.AncestorClosure | pkg/webhook/util/writer/atomic/atomic_writer.go:338-342 | the ancestor loop terminates and collects exactly the key and all of its slash-ancestors |
| Differ.PathsToRemove | pkg/webhook/util/writer/atomic/atomic_writer.go:314-351 | the result is the old snapshot's relative paths minus every payload key and ancestor; every result path is on disk; no key or ancestor is in it; a missing old directory gives the empty set |
| Differ.SnapshotMember | pkg/webhook/util/writer/atomic/atomic_writer.go:316-327 | a path the walk reports names an entry inside the walked directory |
| Links.CreateUserVisibleFiles | pkg/webhook/util/writer/atomic/atomic_writer.go:416-436 | existing entries stay unchanged; the only new entries are links `name -> ..data/name` for link names of the payload; on success every key whose lookup went through has its link; it succeeds exactly when no link it must create (a looked-up name absent from the tree) has its creation made to fail, and an error is always such an injected failure of the link for some key whose name was absent |
| Links.RemoveUserVisiblePaths | pkg/webhook/util/writer/atomic/atomic_writer.go:440-455 | only removes; paths with a separator and paths not in the set stay; a separator-free path of the set stays exactly when it was there and not removable; no error exactly when every attempted removal succeeds, else the error names one that failed |
| Links.RemovableUnchanged | pkg/webhook/util/writer/atomic/atomic_writer.go:443-451 | removing earlier top-level entries does not change whether a later one can be removed, so the loop's order does not matter |
| FileSystem.FileMode | pkg/webhook/util/writer/atomic/atomic_writer.go:378 | the `int32` mode converts to the 32-bit unsigned value congruent to it modulo 2^32 |
| FileSystem.SyscallMode | pkg/webhook/util/writer/atomic/atomic_writer.go:388-397 | the mode passed to the system keeps the nine permission bits and carries Go's setuid, setgid and sticky flags (bits 23, 22, 20) as the POSIX bits 04000, 02000, 01000, and nothing else |
| FileSystem.DiskModeExamples | pkg/webhook/util/writer/atomic/atomic_writer.go:378-397 | mode 04755 reaches the disk as 0755, and mode -1 as 07777 |
| FileSystem.ReadFile | pkg/webhook/util/writer/atomic/atomic_writer.go:303 | succeeds exactly on a readable regular file, with its bytes; reports "does not exist" exactly when `Lstat` would; without an injected failure it reports "not a directory" below a non-directory and "is a directory" on a directory |
| Materialize.TsNameShape | pkg/webhook/util/writer/atomic/atomic_writer.go:355 | a generated directory name starts with `..` followed by a digit, has no separator, is top-level, and differs from `..data` and `..data_tmp` |
| Materialize.NewTimestampDir | pkg/webhook/util/writer/atomic/atomic_writer.go:354-371 | succeeds exactly when creation and chmod succeed, leaving a 0755 directory; a failed creation changes nothing; a failed chmod leaves a 0700 directory behind |
| Materialize.WriteEntry | pkg/webhook/util/writer/atomic/atomic_writer.go:376-401 | succeeds exactly when `EntryWritable` holds: the parents can be made (no injected `MkdirAll` failure, every existing ancestor a directory), the write is not made to fail, and the path is a regular file if present; a failure is the parent creation exactly when the parents cannot be made, and otherwise the write; only the file and the directories `MkdirAll` creates on the way to it (recorded as 0777) are added or changed; on success the file holds the bytes, with the requested mode unless a chmod of a pre-existing file failed |
| Materialize.WritePayloadToDir | pkg/webhook/util/writer/atomic/atomic_writer.go:375-404 | directories and non-target entries stay unchanged and new entries lie on the way to payload files; on success every key's file holds its bytes (and mode, as for `WriteEntry`); an error names the parent creation or write of some key; writing into an existing, empty, single-segment directory succeeds when no key is empty, `.` or a proper ancestor of another and no `MkdirAll` or `WriteFile` for a key is made to fail (`PayloadWritable`) |
| Materialize.TargetNotAbove | pkg/webhook/util/writer/atomic/atomic_writer.go:382-392 | among prefix-free keys, the file of one key is never a directory on the way to another's, so no `MkdirAll` meets a payload file and no `WriteFile` meets a created directory |
| Writer.Prepare | pkg/webhook/util/writer/atomic/atomic_writer.go:121-163 | an invalid key stops with its validation error; an unreadable `..data` link stops with the read error; an up-to-date old snapshot stops without error; otherwise the plan goes on with the cleaned payload, the old target and the stale set, unless a read error stops it; it goes on only if the comparison found something new (`NothingNew` fails) |
| Writer.Compare | pkg/webhook/util/writer/atomic/atomic_writer.go:143-163 | stops without error exactly when the old snapshot holds the payload and nothing stale; a stop with an error is a read error of an unreadable entry; it goes on only if some entry is absent or differs, or something is stale |
| Writer.Stage | pkg/webhook/util/writer/atomic/atomic_writer.go:165-184 | no existing entry outside the new directory changes; new entries are inside it or visible links `name -> ..data/name`; with a fresh name, success leaves it holding exactly the payload; any failure after creating the directory leaves it behind; it succeeds when the name is fresh, creating and chmod-ing it are not made to fail, the keys are writable into it and their links can be created (`StageClear`) |
| Writer.Populate | pkg/webhook/util/writer/atomic/atomic_writer.go:173-184 | once the directory exists: the tree outside it is kept, new entries are inside it or visible links `name -> ..data/name`, the directory stays, a fresh directory ends up holding exactly the payload on success, and an error is a failed parent creation, file write or link creation; it succeeds when the name is fresh, the keys are writable into it and their links can be created (`PopulateClear`) |
| Writer.OutsideKept | pkg/webhook/util/writer/atomic/atomic_writer.go:375-404 | writing the payload into a directory leaves every entry outside it as it was |
| Writer.FreshWritten | pkg/webhook/util/writer/atomic/atomic_writer.go:375-404 | a successful payload write into a fresh directory leaves it holding exactly the payload |
| Writer.LinksOutside | pkg/webhook/util/writer/atomic/atomic_writer.go:416-436 | creating the top-level links keeps the new snapshot intact |
| Writer.Swap | pkg/webhook/util/writer/atomic/atomic_writer.go:186-207 | succeeds exactly when `..data_tmp` can be created and renamed over `..data`, then `..data` alone changes to name the new directory; on a failure no existing entry outside the new directory changes, the new directory is removed unless that removal fails, and after a failed rename `..data_tmp` is removed unless that removal fails |
| Writer.Prune | pkg/webhook/util/writer/atomic/atomic_writer.go:209-221 | only removes; keeps everything that is neither a stale top-level path nor inside the old snapshot; succeeds exactly when every stale top-level path is removable and the old snapshot can be removed, leaving neither; a failed stale removal returns before the old snapshot is touched |
| Writer.SwapActive | pkg/webhook/util/writer/atomic/atomic_writer.go:200 | pointing `..data` at a directory holding the payload makes the payload live |
| Writer.SaneAvoids | pkg/webhook/util/writer/atomic/atomic_writer.go:209-221 | under `Sane`, neither `..data` nor the new directory is stale, and the old snapshot contains neither |
| Writer.PruneKeepsActive | pkg/webhook/util/writer/atomic/atomic_writer.go:209-221 | pruning that avoids `..data` and the new directory keeps the new payload live |
| Writer.VisibleKept | pkg/webhook/util/writer/atomic/atomic_writer.go:209-213 | pruning never removes the link of a key in the new payload (other than one named like the old snapshot) |
| Writer.CleanedRelative | pkg/webhook/util/writer/atomic/atomic_writer.go:227-238 | every key of a validated payload is non-empty and relative |
| Writer.Publish | pkg/webhook/util/writer/atomic/atomic_writer.go:186-223 | on a staged tree, `Committed`; in particular it succeeds under `CommitClear`, and a swap failure keeps every entry outside the new directory while removing that directory unless its removal fails |
| Writer.Retire | pkg/webhook/util/writer/atomic/atomic_writer.go:209-221 | after a successful swap, pruning keeps the promises of `Committed`, and succeeds when every stale top-level path and the old snapshot can be removed |
| Writer.SwapFailed | pkg/webhook/util/writer/atomic/atomic_writer.go:186-207 | a failed swap keeps the promises of `Committed`: the tree outside the new directory is kept and only the new directory and `..data_tmp` can have been added |
| Writer.RemovableKept | pkg/webhook/util/writer/atomic/atomic_writer.go:209-213 | a stale top-level path removable before staging is still removable after the new directory, its links and `..data` were added, since none of them lies inside it |
| Writer.StagedClear | pkg/webhook/util/writer/atomic/atomic_writer.go:186-213 | under `CommitClear`, the staged tree still lets the swap and the pruning of stale paths succeed |
| Writer.Commit | pkg/webhook/util/writer/atomic/atomic_writer.go:165-223 | `Committed`: under `Sane` the tree is kept or the new payload is live; on success under `Sane` the payload is live, `..data_tmp`, every stale top-level path and the old snapshot are gone; on success with a plain old target every visible link the lookups called for is present; swap failures remove the new directory and `..data_tmp` unless those removals fail; a failure after the new directory was made and before the swap (payload write, chmod, link creation) leaves it behind; a failure before pruning leaves every existing entry outside the new directory, `..data` included, as it was; the only entries ever added are inside the new directory, the two reserved links and visible links `name -> ..data/name`; and under `CommitClear` (`Sane`, `StageClear`, and `..data_tmp` absent and creatable, `..data` no directory, every stale top-level path and the old snapshot removable) it succeeds |
| Writer.Write | pkg/webhook/util/writer/atomic/atomic_writer.go:121-224 | the three early exits (invalid payload, unreadable `..data`, up-to-date snapshot) and a read error while comparing leave the tree unchanged with the matching result, and a read error needs an old snapshot; when the comparison finds nothing new the tree is unchanged and the result is success exactly when the snapshot is up to date, else a read error; under `Sane` the tree is kept or the new payload is live; once an update is needed, the outcome satisfies `Committed`; a valid payload over a readable link whose old files are all readable succeeds under `CommitClear` |
| Writer.ActiveIsUpToDate | pkg/webhook/util/writer/atomic/atomic_writer.go:143-161 | writing again is a no-op: once `..data` names a snapshot holding the payload and the link and files read, the old target is that snapshot and it is up to date |
| Writer.FootprintNotStale | pkg/webhook/util/writer/atomic/atomic_writer.go:314-351 | a snapshot whose every entry lies on the way to a key's file has nothing for `pathsToRemove` to report |
| Paths.AncestorBelow | pkg/webhook/util/writer/atomic/atomic_writer.go:338-342 | an ancestor of `dir/key` strictly inside `dir` is `dir/` followed by an ancestor of the key |
| Scenarios.StuckOnFile | pkg/webhook/util/writer/atomic/atomic_writer.go:297-309 | with old file `..ts1/a` and new key `a/b`, whatever the validator produces, the comparison finds nothing new, yet the snapshot is not up to date |
| Scenarios.WriteStuckOnFile | pkg/webhook/util/writer/atomic/atomic_writer.go:154-157 | writing `a/b` over that tree fails with a read error and leaves the tree exactly as it was |
| Scenarios.WriteIntoEmpty | pkg/webhook/util/writer/atomic/atomic_writer.go:121-224 | the first write of the payload `{a}` into an empty directory with no failures succeeds: `..data` names the new snapshot, which holds `a` with its bytes and disk mode, and `a` is the link `..data/a` |
| Scenarios.EmptyClear | pkg/webhook/util/writer/atomic/atomic_writer.go:165-221 | over the empty tree with no failures, nothing can stop the commit of a payload whose only key is `a` |

## Left out

- Real operating-system calls are replaced by the abstract filesystem and the failure oracle. An injected failure has no partial effect, including for `RemoveAll` and `MkdirAll`, which on a real system can stop half-way.
- The process umask is not modelled: every created entry is recorded with the mode requested. For a payload file this differs from the disk only when the `Chmod` that follows fails. The parent directories `MkdirAll` creates are recorded as 0777, but no chmod follows them, so on disk they get 0777 with the umask bits cleared.
- The Windows branch of step 9 (lines 195-198) is not modelled; the model follows the rename at line 200.
- Logging (`klog`) has no effect and is left out.
- Concurrent writers and crash states between steps are not modelled; the caller serialises writes.
- `filepath.Clean` is modelled only on relative paths without a `..` element, which are the only inputs it receives here.
- `filepath.Walk` is modelled by its result: every entry strictly inside a directory root, and nothing for a missing or non-directory root.
- Symlinks are never followed. The old `..data` target is used verbatim as a path relative to the target directory, which is what `path.Join` gives for a plain target (`Writer.PlainTarget`), and `ReadFile` of a link is an unreadable entry.
- `os.Stat` in `NewAtomicWriter` is a parameter: its error kind, or none.
- Clock and randomness are parameters. `Write` takes the timestamp and the `MkdirTemp` random suffix, and `MkdirTemp`'s retry on a taken name is not modelled: a taken name is an error.
- Writer.Write: the success guarantees are stated under `Sane` (a fresh generated name, and a plain old link to neither `..data` nor the generated name, whose snapshot holds neither name); without it the payload-bypass case above can make pruning delete the new `..data`, and a target such as `.` or `x/..` makes the code remove the target directory itself. The promise that every visible link is present after success likewise assumes a plain old target. Success itself is promised under the sufficient condition `CommitClear` with readable old files, not characterised exactly.
- Validation.ValidatePath: for the `..`-element and long-name rejections the contract states that the named rule is violated, not that it is the first violation met; `FirstBadItem` carries the ordering.
- Differ.ShouldWritePayload: a `true` answer implies that some entry differs, but not the converse, because an unreadable entry met earlier in the iteration answers with an error instead.
- Materialize.WritePayloadToDir: success is promised under the sufficient condition `PayloadWritable`. That a payload with a key that is a proper prefix of another always fails is not stated.
- Writer.Populate: success is promised under the sufficient condition `PopulateClear`, which asks for a fresh name; a run that succeeds by luck of the iteration order is not characterised.
- Writer.Stage: as for `Populate`, success is promised under the sufficient condition `StageClear`.
- Writer.Publish: success is promised under the sufficient condition `CommitClear` of `Committed`. That condition includes `Sane` and the staging conditions although the swap and pruning do not depend on all of them.
- Writer.Commit: success is promised under the sufficient condition `CommitClear`, not characterised exactly.
