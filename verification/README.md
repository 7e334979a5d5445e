# scanDup duplicate detection, modelled in Dafny

scanDup is a command-line tool written in Go. It walks a directory tree and
finds files with identical content. In each set of identical files it keeps
the oldest one. Every other file in the set is reported, deleted or moved to
a backup directory, depending on the mode. This project models the core of
`main.go`:

- `initFlag` validates the mode, the scan path and the backup path, and
  normalises the backup path (`Flags`).
- `imgMap.add` and `load` put every walked regular file into a bucket keyed
  by its decimal size (`ImgMaps`, `Decimal`, `Load`).
- `walk` skips one-file size buckets. It hashes the rest, regroups each
  bucket by digest, and runs the keep-oldest loop on every digest group of
  two or more files (`Walk`, `Selection`).
- The pure part of `dealWithDupFile` and `dealWithKeepFile` is modelled:
  - the report marker;
  - the action attempted;
  - the backup destination `backupPath + filepath.Base(path)`;
  - the effect of a group's dispatch on the set of existing paths
    (`Disposition`).

Files:

| file | contents |
|---|---|
| `wrappers.dfy` | `Option` and `Result` |
| `files.dfy` | `Img` (path plus file info), `UnixSeconds`, `ImgMap` |
| `decimal.dfy` | `%d` formatting of a size and its inverse |
| `imgmaps.dfy` | `Add`, plus grouping by a partial key as a fold of `Add` |
| `load.dfy` | the walk callback's filter and the size buckets |
| `selection.dfy` | the keep-oldest loop: a reference definition, the loop as a recursive function, and the loop as a method |
| `walk.dfy` | `walk`, with Go's map iteration order left open |
| `walk_properties.dfy` | properties of every `walk` report, plus the two-file scenarios end to end |
| `flags.dfy` | `initFlag` |
| `disposition.dfy` | markers, `filepath.Base`, and the effects of delete and backup |

Some Go behaviour is modelled as follows:

- **Map order.** Go visits map keys in an unspecified order. `Walk.Walk` and
  `Walk.ResolveBucket` choose each next key with `:|`, so their contracts
  hold for every visiting order.
- **The report.** `walk` produces a sequence of sections. Each section is a
  digest group: its size key, its digest and its disposition events. The
  report is characterised only up to order (`Walk.WalkReport`).
- **The oldest file.** `Files.UnixSeconds` is
  `ModTime().UTC().Unix()`: the modification time in nanoseconds, floored to
  whole seconds. Dafny's `/` floors for a positive divisor, like Go's `Unix()`.

Where a plain reading of the tool's behaviour and the code differ, the model
follows the code:

- **Whole seconds.** The code compares whole seconds with a strict `>`, not
  full timestamps. Two files modified within the same second are a tie, and
  the file met first in the group is kept even if the other is older by a
  fraction of a second (`Selection.SameSecondScenario`).
- **Ties.** Among files with the same oldest second, the first one in the
  group's order is kept (`Selection.IsFirstOldest`).
- **Empty backup path.** `initFlag` appends `/` to the backup path in every
  mode. An empty backup path outside backup mode therefore becomes `"/"`
  (`Flags.EmptyBackupPathOutsideBackup`).
- **Size buckets.** The code skips a size bucket only when `len(imgs) == 1`;
  a test for "two or more files" would also skip empty buckets. The model
  uses `!= 1`. `load` never produces an empty bucket (`Load.LoadBuckets`),
  so the two tests agree on its buckets.

## Model

| member | source | states |
|---|---|---|
| ImgMaps.Add | main.go:153-160 | adding under a key keeps the old bucket as a prefix, appends the images in order, creates the key if missing, and leaves every other key untouched |
| ImgMaps.AddTwice | main.go:153-160 | two adds under one key equal a single add of the concatenation |
| ImgMaps.AddCommutes | main.go:153-160 | adds under different keys commute, so the buckets do not depend on how walks to different keys interleave |
| ImgMaps.Select | main.go:114 | the members filed under a key are exactly the inputs whose key is that key |
| ImgMaps.SelectAppend | main.go:114 | appending one input extends the selection under its own key by that input, and leaves every other selection as it was |
| ImgMaps.GroupBy | main.go:107-115 | a fold of appends has exactly the keys of the inputs that have a key; each bucket holds those inputs in input order |
| ImgMaps.GroupByPartition | main.go:107-115 | every input with a key is in the bucket of that key, and only in buckets whose key it has |
| ImgMaps.GroupByPrefix | main.go:166-170 | grouping a prefix of the inputs gives buckets that are prefixes of the full grouping's buckets |
| Files.UnixSecondsFloor | main.go:129 | the whole second that contains the modification time: `Unix()` floors the nanosecond timestamp |
| Decimal.FormatInt | main.go:177 | `%d` output is non-empty, starts with '-' exactly for negative values, and is all digits otherwise |
| Decimal.ParseFormatNat | main.go:177 | reading back the decimal digits of a natural number gives the number |
| Decimal.ParseFormatInt | main.go:177 | reading back `%d` of any integer gives the integer |
| Decimal.FormatIntInjective | main.go:177 | two sizes have the same key exactly when they are equal |
| Load.LoadKey | main.go:172-181 | the callback yields a key exactly for the entries it records, and that key is the entry's size in decimal |
| Load.KeyAtRecorded | main.go:172-181 | the callback files an entry exactly when the entry is not the root, not named "." or "..", and not a directory; the entry's key is its size |
| Load.LoadBuckets | main.go:163-191 | every bucket member was walked, is recorded, and has the bucket's size; every recorded entry is in the bucket of its size; no bucket is empty |
| Load.LoadBucketOrder | main.go:177-180 | a bucket lists its files in walk order |
| Load.LoadBucketUnique | main.go:177-180 | a file sits in one bucket only, and files in one bucket have the same size |
| Load.LoadTruncated | main.go:166-190 | a walk cut short by an error keeps the buckets of the entries visited before it, each a prefix of the full walk's bucket |
| Selection.FirstOldest | main.go:124-138 | the reference definition of the kept index: the first index holding the earliest second |
| Selection.FirstOldestUnique | main.go:124-138 | at most one index is the first oldest |
| Selection.OldestReplace | main.go:129-131 | when the next file is strictly older in whole seconds, it becomes the first oldest of the longer prefix |
| Selection.OldestRetain | main.go:132-134 | when the next file is not older, the kept file stays the first oldest |
| Selection.CountStep | main.go:129-134 | whichever of the kept file and the next file is dispatched, each file of the longer prefix is still either dispatched or kept, exactly once |
| Selection.ScanGroup | main.go:124-138 | the loop over a group ends holding the index of the first oldest file |
| Selection.GroupTrace | main.go:124-138 | one event per member: duplicates only, then one `Keep` of the oldest file |
| Selection.ScanReplace | main.go:129-131 | the replacing step dispatches the old kept file and keeps the loop invariant |
| Selection.ScanRetain | main.go:132-134 | the retaining step dispatches the next file and keeps the loop invariant |
| Selection.ScanSound | main.go:124-138 | after the whole group, the loop keeps the first oldest file, and each other file has been dispatched as a duplicate exactly once |
| Selection.GroupTraceValid | main.go:124-138 | the loop's events make a valid dispatch: one event per member, every member once, all `Dup` events first, then a single `Keep` of the first oldest |
| Selection.KeepOldest | main.go:124-138 | the loop, `keepFile` sentinel included, emits the scan's trace, which is a valid dispatch |
| Selection.DupsAreTheOthers | main.go:124-138 | the `Dup` subjects are the group minus one copy of the kept file, and every member is the subject of some event |
| Selection.PairDispatch | main.go:124-138 | a valid dispatch of two files emits `Dup` of the other file, then `Keep` of the oldest |
| Selection.TwoFileScenario | main.go:129-134 | of two files a second or more apart, the newer is the duplicate and the older is kept, in either group order |
| Selection.SameSecondScenario | main.go:129 | of two files in the same second, the one met first is kept even if the other is older by a fraction of a second |
| Selection.PairTrace | main.go:124-138 | the exact events for a two-file group in group order, with ties resolved toward the first |
| Walk.ResolveBucket | main.go:117-140 | for any visiting order of `md5s`, one section per digest group of two or more files, each a keep-oldest dispatch, with no digest twice |
| Walk.SkipBucket | main.go:101-104 | skipping a one-file bucket loses no duplicate group |
| Walk.Walk | main.go:98-142 | with one digest function for the whole run, for any visiting order of both maps: the size keys are visited once each, and the hashed files are the buckets whose length is not 1, concatenated in visiting order; each section dispatches a real duplicate group; no group appears twice; every duplicate group appears |
| Walk.EnumeratesSnoc | main.go:99 | visiting one more unvisited key extends a once-each listing of the visited keys |
| Walk.DigestGroupsSound | main.go:107-115 | every digest group is non-empty and holds exactly the bucket's files with that digest; a file whose digest failed is in no group, and every other file is in its digest's group |
| WalkProperties.SectionMembers | main.go:107-115 | every file named in a section is in the section's size bucket and has the section's digest |
| WalkProperties.DigestFailureNeverDispatched | main.go:109-112 | a file whose digest failed is never kept and never dispatched; every dispatched file came from a bucket whose length is not 1 |
| WalkProperties.SingletonBucketSilent | main.go:101-104 | a one-file size bucket produces no section |
| WalkProperties.SingletonNeverHashed | main.go:101-109 | on `load`'s buckets, the file of a one-file bucket is never hashed |
| WalkProperties.SectionUniform | main.go:107-122 | on `load`'s buckets, all files of a section have the same size and the same digest |
| WalkProperties.ReportStable | main.go:99-117 | with one digest function for the whole run (debug mode, or whenever no disposition changes a later digest), two runs that visit the maps in different orders report the same sections, possibly reordered |
| Scenarios.TwoFileBuckets | main.go:163-191 | `load` over a root and two equal-size files yields a single bucket holding both, in walk order |
| Scenarios.PairReport | main.go:98-142 | `walk` over that bucket, both files of one digest, reports exactly one section, whose events are the loop's trace |
| Scenarios.IdenticalFilesScenario | main.go:98-181 | identical files `a` and `b`, `b` newer by a second or more: the whole report is one section, `Dup(b)` then `Keep(a)` |
| Scenarios.DifferentFilesScenario | main.go:98-181 | equal-size files with different digests: the report is empty |
| Flags.ModeNameRoundTrip | main.go:14-18 | mode names and modes correspond one to one |
| Flags.WithTrailingSlash | main.go:51-53 | the result ends in '/', extends the input, and is at most one character longer |
| Flags.WithTrailingSlashIdempotent | main.go:51-53 | normalising twice equals normalising once; a path is left alone exactly when it already ends in '/' |
| Flags.InitFlag | main.go:24-56 | accepted exactly when the mode is set and known, the path is set, and backup mode has a backup path; the checks run in the source's order; an accepted configuration has the given mode and path and a '/'-terminated extension of the backup path |
| Flags.InitFlagStable | main.go:27-53 | feeding an accepted configuration back in accepts it unchanged |
| Flags.EmptyBackupPathOutsideBackup | main.go:45-53 | outside backup mode an empty backup path is accepted and becomes "/" |
| Disposition.DupMarker | main.go:68-93 | every mode has a one-character marker, and none is the kept file's "O" |
| Disposition.EventMarker | main.go:68-93 | a line is marked "O" exactly when it reports the kept file |
| Disposition.MarkersDistinct | main.go:68-93 | the markers "-", "X" and "M" identify the mode, and none is the kept file's "O" |
| Disposition.StripTrailingSlashes | main.go:82 | drops exactly the trailing '/' characters |
| Disposition.LastElement | main.go:82 | the longest suffix that contains no '/' |
| Disposition.Base | main.go:82 | `filepath.Base` gives "." for the empty path and "/" for a path of slashes only; otherwise, after the trailing slashes are dropped, it is the final element: a suffix free of '/', preceded by a '/' or by nothing |
| Disposition.BackupDestination | main.go:82 | the destination extends the backup path, and adds no '/' after it unless the base name is "/" |
| Disposition.BackupKeepsName | main.go:82 | the backup destination has the same base name as the moved file |
| Disposition.EventAction | main.go:92-94 | the kept file's event only reports; a duplicate's event takes the duplicate's action |
| Disposition.DupAction | main.go:70-87 | debug mode only reports, delete mode removes the file's own path, and backup mode renames the file to its backup destination |
| Disposition.Apply | main.go:74-86 | a removal drops exactly its target; a rename of a missing file changes nothing; a rename puts the destination in place, takes the source away, and leaves every other path alone |
| Disposition.Dispose | main.go:70-87 | dispatching a trace removes only paths of its duplicates and creates only their backup destinations |
| Disposition.DebugChangesNothing | main.go:71-72 | debug mode leaves every path as it was |
| Disposition.DeleteRemovesDups | main.go:74-79 | delete mode removes exactly the paths of the duplicates |
| Disposition.OthersAreDups | main.go:124-138 | every member other than the kept one is dispatched as a duplicate |
| Disposition.KeptIsNoDup | main.go:124-138 | in a group at distinct paths, the kept file's path is never dispatched as a duplicate |
| Disposition.DupPathsDistinct | main.go:124-138 | in a group at distinct paths, no path is dispatched twice |
| Disposition.DeleteKeepsOnlyOldest | main.go:74-79 | delete mode on a group at distinct paths leaves only the kept file of the group, and touches no path outside the group |
| Disposition.RenameStep | main.go:82-83 | one rename keeps every moved duplicate gone and every earlier destination present, and adds its own source to the gone paths and its destination to the present ones |
| Disposition.BackupKeepsOthers | main.go:70-87 | a path that no duplicate occupies survives the whole trace |
| Disposition.BackupMoves | main.go:81-86 | renaming a trace's duplicates one after another, with destinations outside the moved paths: no duplicate is left at its path, and every destination exists |
| Disposition.BackupMovesDuplicates | main.go:81-86 | backup mode on a group: the kept file stays, and every other member has left its path and sits at its backup destination |

## Left out

- Filesystem walking: `filepath.Walk`'s lexical order and its `os.FileInfo` values come in as the sequence of walked entries. A walk error is modelled as the prefix of entries visited before it (`Load.LoadTruncated`). Printing the error is not modelled.
- `md5File`: MD5, opening the file and `io.Copy` are a function parameter (`Walk.Hasher`) that returns a digest or `None`. The file handle the source never closes is not modelled.
- Output formatting: the `md5 <digest>` header, the blank line, `fmt.Printf`'s formats and `ModTime()` rendering are represented by the section and its events. The printed text is not modelled.
- `flag.Parse` and `flag.Usage`: `Flags.InitFlag` takes the three flag values as parameters and returns the error instead of printing it.
- `main`: running `walk(load(path))` only after `initFlag` succeeds is not modelled as its own member.
- `os.Remove` and `os.Rename` are modelled on the set of existing paths (`Disposition.Apply`). A remove or rename of a missing source changes nothing. Other failures, such as permissions or a missing backup directory, are not modelled. The error message printed on failure is not modelled.
- File contents are not modelled. Two duplicates with the same base name get the same backup destination, and the later rename replaces the earlier file; the model records only that the destination exists.
- Time zones: `UTC()` does not change the Unix seconds, so it is dropped. Timestamps are integer nanoseconds.
- Sizes: Go's `int64` size is an unbounded `int`. `%d` is modelled for every integer.
- `filepath.Base` is modelled for Unix paths. Windows volume names and backslashes are left out.
- Selection.KeepOldest: requires every path in the group to be non-empty. The Go loop uses an empty path to mean "no file kept yet", and `filepath.Walk` never yields an empty path for a non-empty root.
- Walk.Walk: requires every path in every bucket to be non-empty, for the same reason as `Selection.KeepOldest`.
- Walk.Walk: hashes every bucket with one fixed digest function for the whole run. In Go, the delete and backup actions of an earlier bucket can change what a later `md5File` reads (a symlink to a removed file, a rename into the scanned tree), so "every duplicate group appears" holds for Go only in debug mode or when no disposition changes a later digest.
- WalkProperties.ReportStable: rests on the same fixed digest function; with delete or backup actions that change a later bucket's digests, two visiting orders can report different sections.
- Walk.Walk: characterises the report up to order, because Go's map iteration order is unspecified. It does not fix one particular order.
- Disposition.BackupMovesDuplicates: assumes the group's paths are distinct and that no backup destination is a path of the group. It says nothing about two duplicates that share a destination.
