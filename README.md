# debgitrepo core in Dafny

`main.go` is a periodic job. It mirrors the Debian `sid/main/binary-amd64`
package index into a git history, one commit per snapshot of
snapshot.debian.org. This project models the job's deterministic core and
proves properties of it:

- the source key of a binary package record, its shard and the file path of
  its group;
- the canonical order the index is sorted into;
- the loop that splits the sorted index into groups, one file per group;
- the file writes made without truncation, the emptying of the working tree
  and the commit;
- the interpretation of the archive's HEAD response (status, `Location`, the
  `20060102T150405Z` timestamp);
- the walker that advances six hours at a time through the snapshots.

Modules, in dependency order:

| file | module | models |
|---|---|---|
| common.dfy | `Common` | `Option`, `Result`, `byte` |
| text.dfy | `Text` | `SplitN(s, " ", 2)[0]`, `strings.Split`, a "/"-join, Go's `<` on strings |
| timestamp.dfy | `Timestamp` | formatting and parsing with the layout `20060102T150405Z` |
| index.dfy | `Index` | records, `sourceName`, `dirForSource`, the path, the sort comparator, the sort |
| grouping.dfy | `Grouping` | the groups the loop at main.go:216-228 forms, which ones it writes |
| snapshot.dfy | `Snapshot` | `closestSnapshotTime` and `streamPackages` over abstract requests |
| worktree.dfy | `Worktree` | class `Repo` (files, commits), `writeBinPkgs`, the grouping loop |
| walker.dfy | `Walker` | `run`: the start, the inner probe loop, the outer loop |

The imperative parts of the source are methods with loops:
- `writeBinPkgs` is `Worktree.Repo.WriteBinPkgs`;
- the grouping loop is `Worktree.Repo.MaterializeIndex`;
- the probe loop is `Walker.AdvanceFrom`;
- `run` is `Walker.Run`, and its outer loop is `Walker.Sweep`.

Each method is proved against a specification function, and lemmas prove what
the program promises about that function. Examples:
- `Grouping.Runs` and `Grouping.WrittenRuns` specify the grouping. They are
  unique (`Grouping.RunSplitUnique`), and the last group is never written
  (`Grouping.FinalGroupUnwritten`).
- `Worktree.WriteGroups` specifies the tree built from the groups.
- `Walker.Walk` and `Walker.ProcessSnapshot` specify the sequence of processed
  snapshots and what each one commits.

## Where the code decides

One would expect the groups to be maximal runs of records that share a derived
source key. The code instead compares the raw `Source` field with the group's
key (main.go:219). The model follows the code:
- a record whose `Source` is empty, or carries a ` (version)` suffix, always
  starts a new group (`Grouping.BreakersLeadGroups`);
- two adjacent groups can have one key and one file (`Grouping.SameKeyTwoGroups`).
  The second write then leaves the tail of the first
  (`Worktree.SharedFileKeepsStaleTail`).

The instant processed and named in the commit message is the probe `t2`, not
the instant it resolved to (main.go:181), and the model follows that too.

## Model

| member | source | states |
|---|---|---|
| Text.FirstToken | main.go:113 | the result is the prefix of the input before its first space: a prefix, without a space, followed by a space or the end |
| Text.Join | main.go:101-106 | `path.Join` on "/"-free elements, here and at main.go:119, and `filepath.Join` at main.go:76: the path starts with the first element; `Text.JoinShape` gives the separator, `Text.SplitJoin` splits the path back into the elements |
| Text.JoinShape | main.go:101-106 | a join of two or more elements is the first element, the separator, and the join of the rest |
| Text.Split | main.go:66 | at least one piece, no piece holds the separator, and joining the pieces gives the input back |
| Text.SplitJoin | main.go:66 | splitting a join of separator-free pieces gives the pieces back |
| Text.SplitHasTwoPieces | main.go:66-68 | a split has two or more pieces exactly when the separator occurs |
| Text.LexLess | main.go:200 | Go's `<` on strings, defined character by character; its meaning is stated by `Text.LexLessMeaning` |
| Text.LexLessMeaning | main.go:200 | Go's `<` on strings holds iff the first is a proper prefix or is smaller at the first difference |
| Text.LexIrreflexive | main.go:200 | no string is less than itself |
| Text.LexTransitive | main.go:200 | string order is transitive |
| Text.LexTotal | main.go:200 | of two distinct strings one is less |
| Timestamp.Format | main.go:35 | 16 characters: eight digits, `T`, six digits, `Z` |
| Timestamp.Parse | main.go:72 | a parsed time is a valid calendar time that formats back to the input |
| Timestamp.ParseFormat | main.go:35 | parsing a formatted valid time gives that time |
| Timestamp.FormatInjective | main.go:35 | distinct valid times format differently |
| Index.SourceName | main.go:108-114 | the key is the prefix before the first space of `Source`, or of `Package` when `Source` is empty |
| Index.VersionedSourceName | main.go:108-114 | a `Source` of `glibc (2.31-1)` gives the key `glibc` |
| Index.MissingSourceName | main.go:108-114 | a record with an empty `Source` is keyed by its package name |
| Index.PlainSourceName | main.go:108-114 | a plain `Source` of `glibc` is the key, whatever the package is called |
| Index.Shard | main.go:101-106 | the shard is a prefix of the key: 4 characters for `lib` keys, 1 otherwise |
| Index.DirForSource | main.go:101-106 | the directory splits into shard and key |
| Index.PathExamples | main.go:101-106 | `libfoo` shards to `libf`, `bash` to `b`, `glibc` goes in `g/glibc` |
| Index.BinaryPath | main.go:119 | the path splits into dist, component, shard, key, `binary-`arch |
| Index.BinaryPathInjective | main.go:119 | distinct keys have distinct paths |
| Index.RecordLess | main.go:196-206 | the `sort.Slice` closure: by key, then package, then version; its order properties are the `Record*` lemmas below |
| Index.RecordEquivalentMeaning | main.go:196-206 | two records compare equal iff key and package match and the versions compare equal |
| Index.RecordIrreflexive | main.go:196-206 | no record sorts before itself |
| Index.RecordTransitive | main.go:196-206 | the comparator is transitive |
| Index.RecordAsymmetric | main.go:196-206 | two records are never each before the other |
| Index.RecordOrderIsStrictWeak | main.go:196-206 | the comparator is a strict weak order when `version.Compare` is one |
| Index.NotLessTransitive | main.go:196-206 | "not before" is transitive |
| Index.SortedAllPairs | main.go:196-206 | in a sorted index no later record sorts before an earlier one |
| Index.Insert | main.go:196 | inserting adds exactly the record to the multiset |
| Index.InsertSorted | main.go:196-206 | inserting into a sorted index keeps it sorted |
| Index.SortIndex | main.go:196-206 | the result is a permutation of the parsed index and is sorted by (key, package, version) |
| Grouping.Joins | main.go:219 | a record joins the pending group only when its raw `Source` is non-empty and equal to the group's key |
| Grouping.JoinedKey | main.go:219 | a record that joins a group has the group's key as its own key |
| Grouping.Runs | main.go:216-228 | the groups concatenate to the index, are non-empty, members join their group, heads of later groups do not |
| Grouping.RunSplitUnique | main.go:216-228 | any split with those properties is `Runs` |
| Grouping.WrittenRuns | main.go:216-229 | the groups written are all groups but the last, in order |
| Grouping.WritablePrefix | main.go:222 | the groups written before the first whose key is too short to shard |
| Grouping.ScanBreak | main.go:219-226 | a record that does not join closes the pending group as the next written group and starts a new one with itself |
| Grouping.ScanPanic | main.go:219-222 | a record that does not join a pending group with too short a key makes that group the first written one that panics |
| Grouping.PrefixIsWritten | main.go:221-225 | the groups closed when a record breaks are the first groups written |
| Grouping.MembersShareKey | main.go:219-220 | every member after the first has a non-empty raw `Source`, without spaces, equal to the group's key |
| Grouping.BreakersLeadGroups | main.go:219-226 | a record with an empty or version-suffixed `Source` heads its group |
| Grouping.FinalGroupUnwritten | main.go:216-229 | written groups followed by the non-empty last group are the whole index |
| Grouping.SameKeyTwoGroups | main.go:219 | two adjacent records with one key can form two groups, and only the first is written |
| Snapshot.HeadUrl | main.go:35 | the probe URL is the archive root, the stamp and a trailing `/`; `Snapshot.HeadUrlExample` shows it |
| Snapshot.HeadUrlExample | main.go:35 | the stamp `20210801T023234Z` is probed at `https://snapshot.debian.org/archive/debian/20210801T023234Z/` |
| Snapshot.InterpretHead | main.go:47-72 | 200 means the input time; any other status but 301 is an error; an empty Location or an unparsable URL is an error; a path without `/` is an error; a redirect gives exactly the parsed second-to-last path piece, and an unparsable piece is an error naming it |
| Snapshot.ClosestSnapshotTime | main.go:29-73 | a failed request is an error; the errors of the response are passed on unchanged; a 200 returns the input; a 301 returns the instant the Location names |
| Snapshot.ClosestRedirect | main.go:47-72 | a 301 to `<dirs>/<formatted instant>/` resolves to that instant |
| Snapshot.RedirectRoundTrip | main.go:59-72 | a Location path ending in `<timestamp>/` resolves to that timestamp |
| Snapshot.NoTrailingSlashMisreads | main.go:66-72 | without the trailing slash the piece before the timestamp is parsed and rejected |
| Snapshot.IndexUrl | main.go:76 | the URL is the archive root followed by stamp, `dists`, dist, component, `binary-`arch, `Packages.xz` |
| Snapshot.StreamPackages | main.go:75-84 | a failed GET and a non-200 status are errors; a 200 gives the body |
| Worktree.WriteAt | main.go:132-136 | a write replaces the bytes from its offset, keeps those before and after, and grows the file when it runs past the end |
| Worktree.Overlay | main.go:123 | a file written without O_TRUNC holds the data followed by the old content beyond it |
| Worktree.EncodeAll | main.go:132-136 | the bytes written for a group: each record's encoding in order |
| Worktree.EncodeAllConcat | main.go:132-136 | encoding two record lists one after the other is the concatenation of their encodings |
| Worktree.OverlayThenWrite | main.go:123-136 | a write after an overlay is one overlay of the concatenated data |
| Worktree.WriteGroupsDomain | main.go:216-228 | the files after writing are the old ones and one per written group's path |
| Worktree.WriteGroupsElsewhere | main.go:119-136 | a path no group names is unchanged |
| Worktree.SoleGroupFile | main.go:119-136 | a group that alone has its path leaves its encoding over the old content |
| Worktree.FreshTreeFile | main.go:212-228 | on an emptied tree, the file of a key that one group has holds exactly the group's encoding |
| Worktree.SharedFileKeepsStaleTail | main.go:123 | two groups with one key leave the second encoding followed by the tail of the longer first |
| Worktree.CommitMessage | main.go:232 | the message is the literal `snapshot at %s` followed by the stamp; the `%s` stays |
| Worktree.CommitMessageExample | main.go:232 | the stamp `20210801T023234Z` gives `snapshot at %s20210801T023234Z` |
| Worktree.Repo.PlainInit | main.go:158-161 | fails when the repository exists; otherwise creates it with no commits |
| Worktree.Repo.RemoveAll | main.go:212-215 | the tree is empty |
| Worktree.Repo.WriteBinPkgs | main.go:116-139 | the group's file is the group's encoding over its old content; no other file changes |
| Worktree.Repo.AddAllAndCommit | main.go:229-235 | one commit recording the whole tree is appended |
| Worktree.Repo.MaterializeIndex | main.go:216-228 | the tree is the old one with the written groups written, up to the first whose key panics, and the panic is reported exactly then |
| Walker.ArchiveResolve | main.go:29-73 | `closestSnapshotTime` on instants, as `run` calls it at main.go:144 and 167: a failed HEAD is that failure, a 200 is the instant as the clock reads it back, and an error in the response is passed on, and a redirect is the instant it names as the clock reads it back |
| Walker.ResolveAsRequested | main.go:47-50 | a 200 answer resolves an instant to itself (for an instant the clock reads back from its calendar fields) |
| Walker.ResolveRequestFailed | main.go:41-43 | a failed HEAD leaves the instant unresolved with that failure |
| Walker.StopProbeUnique | main.go:166-180 | the first newer or failing probe is unique |
| Walker.AdvanceFrom | main.go:165-181 | the loop ends exactly when some probe `t + k*6h` (k >= 1) is the first to resolve past `t` or to fail (its only requirement); the result is that probe, processed if not after `end`, and the walk stops if it is |
| Walker.NewestSnapshotHangs | main.go:166-180 | when the archive answers every probe after its newest snapshot with that snapshot, and it lies within 6h after `t`, the probe `t + 6h` is processed next, and from it no probe is newer or fails |
| Walker.AdvanceWithin | main.go:166-180 | the loop with an `end` check on the stale branch too: it always ends, at the first stale probe past `end` at the latest, and a first newer probe within `end` is the one it returns |
| Walker.FetchIndex | main.go:183-206 | a failed fetch or parse stops `run` with that error; otherwise the index is a sorted permutation of the parsed one |
| Walker.ProcessSnapshot | main.go:183-236 | a snapshot stops `run` only by a failed fetch, a failed parse or a panic |
| Walker.CommittedIndex | main.go:212-235 | a committed snapshot records its message and the tree of its written groups |
| Walker.CommittedTreeDomain | main.go:212-235 | a committed tree's files are the paths of the written groups |
| Walker.CommittedTreeFile | main.go:212-235 | in a committed tree, the file of a key one written group has is that group's encoding |
| Walker.FetchAt | main.go:184-206 | the fetch, parse and sort give what `FetchIndex` says |
| Walker.ProcessAt | main.go:183-235 | one pass does what `ProcessSnapshot` says and appends exactly its commit; after a commit the tree is the committed one, a failed fetch or parse leaves the tree as it was, a panic on an empty index leaves it empty, and a panic on a short key leaves the groups before the panicking one written on an emptied tree |
| Walker.WalkAdvances | main.go:163-181 | every processed instant, the first included, lies a positive whole number of 6h steps after the one before (the resolved start for the first), resolves past it, and lies after the start and by `end` |
| Walker.WalkOrdered | main.go:163-181 | processed instants lie after the start and strictly increase |
| Walker.WalkIncreases | main.go:163-181 | processed instants strictly increase, lie after the start and by `end`, are whole steps of 6h apart, and resolve past the one before |
| Walker.WalkDeterministic | main.go:163-181 | the processed instants are determined by the archive's answers |
| Walker.RunHangsPastNewest | main.go:163-180 | on such an archive a walk whose last instant lies within 6h before the newest snapshot goes on to one more instant and reaches one the inner loop cannot leave |
| Walker.HangExample | main.go:163-180 | from instant 0, on an archive whose snapshots are the instants 0 to `Step + 1` (earlier probes resolve to 0, later ones to `Step + 1`), the walk processes `Step` and `2 * Step` and then cannot leave the inner loop |
| Walker.WalkStuck | main.go:163-180 | a walk of committed snapshots that reaches an instant the inner loop cannot leave breaks the condition under which `run` ends |
| Walker.Sweep | main.go:163-238 | on a fresh repository the processed instants form the walk, one commit per processed snapshot but a stopping one, a clean end exactly when the next newer probe is past `end`, and the tree left is as `FinalTree` says |
| Walker.Run | main.go:141-240 | start and init errors, which leave the tree as it was; otherwise the processed instants form the walk, one commit per processed snapshot but a stopping one, and a clean end exactly when the next newer probe is past `end`; the tree left is empty after a panic on an empty index, the groups written before a panic on a short key, and otherwise the tree of the last commit (or the tree found, when none); it requires only that the inner loop can be left at every instant a walk of committed snapshots reaches, which is when the source ends |

## Left out

- The HTTP client and its requests (main.go:30-44, 77-84) are not modelled. The HEAD and GET results are the parameters `head` and `get`.
- `url.Parse` (main.go:62) is not modelled: `urlPath` gives the path of a Location, or none.
- xz decompression (main.go:86) and `control.ParseBinaryIndex` (main.go:190) are the single parameter `unpack`. An xz reader that cannot be created counts as a parse failure.
- `control.Encoder` (main.go:128-135) is the parameter `encode`. Encoder errors are not modelled.
- Record fields other than Package, Source and Version are carried as opaque pairs.
- `version.Compare` (main.go:205) is the parameter `versionCmp`.
- Index.SortIndex: it requires the comparator to be a strict weak order, which it is for Debian version comparison.
- Index.SortIndex: it yields one sorted permutation, by insertion. `sort.Slice` is unstable and may order equivalent records differently. Such records can differ in raw `Source` and then group differently.
- Text.Join: it joins with "/" and does not clean the path as `path.Join` and `filepath.Join` do. So the path lemmas require keys and selector fields without "/".
- Index.Shard: it counts characters where Go slices bytes. The two differ only for non-ASCII keys.
- The calendar conversion behind `time.Time` is the parameter `clock`. It is required to give valid times (years 0 to 9999).
- Because of that bound, the model's clock maps some distinct instants to the same calendar time: only finitely many valid times exist. So `clock` cannot read every instant back from its calendar fields. `Walker.ResolveAsRequested` asks for that only of the instant it is about.
- `time.Now` is the parameter `now`.
- Time zones and sub-second time are not modelled. `time.Now()` (main.go:142) is local time, and main.go:35 formats it with a literal `Z`, so on a host outside UTC the first probe names another instant; `now` is whole seconds, so the fraction of a second `time.Now()` carries is dropped.
- Timestamp.Parse: it rejects the fractional seconds that `time.Parse` accepts after the seconds field.
- Walker.AdvanceFrom: it requires `StopsFrom`, that some probe is the first to be newer or to fail. That probe is the loop's only way out, so without it the source sends HEAD requests until the archive publishes a newer snapshot (see "## Findings").
- Walker.Run: it requires `WalkStops`, that the inner loop can be left at every instant a walk of committed snapshots reaches. The model does not describe a run that hangs.
- Walker.Sweep: it requires `WalkStops` as well, for the same reason.
- Walker.Run: it requires `resolve` to be `closestSnapshotTime` on instants. This ties the walker to `Snapshot.ClosestSnapshotTime`.
- Errors from `MkdirAll` and `OpenFile` (main.go:120-127) are not modelled.
- Errors from `repo.Worktree`, `Remove`, `AddWithOptions` and `Commit` (main.go:208-235) are not modelled. This includes any refusal of a commit that changes nothing.
- go-git internals are not modelled. A commit records the whole tree.
- Resource release is not modelled:
  - the body is not closed when the xz reader fails (main.go:86-88);
  - `defer r.Close()` piles up until `run` returns (main.go:188);
  - `defer f.Close()` (main.go:127).
- `fmt.Print(t)` (main.go:149) is left out, since it is printing. `log.Printf` (main.go:182) is stood for by the `processed` output of `Walker.Run`.
- The repository path (main.go:155) is the `Repo` object passed in. dist, component and arch are `Index.Configured`.
- Panics are `Panicked` outcomes:
  - an empty index (main.go:216) panics after the tree is emptied;
  - a key too short to shard (main.go:103, 105) panics after the earlier groups are written.
  - No commit follows either.

## Findings

| source | as written | input that shows it | evidently intended | confidence | as-written member | corrected member |
|---|---|---|---|---|---|---|
| main.go:166-180 | the inner loop checks `t2.After(end)` only when a probe resolves past `t`; a probe that resolves to `t` or earlier just moves on six hours | an archive whose newest snapshot L lies within six hours after a processed instant `t`, with `t + 6h` no later than `end`, and which answers every later probe with L: `t + 6h` is processed, and after it every probe resolves to L, so HEAD requests go on until the archive publishes a snapshot newer than `t + 6h` (for instance from instant 0, snapshots at every instant up to `Step + 1`) | stop once the probe is past `end`, whatever it resolves to | not executed; high, since `end` is the time the job started and an archive always has a newest snapshot | Walker.NewestSnapshotHangs | Walker.AdvanceWithin |

`Walker.RunHangsPastNewest` and `Walker.HangExample` carry the hang to walks of
`run`. `Walker.Run` keeps the loop as written, `Walker.AdvanceFrom`, and
requires the condition under which it ends.
