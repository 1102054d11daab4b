# wch: watch-list construction, modelled in Dafny

wch is a small kqueue-based file watcher written as one C file, `main.c`.
At start-up it parses its arguments into an exclude list and a command list.
It then walks the current directory depth-first and collects every regular
file that is not excluded into a watch list. It registers each file with
kqueue and loops forever, printing the name of every file that a batch of
events reports as written.

This project models the part of that program that is logic rather than
operating-system I/O:

- `str_list.dfy` (module `StrLists`): the append-only singly-linked string
  list (`struct str_list`, `struct str_node`, `str_list_create`,
  `str_list_append`). It is a class whose ghost `Contents` and `Nodes`
  mirror the node chain, with the object invariant `Valid()`. The same file
  holds `check`, the exact-match exclusion test that scans the chain.
- `paths.dfy` (module `Paths`): `strip_dot_slash`, and the
  `parent + "/" + name` join that `walk` builds in its path buffer.
- `walk.dfy` (module `Walker`): `walk` over an abstract directory tree.
  `Entry` stands for what `readdir` reports (`Reg` for `DT_REG`, `Dir` for
  `DT_DIR`, `Other` for every other `d_type`, symbolic links included).
  `Listing` is a directory's entries in `readdir` order, or `Unopenable`
  when `opendir` fails. `WalkFiles` is the pure specification. The method
  `Walk`, with `WalkEntries` as its `readdir` loop and `WalkEntry` as that
  loop's body, appends to a `StrList` and is proved to append exactly
  `WalkFiles`. `RunWalk` is the
  walk of `"."` with which `run` starts.
- `events.dfy` (module `Events`): the report step of `run`'s kevent loop.
  Of the first `nev` events, the ones whose `fflags` contain `NOTE_WRITE`
  are reported, in batch order.
- `arguments.dfy` (module `Arguments`): the `-x` handler's token-consuming
  loop and the collection of the remaining tokens as the command, including
  the "no command" error.

The model keeps to what `main.c` does, including what it does not do:
- `run` ignores its `dir` argument and always walks `"."`.
- No path is canonicalised.
- Duplicates are not removed.
- The loop only prints. The command list is collected, but no command is
  spawned, and there is no wait, detach or coalescing.

## Model

| member | source | states |
|---|---|---|
| StrLists.StrList.Valid | main.c:21-30 | the list header's invariant: `size` is the number of elements, and `head` and `tail` are null exactly when the list is empty |
| StrLists.StrList.constructor | main.c:32-38 | `str_list_create` yields an empty list: size 0, head and tail null |
| StrLists.StrList.Append | main.c:40-53 | `str_list_append` adds exactly one element, `p`, at the end: size grows by 1, `p` is the new tail, the earlier elements and their order are unchanged, and the head stays unless the list was empty |
| StrLists.Check | main.c:175-184 | `check` returns 1 if `path` is exactly equal to some element of the exclude list and 0 otherwise; there is no prefix or wildcard matching |
| Paths.StripDotSlash | main.c:163-168 | the result is a suffix of the input, two characters shorter exactly when the input is longer than 2 and starts with `./`, and otherwise the input itself (so `"./"` comes back unchanged) |
| Paths.ChildPath | main.c:78-95 | a child of `"."` with a non-empty name gets its bare name; a child of any other parent that does not start with `./` gets `parent + "/" + name` unchanged |
| Walker.WalkFiles | main.c:67-107 | an excluded directory, or one that cannot be opened, contributes nothing; any other directory contributes exactly the files of its entries, once each, in `readdir` order; no recorded path is in the exclude list |
| Walker.EntriesFiles | main.c:89-104 | no path recorded while reading a directory's entries is in the exclude list |
| Walker.EntryFiles | main.c:90-103 | `.`, `..` and entries that are neither directory nor regular file contribute nothing; any other regular file contributes exactly its joined path, stripped of a leading `./`, unless that path is excluded; any other directory contributes exactly the walk at its joined path; nothing recorded is excluded |
| Walker.EntriesFilesAppend | main.c:89-104 | depth-first enumeration order: the files for a run of entries are those of its first part followed by those of the rest, so a subdirectory's files come before any later sibling's |
| Walker.WalkFilesCount | main.c:67-107 | with no excludes, the walk records as many paths as there are regular files reachable through non-dot directory entries that can be opened |
| Walker.EntriesFilesCount | main.c:89-104 | the same count for a run of entries |
| Walker.EntryFilesCount | main.c:90-103 | the same count for a single entry |
| Walker.WalkFilesMembers | main.c:67-107 | a path is recorded exactly when it is the joined path of a non-dot regular file that is not excluded, reached from a directory that is not excluded and can be opened through non-dot subdirectories that are not excluded and can be opened |
| Walker.EntriesFilesMembers | main.c:89-104 | a path is recorded while reading a run of entries exactly when one of those entries reaches it |
| Walker.EntryFilesMembers | main.c:90-103 | a path is recorded for one entry exactly when that entry reaches it: the entry is a regular file at that path that is not excluded, or a directory whose walk reaches it |
| Walker.WalkFilesSubset | main.c:67-107 | as sets: every path recorded under an exclude list is also recorded with no excludes |
| Walker.EntriesFilesSubset | main.c:89-104 | the same for a run of entries |
| Walker.EntryFilesSubset | main.c:90-103 | the same for a single entry |
| Walker.WalkFilesSubsequence | main.c:67-107 | excluding paths only deletes paths: what is recorded under an exclude list is a subsequence of what is recorded with none, with the same order and no more repetitions |
| Walker.EntriesFilesSubsequence | main.c:89-104 | the same subsequence relation for a run of entries |
| Walker.EntryFilesSubsequence | main.c:90-103 | the same subsequence relation for a single entry |
| Walker.WalkFilesBeneath | main.c:67-107 | below a directory other than `"."` (and not starting with `./`), every recorded path begins with the directory's path followed by `/` |
| Walker.EntriesFilesBeneath | main.c:89-104 | the same for a run of entries |
| Walker.EntryFilesBeneath | main.c:90-103 | the same for a single entry |
| Walker.WalkDotNoDotSlash | main.c:94-97 | when the names directly under `"."` are non-empty and contain no `/`, no path recorded by the walk of `"."` starts with `./` |
| Walker.WalkFilesNoDuplicates | main.c:67-107 | on a tree whose listings have distinct, non-empty names without `/`, the walk from `"."` or from any path not starting with `./` records no path twice, whatever is excluded |
| Walker.EntriesFilesNoDuplicates | main.c:89-104 | the same for a run of entries with distinct plain names: the files of different entries never share a path |
| Walker.EntryFilesNoDuplicates | main.c:90-103 | the same for a single entry |
| Walker.Walk | main.c:67-107 | `walk` only appends to `flist`: the earlier contents stay as a prefix and the appended part is exactly `WalkFiles`; an excluded path leaves `flist` unchanged |
| Walker.WalkEntries | main.c:89-104 | `walk`'s `readdir` loop appends exactly `EntriesFiles` for the directory's entries, in order, and nothing else |
| Walker.WalkEntry | main.c:90-103 | one pass of `walk`'s `readdir` loop appends exactly `EntryFiles` for that entry |
| Walker.RunWalk | main.c:109-117 | `run`'s watch list is a fresh list holding exactly `WalkFiles` of `"."`, whatever `dir` is; its size is that sequence's length, a path is in it exactly when the walk of `"."` reaches a regular file at that path, and on a well-named tree no path is in it twice |
| Events.Changed | main.c:154-159 | reports at most one name per event |
| Events.ChangedAppend | main.c:154-159 | reporting two consecutive parts of a batch gives the report of the whole batch, in order |
| Events.ChangedMembers | main.c:154-159 | a name is reported exactly when some event of the batch has `NOTE_WRITE` in its `fflags` and carries that name |
| Events.ReportBatch | main.c:148-159 | a failed wait (`nev == -1`) reports nothing; otherwise the report is `Changed` of the first `nev` events |
| Arguments.OperandRun | main.c:207-211 | the number of tokens the `-x` loop takes is the longest run with no token starting with `-`, ending at the end of argv or at such a token |
| Arguments.StripAll | main.c:212-213 | one exclude per taken token |
| Arguments.StripAllAt | main.c:212-213 | each taken token is recorded with a leading `./` stripped, one for one and in order |
| Arguments.StripAllSnoc | main.c:207-214 | taking one more token records one more exclude at the end |
| Arguments.ExcludeOperands | main.c:205-214 | the excludes of one `-x`: one per token of that run, in order, each stripped of a leading `./` |
| Arguments.CollectExcludes | main.c:204-215 | the `-x` handler appends exactly `ExcludeOperands` from the rewound `optind`, and leaves `optind` just past the run |
| Arguments.CommandOutcome | main.c:226-236 | "no command" exactly when no token remains; otherwise the command is every remaining token, in order, and is non-empty |
| Arguments.CollectCommand | main.c:226-236 | with no token left, nothing is appended and the outcome is "no command" (exit status 1); otherwise every remaining token is appended, in order |
| Arguments.ExcludesSwallowTrailingOperands | main.c:205-236 | when no token after `-x` starts with `-`, the handler consumes the rest of argv, the intended command included, and main then finds no command. This contradicts the program's own usage line (main.c:197), `[-x exclude] command`, which presents `wch -x foo make` as a valid call |
| Arguments.JoinedOperandIgnored | main.c:204-214 | for the joined form `-xVALUE` the rewound `optind` lands on the option token itself, so nothing is recorded and `optind` is left on that token |
| Arguments.ExcludeOperandsFrom | main.c:204-214 | the corrected handler always records an operand that is not an option token, first, and at most one exclude per token from the operand on; its whole value on each form is pinned by `ExcludeOperandsFromCorrect` and `JoinedAsSeparate` |
| Arguments.ResumeIndexFrom | main.c:204-214 | the corrected handler leaves `optind` past a joined `-xVALUE` token, and never inside a run of operands; its exact value on each form is pinned by `ExcludeOperandsFromCorrect` and `JoinedAsSeparate` |
| Arguments.ExcludeOperandsFromCorrect | main.c:204-214 | on the separate form `-x VALUE` the corrected handler agrees with main.c's in both the excludes and the index where getopt resumes; on the joined form it records the operand that main.c's handler drops |
| Arguments.JoinedAsSeparate | main.c:204-214 | for a `VALUE` not starting with `-`, the joined form `-xVALUE` under the corrected handler records exactly the excludes that main.c's handler records for the separate form `-x VALUE`, and getopt resumes at the same token; an operand starting with `-` is outside this equivalence, since the corrected handler records it while main.c's records nothing for a separate `-x -foo` |

## Left out

- The kqueue setup, the registration loop (`open` of each watched file, `EV_SET`) and the endless `kevent` wait (main.c:117-152). These are operating-system event I/O and a non-terminating loop. Only the per-batch report is modelled, with the events as a parameter.
- `opendir`, `readdir` and `closedir`: replaced by the `Listing` tree. An `opendir` failure is `Unopenable` and yields nothing. Its diagnostic is not modelled.
- Real file systems: symbolic-link cycles cannot occur, because the tree is finite and `Other` entries are never followed.
- `DT_UNKNOWN`: a file system that does not fill in `d_type` makes every entry `Other`, and the walk records nothing for it.
- `str_list_free`, `malloc`, `strdup` and `free`: memory management with no observable result. The model's nodes hold string values, not copies.
- The `PATH_MAX` buffer and `strncpy` truncation in `walk`: paths are unbounded strings.
- The `int` width of `size`: overflow is not modelled.
- `getopt` itself: the `-d` option, whose value `run` ignores anyway; the `?` case; and the uninitialised `err`, whose test is undefined behaviour. Only the token-consuming loops after getopt returns are modelled, with `optind` as a parameter.
- `printf` and `fprintf` output: a batch's report is returned as a sequence of names.
- Process spawning, waiting, detaching, coalescing, canonicalisation and deduplication: `main.c` does none of them.

## Findings

| source | as written | input that shows it | evidently intended | confidence | as-written member | corrected member |
|---|---|---|---|---|---|---|
| main.c:204-214 | after `optind--` the handler starts at `argv[optind]`, assuming it is `optarg`; for the joined form the token there is the option itself | `wch -x./build make`: getopt returns `x` with `optarg` `./build` from the same token; the rewound `optind` lands on `-x./build`, which starts with `-`, so the loop records no exclude and leaves `optind` on that token. Inferred from the usual getopt implementation, not executed: the next getopt call reads `-x./build` again, returns `x` again, and the handler again stops at once, so option parsing never ends and wch hangs instead of merely dropping the exclude | the joined form records `build` and parsing continues after the token, as with `wch -x ./build ...` (for a value not starting with `-`) | medium; not executed | Arguments.JoinedOperandIgnored | Arguments.ExcludeOperandsFrom, Arguments.ResumeIndexFrom, Arguments.JoinedAsSeparate |
