# Heap-dump cleanup, modelled in Dafny

A model of the cleanup routine of the Java Memory Assistant: `CleanUp` in
`cleanup.go`. The routine keeps a folder of heap dumps from growing without
bound. It is given the folder (`JMA_HEAP_DUMP_FOLDER`) and a maximum dump
count (`JMA_MAX_DUMP_COUNT`), and it does the following:

1. It checks the configuration and the folder, in a fixed order, and the first failure wins: the folder name is set, the count is not negative, the folder exists, and it is a directory that can be listed.
2. It keeps the entries whose name ends in `.hprof`.
3. It sorts those names in descending order, using Go's string order.
4. It deletes every dump from position `maxDumpCount - 1` on, stopping at the first removal that fails.
5. It reports the deleted paths (`folder + "/" + name`) in deletion order.

The routine keeps only `maxDumpCount - 1` dumps, not `maxDumpCount`. A folder
holding exactly `maxDumpCount` dumps therefore loses one, and a count of 1
deletes every dump. A count of 0 disables the cleanup. The repository's tests
pin this behaviour down, and the model keeps it exactly. A second run straight
after a successful one deletes nothing, because at most `maxDumpCount - 1`
dumps are left (`SuccessfulRunLeavesFewerThanLimit`, `RunIsIdempotent`).

Files and modules:

- `names.dfy` (`Names`): the `.hprof` suffix test and Go's `<` on strings. That is lexicographic order with a proper prefix first, written out because Dafny's `<` on sequences means "proper prefix". It also proves that this is a strict total order.
- `sorting.dfy` (`Sorting`): descending insertion sort. A strictly descending sequence is determined by its elements, so Go's unstable `sort.Sort` gives one answer on the distinct names of a directory.
- `filesystem.dfy` (`Filesystem`): the folder as `Stat`, `ReadDir` and `Remove` see it. It is absent, a regular file, or a directory. A directory has a listing, a flag saying whether listing succeeds, and the set of names whose removal fails.
- `retention.dfy` (`Retention`): the decision. It computes the dumps of a listing, their descending order and the excess slice, and characterises the excess by rank without any sorting.
- `cleanup.dfy` (`Cleanup`): the configuration, the error kinds, the reference definition `Run` of one invocation, and the routine `CleanUp` with its delete loop, proved equal to `Run`. It also holds the lemmas stating what a run promises.
- `scenarios.dfy` (`Scenarios`): the situations of `cleanup_test.go`, as concrete runs.

## Model

| member | source | states |
|---|---|---|
| Names.LessIrreflexive | cleanup.go:52-54 | No name sorts before itself under the comparator `byName.Less`. |
| Names.LessTransitive | cleanup.go:52-54 | The name order used by the sort is transitive. |
| Names.LessTotal | cleanup.go:52-54 | Any two different names are ordered one way or the other, so the descending order of a folder's names is total. |
| Names.AtLeastTransitive | cleanup.go:52-58 | "Not less than", the order `sort.Reverse` sorts by, is transitive. |
| Sorting.SortDesc | cleanup.go:99 | The sort returns a permutation of its input (same multiset) in which no name is followed by a larger one. |
| Sorting.StrictlyDescUnique | cleanup.go:99 | Two strictly descending sequences with the same elements are equal. So the unstable `sort.Sort` has only one possible result on distinct names. |
| Retention.Dumps | cleanup.go:88-92 | An entry is kept by the filter exactly when it is listed and its name ends in `.hprof`. The filter keeps names distinct. |
| Retention.SortedDumps | cleanup.go:92-99 | The filtered and sorted dumps are exactly the listing's `.hprof` names, as many as the filter returned, largest first. They are strictly descending when the listing has no repeats. |
| Retention.Excess | cleanup.go:94-101 | The excess is empty when the limit is below 1 or above the dump count. Otherwise it holds `count - limit + 1` dumps of the listing, in descending order and without repeats. |
| Retention.ExcessByRank | cleanup.go:94-101 | A name is excess exactly when it is a listed dump, `1 <= limit <= count`, and at least `limit - 1` dumps have larger names. |
| Retention.SurvivorsOutrankVictims | cleanup.go:99-101 | Every dump that is kept has a larger name than every dump that is deleted. |
| Retention.ExcessIgnoresListingOrder | cleanup.go:83-101 | Two listings of the same distinct names give the same excess, in the same order. |
| Cleanup.FirstStuck | cleanup.go:101-106 | The loop stops at position k. Every victim before k can be removed, and the victim at k, if there is one, cannot. |
| Cleanup.RemoveNext | cleanup.go:101-104 | With the first `i` victims removed, removing victim `i` fails exactly when it is undeletable. Otherwise it leaves the first `i + 1` victims removed. |
| Cleanup.DeleteExcess | cleanup.go:98-111 | The delete loop builds each path as `folder + "/" + name` and removes victims in order. Its result and final folder equal the reference `Deletion`: every victim before the first undeletable one is gone and its path reported, or the run fails naming that victim's path. |
| Cleanup.CleanUp | cleanup.go:61-112 | The whole routine returns the same result and leaves the same folder as the reference definition `Run`, on every folder that lists no name twice. |
| Cleanup.RejectedRunsTouchNothing | cleanup.go:62-86 | The run fails before deleting exactly when the configuration or folder is unusable, and then changes nothing. Each check reports its own error kind, and earlier checks win: an empty folder name is reported whatever the limit. |
| Cleanup.NoExcessNoChange | cleanup.go:94-96 | A listed folder is returned unchanged with an empty result exactly when the limit is 0 or there are fewer dumps than the limit. |
| Cleanup.OnlyDumpsAreDeleted | cleanup.go:88-108 | After any run, every entry is one that was there before, and every non-dump entry is still there. |
| Cleanup.SuccessfulRunRemovesExcess | cleanup.go:99-111 | A successful run reports the excess paths in descending-name order. An entry disappears exactly when it is a dump, the limit is active and reached, and at least `limit - 1` dumps have larger names. |
| Cleanup.SuccessfulRunLeavesFewerThanLimit | cleanup.go:94-101 | After a successful run the folder still lists no name twice. It holds `limit - 1` dumps when `1 <= limit <= count`, and otherwise all of them. |
| Cleanup.RunIsIdempotent | cleanup.go:94-111 | An immediate second run with the same configuration after a successful run deletes nothing and reports an empty list. |
| Cleanup.FailedRemovalStopsTheRun | cleanup.go:101-106 | When a removal fails, the victims before it are gone, it and all later victims remain, and the error names its path. The folder is the original with exactly those earlier victims taken out: every entry that is not excess survives, and the `readable` flag and the undeletable names are unchanged. |
| Scenarios.FolderNotSet | cleanup_test.go:28-37 | Without a folder name the run fails with the folder-not-set error and changes nothing. |
| Scenarios.FolderDoesNotExist | cleanup_test.go:41-51 | A missing folder `nope` gives the does-not-exist error. |
| Scenarios.FolderIsRegularFile | cleanup_test.go:55-67 | A folder path that is a regular file gives the not-a-directory error. |
| Scenarios.ThreeDumpsMaxOne | cleanup_test.go:71-98 | With `1.hprof`, `2.hprof`, `3.hprof`, `not.a.dump` and a maximum of 1, the three dumps are deleted and `not.a.dump` stays. |
| Scenarios.ThreeDumpsMaxTwo | cleanup_test.go:100-111 | With a maximum of 2, `2.hprof` and `1.hprof` are deleted and `3.hprof` stays. |
| Scenarios.RepeatedInvocations | cleanup_test.go:114-151 | With two dumps and a maximum of 2, the first run deletes `1.hprof` and the second deletes nothing. |
| Scenarios.NoDumps | cleanup_test.go:155-175 | With only `not.a.dump` and a maximum of 3, nothing is deleted. |
| Scenarios.RemovalFailsHalfway | cleanup.go:101-106 | If `2.hprof` cannot be removed and the maximum is 1, `3.hprof` is gone, the error names `dumps/2.hprof`, and `1.hprof` is never tried. |

## Left out

- `main` is left out: environment-variable parsing, `log.Fatal` and printing the deleted paths (`cleanup.go:22-38`). The model's `Config` is the record that parsing produces.
- The afero OS and in-memory filesystems are left out. The model sees only the configured folder, through `Stat`, `ReadDir` and `Remove`. Their failures are inputs: the folder kind, the `readable` flag, and the `undeletable` names.
- The folder's listing is assumed to repeat no name (`Filesystem.Valid`, required by `CleanUp`). No directory can list a name twice.
- Error message texts and the `FileMode` rendering in the not-a-directory message are left out. Errors are kinds that carry the folder or path.
- `Stat` failures other than "does not exist" are left out. The code then dereferences a nil `FileInfo` (`cleanup.go:78`), which is a crash, not a result.
- Whether an `.hprof` entry is itself a directory is left out, since the filter does not look. A removal that fails for that reason is covered by `undeletable`.
- Changes made to the folder by other processes between listing and deletion are left out.
- Entry names that are not valid UTF-8 are not modelled. Go strings and Linux file names are arbitrary bytes, and `strings.HasSuffix` (`cleanup.go:89`) and `<` (`cleanup.go:53`) work on bytes. The model's names are sequences of Unicode scalar values, whose element order matches the byte order of their UTF-8 encoding.
- The model does not tell a nil slice from an empty one. Both are the empty sequence.
- `matchers/matchers.go` (a test matcher) and `cleanup_suite_test.go` (the test runner) are left out. They hold no logic of the routine.
- Go's `int` is 64 bits. The only arithmetic is `maxDumpCount - 1` with `maxDumpCount >= 1`, which cannot overflow, so unbounded integers are exact here.
