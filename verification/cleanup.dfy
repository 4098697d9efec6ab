/**
 The heap-dump cleanup routine: check the configuration, list the heap-dump
 folder, and delete the excess heap dumps one by one, stopping at the first
 deletion that fails.

 `Run` is the reference definition of one invocation as a pure function of
 the folder and the configuration; `CleanUp` is the routine itself, with its
 delete loop, proved to agree with `Run`. The lemmas after them state what a
 run promises.
 */
module Cleanup {
  import opened Names
  import opened Sorting
  import opened Filesystem
  import opened Retention

  /** The folder to clean and the maximum dump count, as read from
      `JMA_HEAP_DUMP_FOLDER` and `JMA_MAX_DUMP_COUNT`. */
  datatype Config = Config(heapDumpFolder: string, maxDumpCount: int)

  /** The kinds of error a run can end with; message texts are not modelled. */
  datatype CleanupError =
    | ConfigFolderMissing
    | NegativeLimit(count: int)
    | NotExist(folder: string)
    | NotDirectory(folder: string)
    | ReadDirFailed(folder: string)
    | DeleteFailed(path: string)

  datatype Result<T> = Ok(value: T) | Err(error: CleanupError)

  /** The path handed to `Remove` and reported back for one entry. */
  function PathOf(folder: string, name: string): string {
    folder + "/" + name
  }

  function Paths(folder: string, names: seq<string>): seq<string> {
    seq(|names|, i requires 0 <= i < |names| => PathOf(folder, names[i]))
  }

  /** Where a run of deletions over `victims` stops: the position of the
      first undeletable one, or `|victims|` when all of them can go. */
  function FirstStuck(victims: seq<string>, undeletable: set<string>): (k: nat)
    ensures k <= |victims|
    ensures forall j :: 0 <= j < k ==> victims[j] !in undeletable
    ensures k < |victims| ==> victims[k] in undeletable
  {
    if |victims| == 0 || victims[0] in undeletable then 0
    else 1 + FirstStuck(victims[1..], undeletable)
  }

  /** The configuration is accepted and the folder can be listed: the run
      gets as far as deciding what to delete. */
  predicate Usable(fs: Folder, cfg: Config) {
    && cfg.heapDumpFolder != ""
    && cfg.maxDumpCount >= 0
    && fs.Directory?
    && fs.readable
  }

  /** Removing `victims` from a directory one by one, in order: the ones in
      front of the first undeletable one are gone, the rest stay, and the
      result lists the removed paths or names the one that failed. */
  function Deletion(fs: Folder, folder: string, victims: seq<string>): (Result<seq<string>>, Folder)
    requires fs.Directory?
  {
    var k := FirstStuck(victims, fs.undeletable);
    var after := fs.(entries := Without(fs.entries, Elems(victims[..k])));
    if k == |victims| then (Ok(Paths(folder, victims)), after)
    else (Err(DeleteFailed(PathOf(folder, victims[k]))), after)
  }

  lemma DeletionOfNothing(fs: Folder, folder: string)
    requires fs.Directory?
    ensures Deletion(fs, folder, []) == (Ok([]), fs)
  {
    var none: seq<string> := [];
    assert FirstStuck(none, fs.undeletable) == 0;
    assert none[..0] == none && Elems(none) == {};
    WithoutNothing(fs.entries);
    assert Paths(folder, none) == [];
  }

  lemma PathsSnoc(folder: string, victims: seq<string>, i: int)
    requires 0 <= i < |victims|
    ensures Paths(folder, victims[..i + 1]) == Paths(folder, victims[..i]) + [PathOf(folder, victims[i])]
  {
  }

  /** One turn of the delete loop: with the first `i` victims gone, the next
      one is still listed, and removing it leaves the first `i + 1` gone. */
  lemma RemoveNext(fs: Folder, victims: seq<string>, i: int)
    requires fs.Directory? && Distinct(victims)
    requires forall v :: v in victims ==> v in fs.entries
    requires 0 <= i < |victims|
    ensures var before := fs.(entries := Without(fs.entries, Elems(victims[..i])));
      Remove(before, victims[i]) ==
        if victims[i] in fs.undeletable then RemoveFailed
        else Removed(fs.(entries := Without(fs.entries, Elems(victims[..i + 1]))))
  {
    var gone, x := Elems(victims[..i]), victims[i];
    DistinctPrefixExcludes(victims, i);
    assert x in fs.entries;
    assert x in Without(fs.entries, gone);
    WithoutTwice(fs.entries, gone, {x});
    ElemsPrefixSnoc(victims, i);
  }

  /** The delete loop stops at `i` when every victim in front of `i` can be
      removed and the one at `i`, if any, cannot. */
  lemma {:induction false} FirstStuckAt(victims: seq<string>, undeletable: set<string>, i: int)
    requires 0 <= i <= |victims|
    requires forall j :: 0 <= j < i ==> victims[j] !in undeletable
    requires i < |victims| ==> victims[i] in undeletable
    ensures FirstStuck(victims, undeletable) == i
    decreases i
  {
    if i != 0 {
      FirstStuckAt(victims[1..], undeletable, i - 1);
    }
  }

  /** One invocation: the result it reports and the folder it leaves. The
      checks come in the order the routine makes them, the first failing one
      decides the error, and none of them changes the folder. After a
      successful listing the excess dumps are removed in order up to the
      first one that cannot be removed. */
  function Run(fs: Folder, cfg: Config): (Result<seq<string>>, Folder) {
    var folder := cfg.heapDumpFolder;
    if folder == "" then (Err(ConfigFolderMissing), fs)
    else if cfg.maxDumpCount < 0 then (Err(NegativeLimit(cfg.maxDumpCount)), fs)
    else match fs
      case Absent => (Err(NotExist(folder)), fs)
      case RegularFile => (Err(NotDirectory(folder)), fs)
      case Directory(entries, readable, _) =>
        if !readable then (Err(ReadDirFailed(folder)), fs)
        else Deletion(fs, folder, Excess(entries, cfg.maxDumpCount))
  }

  /** The delete loop: remove each victim in turn, collect its path, and stop
      with an error at the first removal that fails. */
  method DeleteExcess(fs: Folder, folder: string, victims: seq<string>)
    returns (result: Result<seq<string>>, after: Folder)
    requires fs.Directory? && Distinct(victims)
    requires forall v :: v in victims ==> v in fs.entries
    ensures (result, after) == Deletion(fs, folder, victims)
  {
    after := fs;
    var deleted: seq<string> := [];
    var i := 0;
    WithoutNothing(fs.entries);
    assert Elems(victims[..0]) == {};
    while i < |victims|
      invariant 0 <= i <= |victims|
      invariant forall j :: 0 <= j < i ==> victims[j] !in fs.undeletable
      invariant deleted == Paths(folder, victims[..i])
      invariant after == fs.(entries := Without(fs.entries, Elems(victims[..i])))
    {
      var path := PathOf(folder, victims[i]);
      RemoveNext(fs, victims, i);
      var removal := Remove(after, victims[i]);
      if removal.RemoveFailed? {
        FirstStuckAt(victims, fs.undeletable, i);
        return Err(DeleteFailed(path)), after;
      }
      PathsSnoc(folder, victims, i);
      after := removal.after;
      deleted := deleted + [path];
      i := i + 1;
    }
    assert victims[..i] == victims;
    FirstStuckAt(victims, fs.undeletable, i);
    return Ok(deleted), after;
  }

  /** The routine: validation, the `.hprof` filter, the descending sort, and
      the delete loop over the slice from `maxDumpCount - 1` on. */
  method CleanUp(fs: Folder, cfg: Config) returns (result: Result<seq<string>>, after: Folder)
    requires Valid(fs)
    ensures (result, after) == Run(fs, cfg)
  {
    if cfg.heapDumpFolder == "" {
      return Err(ConfigFolderMissing), fs;
    }
    var folder := cfg.heapDumpFolder;
    var maxDumpCount := cfg.maxDumpCount;
    if maxDumpCount < 0 {
      return Err(NegativeLimit(maxDumpCount)), fs;
    }
    if fs.Absent? {
      return Err(NotExist(folder)), fs;
    }
    if fs.RegularFile? {
      return Err(NotDirectory(folder)), fs;
    }
    if !fs.readable {
      return Err(ReadDirFailed(folder)), fs;
    }
    var heapDumpFiles := Dumps(fs.entries);
    if |heapDumpFiles| < maxDumpCount || maxDumpCount < 1 {
      DeletionOfNothing(fs, folder);
      return Ok([]), fs;
    }
    var sorted := SortedDumps(fs.entries);
    var victims := sorted[maxDumpCount - 1..];
    assert victims == Excess(fs.entries, maxDumpCount);
    result, after := DeleteExcess(fs, folder, victims);
  }

  /** The run stops before deciding anything exactly when the configuration
      is rejected or the folder cannot be listed, and it then leaves the
      folder as it was. Each check reports its own error, and an earlier
      check wins: an empty folder name is reported whatever the limit and
      the folder, a negative limit whatever the folder. */
  lemma RejectedRunsTouchNothing(fs: Folder, cfg: Config)
    ensures !Usable(fs, cfg) <==> Run(fs, cfg).0.Err? && !Run(fs, cfg).0.error.DeleteFailed?
    ensures !Usable(fs, cfg) ==> Run(fs, cfg).1 == fs
    ensures Run(fs, cfg).0 == Err(ConfigFolderMissing) <==> cfg.heapDumpFolder == ""
    ensures Run(fs, cfg).0.Err? && Run(fs, cfg).0.error.NegativeLimit? <==>
      cfg.heapDumpFolder != "" && cfg.maxDumpCount < 0
    ensures Run(fs, cfg).0.Err? && Run(fs, cfg).0.error.NotExist? <==>
      cfg.heapDumpFolder != "" && cfg.maxDumpCount >= 0 && fs.Absent?
    ensures Run(fs, cfg).0.Err? && Run(fs, cfg).0.error.NotDirectory? <==>
      cfg.heapDumpFolder != "" && cfg.maxDumpCount >= 0 && fs.RegularFile?
    ensures Run(fs, cfg).0.Err? && Run(fs, cfg).0.error.ReadDirFailed? <==>
      cfg.heapDumpFolder != "" && cfg.maxDumpCount >= 0 && fs.Directory? && !fs.readable
  {
  }

  /** A listed folder is left alone, with an empty result, exactly when the
      limit is 0 or there are fewer heap dumps than the limit. */
  lemma NoExcessNoChange(fs: Folder, cfg: Config)
    requires Usable(fs, cfg)
    ensures Run(fs, cfg) == (Ok([]), fs) <==>
      cfg.maxDumpCount == 0 || |Dumps(fs.entries)| < cfg.maxDumpCount
  {
    var victims := Excess(fs.entries, cfg.maxDumpCount);
    if cfg.maxDumpCount == 0 || |Dumps(fs.entries)| < cfg.maxDumpCount {
      DeletionOfNothing(fs, cfg.heapDumpFolder);
    } else {
      assert |Paths(cfg.heapDumpFolder, victims)| == |victims| > 0;
    }
  }

  /** Whatever happens, nothing is added to the folder and every entry that
      is not a heap dump is still there afterwards. */
  lemma OnlyDumpsAreDeleted(fs: Folder, cfg: Config, name: string)
    requires fs.Directory?
    ensures Run(fs, cfg).1.Directory?
    ensures name in Run(fs, cfg).1.entries ==> name in fs.entries
    ensures name in fs.entries && !IsDump(name) ==> name in Run(fs, cfg).1.entries
  {
    if Usable(fs, cfg) {
      var victims := Excess(fs.entries, cfg.maxDumpCount);
      var k := FirstStuck(victims, fs.undeletable);
      assert forall v :: v in Elems(victims[..k]) ==> v in victims;
    }
  }

  /** A successful run reports the paths of the excess dumps, largest name
      first, and removes exactly those: an entry disappears exactly when it
      is a heap dump, the limit is positive and reached, and at least
      `limit - 1` heap dumps have larger names. */
  lemma SuccessfulRunRemovesExcess(fs: Folder, cfg: Config, name: string)
    requires Valid(fs) && Run(fs, cfg).0.Ok?
    ensures fs.Directory?
    ensures Run(fs, cfg).0.value == Paths(cfg.heapDumpFolder, Excess(fs.entries, cfg.maxDumpCount))
    ensures name in fs.entries ==>
      (name !in Run(fs, cfg).1.entries <==>
        && IsDump(name)
        && 1 <= cfg.maxDumpCount <= |Dumps(fs.entries)|
        && Rank(fs.entries, name) >= cfg.maxDumpCount - 1)
  {
    var victims := Excess(fs.entries, cfg.maxDumpCount);
    assert victims[..|victims|] == victims;
    ExcessByRank(fs.entries, cfg.maxDumpCount, name);
  }

  /** Taking heap dumps out of a listing lowers its dump count by as many. */
  lemma DumpsWithout(listing: seq<string>, gone: set<string>)
    requires Distinct(listing) && gone <= Elems(Dumps(listing))
    ensures |Dumps(Without(listing, gone))| == |Dumps(listing)| - |gone|
  {
    var before, left := Dumps(listing), Dumps(Without(listing, gone));
    assert Elems(left) == Elems(before) - gone by {
      forall x ensures x in left <==> x in before && x !in gone {
      }
    }
    DistinctCard(before);
    DistinctCard(left);
  }

  /** How many heap dumps a successful run leaves: `limit - 1` when the limit
      is positive and reached, otherwise all of them. With a positive limit
      that is always fewer than the limit. */
  lemma SuccessfulRunLeavesFewerThanLimit(fs: Folder, cfg: Config)
    requires Valid(fs) && Run(fs, cfg).0.Ok?
    ensures Valid(Run(fs, cfg).1)
    ensures |Dumps(Run(fs, cfg).1.entries)| ==
      if 1 <= cfg.maxDumpCount <= |Dumps(fs.entries)| then cfg.maxDumpCount - 1
      else |Dumps(fs.entries)|
  {
    var victims := Excess(fs.entries, cfg.maxDumpCount);
    assert victims[..|victims|] == victims;
    assert Run(fs, cfg).1.entries == Without(fs.entries, Elems(victims));
    assert Elems(victims) <= Elems(Dumps(fs.entries));
    DistinctCard(victims);
    DumpsWithout(fs.entries, Elems(victims));
  }

  /** Running again straight after a successful run, with the same
      configuration, deletes nothing and reports nothing. */
  lemma RunIsIdempotent(fs: Folder, cfg: Config)
    requires Valid(fs) && Run(fs, cfg).0.Ok?
    ensures Run(Run(fs, cfg).1, cfg) == (Ok([]), Run(fs, cfg).1)
  {
    SuccessfulRunLeavesFewerThanLimit(fs, cfg);
    NoExcessNoChange(Run(fs, cfg).1, cfg);
  }

  /** A failed deletion stops at the first undeletable victim and leaves the
      folder with exactly the victims in front of it taken out. */
  lemma FailedDeletion(fs: Folder, folder: string, victims: seq<string>)
    requires fs.Directory? && Deletion(fs, folder, victims).0.Err?
    ensures var k := FirstStuck(victims, fs.undeletable);
      && k < |victims|
      && victims[k] in fs.undeletable
      && Deletion(fs, folder, victims).0.error == DeleteFailed(PathOf(folder, victims[k]))
      && Deletion(fs, folder, victims).1 == fs.(entries := Without(fs.entries, Elems(victims[..k])))
  {
  }

  /** Taking out the first `k` victims removes them and keeps every other
      entry, the later victims included. */
  lemma PrefixTakenOut(entries: seq<string>, victims: seq<string>, k: int)
    requires Distinct(victims) && 0 <= k <= |victims|
    ensures forall j :: 0 <= j < k ==> victims[j] !in Without(entries, Elems(victims[..k]))
    ensures forall j :: k <= j < |victims| && victims[j] in entries ==>
      victims[j] in Without(entries, Elems(victims[..k]))
    ensures forall x :: x in entries && x !in victims ==> x in Without(entries, Elems(victims[..k]))
  {
    assert forall j :: 0 <= j < k ==> victims[j] in Elems(victims[..k]);
    assert forall j :: k <= j < |victims| ==> victims[j] !in Elems(victims[..k]);
    assert forall x :: x in Elems(victims[..k]) ==> x in victims;
  }

  /** When a removal fails the run stops there: the excess dumps in front of
      the failing one are gone, it and everything after it are still there,
      the error names its path, and nothing else about the folder changes. */
  lemma FailedRemovalStopsTheRun(fs: Folder, cfg: Config)
    requires Valid(fs) && Run(fs, cfg).0.Err? && Run(fs, cfg).0.error.DeleteFailed?
    ensures fs.Directory?
    ensures var victims := Excess(fs.entries, cfg.maxDumpCount);
      exists k ::
        && 0 <= k < |victims|
        && victims[k] in fs.undeletable
        && Run(fs, cfg).0.error.path == PathOf(cfg.heapDumpFolder, victims[k])
        && Run(fs, cfg).1 == fs.(entries := Without(fs.entries, Elems(victims[..k])))
        && (forall j :: 0 <= j < k ==> victims[j] !in Run(fs, cfg).1.entries)
        && (forall j :: k <= j < |victims| ==> victims[j] in Run(fs, cfg).1.entries)
    ensures Run(fs, cfg).1.readable == fs.readable
    ensures Run(fs, cfg).1.undeletable == fs.undeletable
    ensures forall x :: x in fs.entries && x !in Excess(fs.entries, cfg.maxDumpCount) ==>
      x in Run(fs, cfg).1.entries
  {
    RejectedRunsTouchNothing(fs, cfg);
    var victims := Excess(fs.entries, cfg.maxDumpCount);
    var k := FirstStuck(victims, fs.undeletable);
    assert Run(fs, cfg) == Deletion(fs, cfg.heapDumpFolder, victims);
    FailedDeletion(fs, cfg.heapDumpFolder, victims);
    PrefixTakenOut(fs.entries, victims, k);
  }
}
