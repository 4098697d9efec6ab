/**
 The situations exercised by the repository's tests, as concrete runs: a
 folder `dumps` holding `1.hprof`, `2.hprof`, `3.hprof` and `not.a.dump`,
 and the variants the tests build from it.
 */
module Scenarios {
  import opened Names
  import opened Sorting
  import opened Filesystem
  import opened Retention
  import opened Cleanup

  const Listing: seq<string> := ["1.hprof", "2.hprof", "3.hprof", "not.a.dump"]

  function Dir(entries: seq<string>): Folder {
    Directory(entries, true, {})
  }

  lemma NamesOfTheTests()
    ensures IsDump("1.hprof") && IsDump("2.hprof") && IsDump("3.hprof")
    ensures !IsDump("not.a.dump")
    ensures Less("1.hprof", "2.hprof") && Less("2.hprof", "3.hprof") && Less("1.hprof", "3.hprof")
    ensures !Less("2.hprof", "1.hprof") && !Less("3.hprof", "2.hprof")
  {
    assert "1.hprof"[1..] == ".hprof";
    assert "2.hprof"[1..] == ".hprof";
    assert "3.hprof"[1..] == ".hprof";
    assert "not.a.dump"[4..][1] != ".hprof"[1];
  }

  lemma DumpsOfTheTests()
    ensures Dumps(Listing) == ["1.hprof", "2.hprof", "3.hprof"]
    ensures Dumps(["1.hprof", "2.hprof", "not.a.dump"]) == ["1.hprof", "2.hprof"]
    ensures Dumps(["2.hprof", "not.a.dump"]) == ["2.hprof"]
    ensures Dumps(["not.a.dump"]) == []
  {
    NamesOfTheTests();
    assert ["not.a.dump"][1..] == [];
    assert ["2.hprof", "not.a.dump"][1..] == ["not.a.dump"];
    assert ["1.hprof", "2.hprof", "not.a.dump"][1..] == ["2.hprof", "not.a.dump"];
    assert Listing[1..] == ["2.hprof", "3.hprof", "not.a.dump"];
    assert Listing[1..][1..] == ["3.hprof", "not.a.dump"];
    assert Listing[1..][1..][1..] == ["not.a.dump"];
  }

  lemma InsertStepsOfTheTests()
    ensures Insert("3.hprof", []) == ["3.hprof"]
    ensures Insert("2.hprof", ["3.hprof"]) == ["3.hprof", "2.hprof"]
    ensures Insert("1.hprof", ["2.hprof"]) == ["2.hprof", "1.hprof"]
    ensures Insert("1.hprof", ["3.hprof", "2.hprof"]) == ["3.hprof", "2.hprof", "1.hprof"]
  {
    NamesOfTheTests();
    assert ["3.hprof"][1..] == [];
    assert ["2.hprof"][1..] == [];
    assert ["3.hprof", "2.hprof"][1..] == ["2.hprof"];
  }

  lemma SortStepsOfTheTests()
    ensures SortDesc(["3.hprof"]) == ["3.hprof"]
    ensures SortDesc(["2.hprof"]) == ["2.hprof"]
    ensures SortDesc(["2.hprof", "3.hprof"]) == ["3.hprof", "2.hprof"]
  {
    InsertStepsOfTheTests();
    assert ["3.hprof"][1..] == [];
    assert ["2.hprof"][1..] == [];
    assert ["2.hprof", "3.hprof"][1..] == ["3.hprof"];
  }

  lemma SortOfTheTests()
    ensures SortedDumps(Listing) == ["3.hprof", "2.hprof", "1.hprof"]
    ensures SortedDumps(["1.hprof", "2.hprof", "not.a.dump"]) == ["2.hprof", "1.hprof"]
  {
    DumpsOfTheTests();
    InsertStepsOfTheTests();
    SortStepsOfTheTests();
    assert ["1.hprof", "2.hprof", "3.hprof"][1..] == ["2.hprof", "3.hprof"];
    assert ["1.hprof", "2.hprof"][1..] == ["2.hprof"];
  }

  lemma WithoutOfTheTests()
    ensures Without(Listing, {"3.hprof", "2.hprof", "1.hprof"}) == ["not.a.dump"]
    ensures Without(Listing, {"2.hprof", "1.hprof"}) == ["3.hprof", "not.a.dump"]
    ensures Without(Listing, {"3.hprof"}) == ["1.hprof", "2.hprof", "not.a.dump"]
    ensures Without(["1.hprof", "2.hprof", "not.a.dump"], {"1.hprof"}) == ["2.hprof", "not.a.dump"]
  {
    assert Listing[1..] == ["2.hprof", "3.hprof", "not.a.dump"];
    assert Listing[1..][1..] == ["3.hprof", "not.a.dump"];
    assert Listing[1..][1..][1..] == ["not.a.dump"];
    assert ["not.a.dump"][1..] == [];
    assert ["1.hprof", "2.hprof", "not.a.dump"][1..] == ["2.hprof", "not.a.dump"];
    assert ["2.hprof", "not.a.dump"][1..] == ["not.a.dump"];
  }

  lemma PathsOfTheTests()
    ensures Paths("dumps", ["3.hprof", "2.hprof", "1.hprof"]) == ["dumps/3.hprof", "dumps/2.hprof", "dumps/1.hprof"]
    ensures Paths("dumps", ["2.hprof", "1.hprof"]) == ["dumps/2.hprof", "dumps/1.hprof"]
    ensures Paths("dumps", ["1.hprof"]) == ["dumps/1.hprof"]
    ensures PathOf("dumps", "2.hprof") == "dumps/2.hprof"
  {
    assert PathOf("dumps", "3.hprof") == "dumps/3.hprof";
    assert PathOf("dumps", "2.hprof") == "dumps/2.hprof";
    assert PathOf("dumps", "1.hprof") == "dumps/1.hprof";
  }

  lemma FirstStuckOfTheTests()
    ensures FirstStuck(["3.hprof", "2.hprof", "1.hprof"], {}) == 3
    ensures FirstStuck(["3.hprof", "2.hprof", "1.hprof"], {"2.hprof"}) == 1
    ensures FirstStuck(["2.hprof", "1.hprof"], {}) == 2
    ensures FirstStuck(["1.hprof"], {}) == 1
  {
    var v: seq<string> := ["3.hprof", "2.hprof", "1.hprof"];
    assert v[1..] == ["2.hprof", "1.hprof"];
    assert v[1..][1..] == ["1.hprof"];
    assert v[1..][1..][1..] == [];
  }

  /** Without a folder name the run fails, whatever the folder holds. */
  lemma FolderNotSet(fs: Folder)
    ensures Run(fs, Config("", 1)) == (Err(ConfigFolderMissing), fs)
  {
  }

  lemma FolderDoesNotExist()
    ensures Run(Absent, Config("nope", 1)) == (Err(NotExist("nope")), Absent)
  {
  }

  lemma FolderIsRegularFile()
    ensures Run(RegularFile, Config("dumps", 1)) == (Err(NotDirectory("dumps")), RegularFile)
  {
  }

  lemma ExcessOfTheTests()
    ensures Excess(Listing, 1) == ["3.hprof", "2.hprof", "1.hprof"]
    ensures Excess(Listing, 2) == ["2.hprof", "1.hprof"]
    ensures Excess(["1.hprof", "2.hprof", "not.a.dump"], 2) == ["1.hprof"]
  {
    SortOfTheTests();
    DumpsOfTheTests();
  }

  /** A listed folder goes straight to the deletions of its excess dumps. */
  lemma RunOnListedFolder(fs: Folder, cfg: Config)
    requires Usable(fs, cfg)
    ensures Run(fs, cfg) == Deletion(fs, cfg.heapDumpFolder, Excess(fs.entries, cfg.maxDumpCount))
  {
  }

  /** When no victim is undeletable, all of them go and all paths are reported. */
  lemma DeletionOfAll(fs: Folder, folder: string, victims: seq<string>)
    requires fs.Directory?
    requires forall j :: 0 <= j < |victims| ==> victims[j] !in fs.undeletable
    ensures Deletion(fs, folder, victims) ==
      (Ok(Paths(folder, victims)), fs.(entries := Without(fs.entries, Elems(victims))))
  {
    FirstStuckAt(victims, fs.undeletable, |victims|);
    assert victims[..|victims|] == victims;
  }

  lemma DeletionOfThree()
    ensures Deletion(Dir(Listing), "dumps", ["3.hprof", "2.hprof", "1.hprof"]) ==
      (Ok(["dumps/3.hprof", "dumps/2.hprof", "dumps/1.hprof"]), Dir(["not.a.dump"]))
  {
    var three: seq<string> := ["3.hprof", "2.hprof", "1.hprof"];
    var fs := Dir(Listing);
    DeletionOfAll(fs, "dumps", three);
    assert Without(fs.entries, Elems(three)) == ["not.a.dump"] by {
      assert Elems(three) == {"3.hprof", "2.hprof", "1.hprof"};
      WithoutOfTheTests();
    }
    assert Paths("dumps", three) == ["dumps/3.hprof", "dumps/2.hprof", "dumps/1.hprof"] by {
      PathsOfTheTests();
    }
  }

  lemma DeletionOfTwo()
    ensures Deletion(Dir(Listing), "dumps", ["2.hprof", "1.hprof"]) ==
      (Ok(["dumps/2.hprof", "dumps/1.hprof"]), Dir(["3.hprof", "not.a.dump"]))
  {
    var two: seq<string> := ["2.hprof", "1.hprof"];
    var fs := Dir(Listing);
    DeletionOfAll(fs, "dumps", two);
    assert Without(fs.entries, Elems(two)) == ["3.hprof", "not.a.dump"] by {
      assert Elems(two) == {"2.hprof", "1.hprof"};
      WithoutOfTheTests();
    }
    assert Paths("dumps", two) == ["dumps/2.hprof", "dumps/1.hprof"] by {
      PathsOfTheTests();
    }
  }

  lemma DeletionOfOne()
    ensures Deletion(Dir(["1.hprof", "2.hprof", "not.a.dump"]), "dumps", ["1.hprof"]) ==
      (Ok(["dumps/1.hprof"]), Dir(["2.hprof", "not.a.dump"]))
  {
    var one: seq<string> := ["1.hprof"];
    var fs := Dir(["1.hprof", "2.hprof", "not.a.dump"]);
    DeletionOfAll(fs, "dumps", one);
    assert Without(fs.entries, Elems(one)) == ["2.hprof", "not.a.dump"] by {
      assert Elems(one) == {"1.hprof"};
      WithoutOfTheTests();
    }
    assert Paths("dumps", one) == ["dumps/1.hprof"] by {
      PathsOfTheTests();
    }
  }

  lemma FailingDeletionOfTheTests()
    ensures Deletion(Directory(Listing, true, {"2.hprof"}), "dumps", ["3.hprof", "2.hprof", "1.hprof"]) ==
      (Err(DeleteFailed("dumps/2.hprof")),
       Directory(["1.hprof", "2.hprof", "not.a.dump"], true, {"2.hprof"}))
  {
    FirstStuckOfTheTests();
    WithoutOfTheTests();
    PathsOfTheTests();
    var three: seq<string> := ["3.hprof", "2.hprof", "1.hprof"];
    assert three[..1] == ["3.hprof"];
    assert Elems(["3.hprof"]) == {"3.hprof"};
  }

  /** With a maximum of one dump, all three dumps go; `not.a.dump` stays. */
  lemma ThreeDumpsMaxOne()
    ensures Run(Dir(Listing), Config("dumps", 1)) ==
      (Ok(["dumps/3.hprof", "dumps/2.hprof", "dumps/1.hprof"]), Dir(["not.a.dump"]))
  {
    RunOnListedFolder(Dir(Listing), Config("dumps", 1));
    ExcessOfTheTests();
    DeletionOfThree();
  }

  /** With a maximum of two dumps, `1.hprof` and `2.hprof` go. */
  lemma ThreeDumpsMaxTwo()
    ensures Run(Dir(Listing), Config("dumps", 2)) ==
      (Ok(["dumps/2.hprof", "dumps/1.hprof"]), Dir(["3.hprof", "not.a.dump"]))
  {
    RunOnListedFolder(Dir(Listing), Config("dumps", 2));
    ExcessOfTheTests();
    DeletionOfTwo();
  }

  /** Two dumps and a maximum of two: the first run deletes `1.hprof`, the
      second deletes nothing. */
  lemma RepeatedInvocations()
    ensures Run(Dir(["1.hprof", "2.hprof", "not.a.dump"]), Config("dumps", 2)) ==
      (Ok(["dumps/1.hprof"]), Dir(["2.hprof", "not.a.dump"]))
    ensures Run(Dir(["2.hprof", "not.a.dump"]), Config("dumps", 2)) ==
      (Ok([]), Dir(["2.hprof", "not.a.dump"]))
  {
    RunOnListedFolder(Dir(["1.hprof", "2.hprof", "not.a.dump"]), Config("dumps", 2));
    ExcessOfTheTests();
    DeletionOfOne();
    DumpsOfTheTests();
    NoExcessNoChange(Dir(["2.hprof", "not.a.dump"]), Config("dumps", 2));
  }

  /** Only `not.a.dump` and a maximum of three: nothing is deleted. */
  lemma NoDumps()
    ensures Run(Dir(["not.a.dump"]), Config("dumps", 3)) == (Ok([]), Dir(["not.a.dump"]))
  {
    DumpsOfTheTests();
    NoExcessNoChange(Dir(["not.a.dump"]), Config("dumps", 3));
  }

  /** A removal that fails stops the run: `3.hprof` is already gone,
      `2.hprof` cannot be removed, and `1.hprof` is never tried. */
  lemma RemovalFailsHalfway()
    ensures Run(Directory(Listing, true, {"2.hprof"}), Config("dumps", 1)) ==
      (Err(DeleteFailed("dumps/2.hprof")),
       Directory(["1.hprof", "2.hprof", "not.a.dump"], true, {"2.hprof"}))
  {
    RunOnListedFolder(Directory(Listing, true, {"2.hprof"}), Config("dumps", 1));
    ExcessOfTheTests();
    FailingDeletionOfTheTests();
  }
}
