/**
 The part of the filesystem the cleanup touches: what `Stat`, `ReadDir` and
 `Remove` report for the one configured folder. The concrete afero OS and
 in-memory filesystems are replaced by this state, and the failures they can
 produce become fields of it.
 */
module Filesystem {
  import opened Sorting

  /** What lies at the configured folder path. For a directory: its entry
      names as `ReadDir` lists them, whether `ReadDir` succeeds at all, and the
      names whose `Remove` reports an error (permissions, a busy file, ...). */
  datatype Folder =
    | Absent
    | RegularFile
    | Directory(entries: seq<string>, readable: bool, undeletable: set<string>)

  /** A directory never lists the same name twice. */
  predicate Valid(f: Folder) {
    f.Directory? ==> Distinct(f.entries)
  }

  /** The listing with the names in `gone` taken out, order otherwise kept. */
  function Without(s: seq<string>, gone: set<string>): (r: seq<string>)
    ensures forall x :: x in r <==> x in s && x !in gone
    ensures Distinct(s) ==> Distinct(r)
  {
    if |s| == 0 then []
    else if s[0] in gone then Without(s[1..], gone)
    else
      assert Distinct(s) ==> s[0] !in s[1..] by {
        if Distinct(s) {
          DistinctHead(s);
        }
      }
      [s[0]] + Without(s[1..], gone)
  }

  lemma {:induction false} WithoutNothing(s: seq<string>)
    ensures Without(s, {}) == s
  {
    if |s| != 0 {
      WithoutNothing(s[1..]);
      assert s == [s[0]] + s[1..];
    }
  }

  /** Taking names out one batch after another is taking out their union. */
  lemma {:induction false} WithoutTwice(s: seq<string>, a: set<string>, b: set<string>)
    ensures Without(Without(s, a), b) == Without(s, a + b)
  {
    if |s| != 0 {
      WithoutTwice(s[1..], a, b);
    }
  }

  datatype Removal = Removed(after: Folder) | RemoveFailed

  /** `fs.Remove(folder + "/" + name)` on a directory: it fails on a missing
      name and on an undeletable one, and otherwise drops that one entry. */
  function Remove(f: Folder, name: string): (r: Removal)
    requires f.Directory?
  {
    if name in f.entries && name !in f.undeletable then
      Removed(f.(entries := Without(f.entries, {name})))
    else
      RemoveFailed
  }
}
