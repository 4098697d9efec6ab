/**
 Names of directory entries: the order Go's `<` puts on strings, and the
 suffix test that marks an entry as a heap dump.

 Go compares strings byte by byte. A name here is a sequence of Unicode
 scalar values, standing for its UTF-8 encoding; UTF-8 byte order agrees
 with code-point order, so comparing element by element gives the same
 answer for every name that is valid UTF-8. Names that are not valid UTF-8
 have no counterpart here.
 */
module Names {

  /** The suffix every heap-dump file name carries. */
  const DumpSuffix: string := ".hprof"

  /** Go's `strings.HasSuffix`. */
  predicate HasSuffix(s: string, suffix: string) {
    |suffix| <= |s| && s[|s| - |suffix|..] == suffix
  }

  /** An entry is a heap dump exactly when its name ends in `.hprof`. */
  predicate IsDump(name: string) {
    HasSuffix(name, DumpSuffix)
  }

  /** Go's `a < b` on strings: lexicographic, and a proper prefix comes first.
      (Dafny's own `<` on sequences means "proper prefix" only.) */
  predicate Less(a: string, b: string)
    decreases |a|
  {
    if |a| == 0 then |b| != 0
    else if |b| == 0 then false
    else if a[0] != b[0] then a[0] < b[0]
    else Less(a[1..], b[1..])
  }

  lemma {:induction false} LessIrreflexive(a: string)
    ensures !Less(a, a)
    decreases |a|
  {
    if |a| != 0 {
      LessIrreflexive(a[1..]);
    }
  }

  lemma {:induction false} LessTransitive(a: string, b: string, c: string)
    requires Less(a, b) && Less(b, c)
    ensures Less(a, c)
    decreases |a|
  {
    if |a| != 0 && a[0] == b[0] && b[0] == c[0] {
      LessTransitive(a[1..], b[1..], c[1..]);
    }
  }

  /** Any two different names are ordered one way or the other. */
  lemma {:induction false} LessTotal(a: string, b: string)
    ensures a == b || Less(a, b) || Less(b, a)
    decreases |a|
  {
    if |a| != 0 && |b| != 0 && a[0] == b[0] {
      LessTotal(a[1..], b[1..]);
      if a[1..] == b[1..] {
        assert a == [a[0]] + a[1..];
        assert b == [b[0]] + b[1..];
      }
    }
  }

  lemma LessAsymmetric(a: string, b: string)
    requires Less(a, b)
    ensures !Less(b, a)
  {
    if Less(b, a) {
      LessTransitive(a, b, a);
      LessIrreflexive(a);
    }
  }

  /** "Not less than" is transitive too (it is the reflexive order `>=`). */
  lemma AtLeastTransitive(a: string, b: string, c: string)
    requires !Less(a, b) && !Less(b, c)
    ensures !Less(a, c)
  {
    if Less(a, c) {
      LessTotal(a, b);
      if Less(b, a) {
        LessTransitive(b, a, c);
      }
    }
  }
}
