/**
 Sequences of names and their descending order: what
 `sort.Sort(sort.Reverse(byName(files)))` produces. Go's `sort.Sort` is not
 stable, but the names in one directory are distinct, and a strictly
 descending sequence is determined by its elements (`StrictlyDescUnique`),
 so the result does not depend on how the sort is carried out.
 */
module Sorting {
  import opened Names

  predicate Distinct(s: seq<string>) {
    forall i, j :: 0 <= i < j < |s| ==> s[i] != s[j]
  }

  /** Largest name first; equal names may sit side by side. */
  predicate SortedDesc(s: seq<string>) {
    forall i, j :: 0 <= i < j < |s| ==> !Less(s[i], s[j])
  }

  /** Largest name first, no repetitions. */
  predicate StrictlyDesc(s: seq<string>) {
    forall i, j :: 0 <= i < j < |s| ==> Less(s[j], s[i])
  }

  function Elems(s: seq<string>): set<string> {
    set x | x in s
  }

  /** Puts `x` in front of the first element it is not less than. */
  function Insert(x: string, s: seq<string>): (r: seq<string>)
    ensures multiset(r) == multiset(s) + multiset{x}
  {
    if |s| == 0 || !Less(x, s[0]) then [x] + s
    else
      assert s == [s[0]] + s[1..];
      [s[0]] + Insert(x, s[1..])
  }

  lemma {:induction false} InsertSorted(x: string, s: seq<string>)
    requires SortedDesc(s)
    ensures SortedDesc(Insert(x, s))
  {
    if |s| == 0 || !Less(x, s[0]) {
      forall j | 0 <= j < |s|
        ensures !Less(x, s[j])
      {
        if j > 0 {
          AtLeastTransitive(x, s[0], s[j]);
        }
      }
    } else {
      var t := Insert(x, s[1..]);
      InsertSorted(x, s[1..]);
      forall k | 0 <= k < |t|
        ensures !Less(s[0], t[k])
      {
        assert t[k] in multiset(t);
        if t[k] == x {
          LessAsymmetric(x, s[0]);
        } else {
          assert t[k] in multiset(s[1..]);
          var j :| 0 <= j < |s[1..]| && s[1..][j] == t[k];
          assert s[j + 1] == t[k];
        }
      }
    }
  }

  lemma DistinctHead(s: seq<string>)
    requires Distinct(s) && |s| != 0
    ensures s[0] !in s[1..]
  {
    assert forall j :: 0 <= j < |s[1..]| ==> s[1..][j] == s[j + 1];
  }

  lemma {:induction false} InsertDistinct(x: string, s: seq<string>)
    requires Distinct(s) && x !in s
    ensures Distinct(Insert(x, s))
  {
    if |s| != 0 && Less(x, s[0]) {
      var t := Insert(x, s[1..]);
      InsertDistinct(x, s[1..]);
      DistinctHead(s);
      assert s[0] !in multiset(s[1..]) + multiset{x};
      assert s[0] !in t;
    }
  }

  /** Insertion sort into descending order: a sorted permutation of `s`. */
  function SortDesc(s: seq<string>): (r: seq<string>)
    ensures multiset(r) == multiset(s)
    ensures SortedDesc(r)
  {
    if |s| == 0 then []
    else
      var rest := SortDesc(s[1..]);
      InsertSorted(s[0], rest);
      assert s == [s[0]] + s[1..];
      Insert(s[0], rest)
  }

  lemma {:induction false} SortDescDistinct(s: seq<string>)
    requires Distinct(s)
    ensures Distinct(SortDesc(s))
  {
    if |s| != 0 {
      var rest := SortDesc(s[1..]);
      SortDescDistinct(s[1..]);
      DistinctHead(s);
      assert s[0] !in multiset(rest);
      InsertDistinct(s[0], rest);
    }
  }

  lemma SortDescElems(s: seq<string>)
    ensures Elems(SortDesc(s)) == Elems(s)
  {
    var r := SortDesc(s);
    forall x | x in r ensures x in s {
      assert x in multiset(r);
    }
    forall x | x in s ensures x in r {
      assert x in multiset(s);
    }
  }

  /** Without repetitions, "sorted" is "strictly sorted". */
  lemma DistinctSortedIsStrict(s: seq<string>)
    requires Distinct(s) && SortedDesc(s)
    ensures StrictlyDesc(s)
  {
    forall i, j | 0 <= i < j < |s|
      ensures Less(s[j], s[i])
    {
      LessTotal(s[i], s[j]);
    }
  }

  lemma StrictTail(a: seq<string>)
    requires StrictlyDesc(a) && |a| != 0
    ensures Elems(a[1..]) == Elems(a) - {a[0]}
  {
    LessIrreflexive(a[0]);
    forall x | x in a[1..] ensures x != a[0] {
      var k :| 0 <= k < |a[1..]| && a[1..][k] == x;
      assert Less(a[k + 1], a[0]);
    }
    forall x | x in a && x != a[0] ensures x in a[1..] {
      var k :| 0 <= k < |a| && a[k] == x;
      assert a[1..][k - 1] == x;
    }
  }

  /** Growing a prefix by one element adds that element to its set. */
  lemma ElemsPrefixSnoc(s: seq<string>, i: int)
    requires 0 <= i < |s|
    ensures Elems(s[..i + 1]) == Elems(s[..i]) + {s[i]}
  {
    assert s[..i + 1] == s[..i] + [s[i]];
  }

  /** Without repetitions, an element is not among the ones in front of it. */
  lemma DistinctPrefixExcludes(s: seq<string>, i: int)
    requires Distinct(s) && 0 <= i < |s|
    ensures s[i] !in Elems(s[..i])
  {
    forall x | x in s[..i] ensures x != s[i] {
      var j :| 0 <= j < i && s[..i][j] == x;
      assert s[j] == x;
    }
  }

  lemma HeadInElems(s: seq<string>)
    ensures |s| != 0 ==> s[0] in Elems(s)
  {
  }

  /** A strictly descending sequence is determined by its set of elements. */
  lemma {:induction false} StrictlyDescUnique(a: seq<string>, b: seq<string>)
    requires StrictlyDesc(a) && StrictlyDesc(b)
    requires Elems(a) == Elems(b)
    ensures a == b
    decreases |a|
  {
    HeadInElems(a);
    HeadInElems(b);
    if |a| != 0 && |b| != 0 {
      assert a[0] in Elems(b);
      assert b[0] in Elems(a);
      var i :| 0 <= i < |b| && b[i] == a[0];
      var j :| 0 <= j < |a| && a[j] == b[0];
      if i != 0 && j != 0 {
        LessAsymmetric(a[0], b[0]);
      }
      StrictTail(a);
      StrictTail(b);
      StrictlyDescUnique(a[1..], b[1..]);
      assert a == [a[0]] + a[1..];
      assert b == [b[0]] + b[1..];
    }
  }

  /** Without repetitions, a sequence has as many elements as its set. */
  lemma {:induction false} DistinctCard(s: seq<string>)
    requires Distinct(s)
    ensures |Elems(s)| == |s|
  {
    if |s| != 0 {
      DistinctCard(s[1..]);
      assert Elems(s) == {s[0]} + Elems(s[1..]);
      assert s[0] !in Elems(s[1..]);
    }
  }

  /** The elements of `s` with a larger name than `x`. */
  function Greater(s: seq<string>, x: string): set<string> {
    set m | m in s && Less(x, m)
  }

  lemma GreaterSameElems(a: seq<string>, b: seq<string>, x: string)
    requires forall m :: m in a <==> m in b
    ensures Greater(a, x) == Greater(b, x)
  {
  }

  /** In a strictly descending sequence exactly the elements in front of
      `s[i]` are greater than it. */
  lemma GreaterArePrefix(s: seq<string>, i: int)
    requires StrictlyDesc(s) && 0 <= i < |s|
    ensures Greater(s, s[i]) == Elems(s[..i])
  {
    forall m | m in s && Less(s[i], m) ensures m in s[..i] {
      var j :| 0 <= j < |s| && s[j] == m;
      if j >= i {
        if j == i {
          LessIrreflexive(s[i]);
        } else {
          LessAsymmetric(s[j], s[i]);
        }
        assert false;
      }
      assert s[..i][j] == m;
    }
    forall m | m in s[..i] ensures m in s && Less(s[i], m) {
      var j :| 0 <= j < i && s[..i][j] == m;
      assert s[j] == m;
    }
  }
}
