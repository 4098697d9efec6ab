/**
 The retention decision: which entries of a listing are heap dumps, and which
 of those are excess for a given maximum dump count. It is a pure function of
 the listing; nothing carries over from one run to the next.
 */
module Retention {
  import opened Names
  import opened Sorting

  /** The heap dumps of a listing, in listing order. */
  function Dumps(listing: seq<string>): (r: seq<string>)
    ensures forall x :: x in r <==> x in listing && IsDump(x)
    ensures Distinct(listing) ==> Distinct(r)
  {
    if |listing| == 0 then []
    else if IsDump(listing[0]) then
      assert Distinct(listing) ==> listing[0] !in listing[1..] by {
        if Distinct(listing) {
          DistinctHead(listing);
        }
      }
      [listing[0]] + Dumps(listing[1..])
    else Dumps(listing[1..])
  }

  /** The heap dumps of a listing, largest name first: the effect of
      `sort.Sort(sort.Reverse(byName(heapDumpFiles)))`. */
  function SortedDumps(listing: seq<string>): (r: seq<string>)
    ensures |r| == |Dumps(listing)|
    ensures forall x :: x in r <==> x in listing && IsDump(x)
    ensures SortedDesc(r)
    ensures Distinct(listing) ==> Distinct(r) && StrictlyDesc(r)
  {
    var dumps := Dumps(listing);
    var sorted := SortDesc(dumps);
    assert |sorted| == |multiset(sorted)| == |multiset(dumps)| == |dumps|;
    SortDescElems(dumps);
    assert forall x :: x in sorted <==> x in Elems(sorted);
    assert Distinct(listing) ==> Distinct(sorted) && StrictlyDesc(sorted) by {
      if Distinct(listing) {
        SortDescDistinct(dumps);
        DistinctSortedIsStrict(sorted);
      }
    }
    sorted
  }

  /** The dumps to delete, in the order they are deleted: the heap dumps in
      descending name order, from position `limit - 1` on. Nothing is excess
      when the limit is 0 or when there are fewer dumps than the limit. At
      the limit itself one dump is excess: only `limit - 1` are kept. */
  function Excess(listing: seq<string>, limit: int): (victims: seq<string>)
    ensures limit < 1 || |Dumps(listing)| < limit ==> victims == []
    ensures 1 <= limit <= |Dumps(listing)| ==> |victims| == |Dumps(listing)| - limit + 1
    ensures forall v :: v in victims ==> v in listing && IsDump(v)
    ensures SortedDesc(victims)
    ensures Distinct(listing) ==> Distinct(victims)
  {
    if |Dumps(listing)| < limit || limit < 1 then []
    else
      var sorted := SortedDumps(listing);
      assert forall v :: v in sorted[limit - 1..] ==> v in sorted;
      sorted[limit - 1..]
  }

  /** How many heap dumps of the listing have a larger name than `name`. */
  function Rank(listing: seq<string>, name: string): nat {
    |Greater(Dumps(listing), name)|
  }

  /** The rank of a heap dump is its position in descending name order. */
  lemma RankIsPosition(listing: seq<string>, i: int)
    requires Distinct(listing) && 0 <= i < |SortedDumps(listing)|
    ensures Rank(listing, SortedDumps(listing)[i]) == i
  {
    var sorted := SortedDumps(listing);
    GreaterSameElems(Dumps(listing), sorted, sorted[i]);
    GreaterArePrefix(sorted, i);
    assert Distinct(sorted[..i]);
    DistinctCard(sorted[..i]);
  }

  /** Which entries are excess, said without any sorting: a heap dump is
      excess exactly when the limit is positive and reached, and at least
      `limit - 1` heap dumps have larger names than it. */
  lemma ExcessByRank(listing: seq<string>, limit: int, name: string)
    requires Distinct(listing)
    ensures name in Excess(listing, limit) <==>
      && name in listing
      && IsDump(name)
      && 1 <= limit <= |Dumps(listing)|
      && Rank(listing, name) >= limit - 1
  {
    if 1 <= limit <= |Dumps(listing)| && name in listing && IsDump(name) {
      var sorted := SortedDumps(listing);
      var i :| 0 <= i < |sorted| && sorted[i] == name;
      RankIsPosition(listing, i);
      var victims := sorted[limit - 1..];
      assert Excess(listing, limit) == victims;
      if i >= limit - 1 {
        assert victims[i - (limit - 1)] == name;
      } else {
        assert forall j :: 0 <= j < |victims| ==> victims[j] == sorted[j + limit - 1] != sorted[i];
      }
    }
  }

  /** Every heap dump that survives has a larger name than every one that
      goes: the `limit - 1` largest names are the ones kept. */
  lemma SurvivorsOutrankVictims(listing: seq<string>, limit: int, kept: string, gone: string)
    requires Distinct(listing)
    requires kept in listing && IsDump(kept) && kept !in Excess(listing, limit)
    requires gone in Excess(listing, limit)
    ensures Less(gone, kept)
  {
    var sorted := SortedDumps(listing);
    var i :| 0 <= i < |sorted| && sorted[i] == kept;
    var victims := sorted[limit - 1..];
    assert Excess(listing, limit) == victims;
    var j :| 0 <= j < |victims| && victims[j] == gone;
    assert sorted[j + limit - 1] == gone;
    assert i < limit - 1;
  }

  /** The decision depends on which names the directory holds, not on the
      order in which they are listed. */
  lemma ExcessIgnoresListingOrder(a: seq<string>, b: seq<string>, limit: int)
    requires Distinct(a) && Distinct(b) && Elems(a) == Elems(b)
    ensures Excess(a, limit) == Excess(b, limit)
  {
    var da, db := Dumps(a), Dumps(b);
    assert forall x :: x in a <==> x in Elems(a);
    assert forall x :: x in b <==> x in Elems(b);
    assert forall x :: x in da <==> x in db;
    assert Elems(da) == Elems(db);
    DistinctCard(da);
    DistinctCard(db);
    var sa, sb := SortedDumps(a), SortedDumps(b);
    assert forall x :: x in sa <==> x in sb;
    assert Elems(sa) == Elems(sb);
    StrictlyDescUnique(sa, sb);
  }
}
