/** The order kept on the lists of free hosts (ascending) and free room indices (descending). */
module Sorting {

  predicate Before(descending: bool, a: nat, b: nat) {
    if descending then a > b else a < b
  }

  /** Strictly ordered, hence also free of repetitions. */
  predicate Ordered(descending: bool, s: seq<nat>) {
    forall i, j :: 0 <= i < j < |s| ==> Before(descending, s[i], s[j])
  }

  function Insert(descending: bool, x: nat, s: seq<nat>): (r: seq<nat>)
    ensures forall y :: y in r <==> y in s || y == x
    ensures Ordered(descending, s) && x !in s ==> Ordered(descending, r)
  {
    if s == [] then [x]
    else if Before(descending, x, s[0]) then [x] + s
    else
      var t := Insert(descending, x, s[1..]);
      assert forall i :: 0 <= i < |t| ==> t[i] in t;
      [s[0]] + t
  }

  predicate NoDuplicates(s: seq<nat>) {
    forall i, j :: 0 <= i < j < |s| ==> s[i] != s[j]
  }

  /** sort.Slice: a permutation of the argument in the wanted order. */
  function Sort(descending: bool, s: seq<nat>): (r: seq<nat>)
    ensures forall y :: y in r <==> y in s
    ensures NoDuplicates(s) ==> Ordered(descending, r)
  {
    if s == [] then []
    else
      var n := |s| - 1;
      assert s == s[..n] + [s[n]];
      Insert(descending, s[n], Sort(descending, s[..n]))
  }

  lemma {:induction false} InsertAdds(descending: bool, x: nat, s: seq<nat>)
    ensures multiset(Insert(descending, x, s)) == multiset(s) + multiset{x}
  {
    if s != [] {
      assert s == [s[0]] + s[1..];
      InsertAdds(descending, x, s[1..]);
    }
  }

  /** Sorting permutes. */
  lemma {:induction false} SortPermutes(descending: bool, s: seq<nat>)
    ensures multiset(Sort(descending, s)) == multiset(s)
  {
    if s != [] {
      var n := |s| - 1;
      assert s == s[..n] + [s[n]];
      SortPermutes(descending, s[..n]);
      InsertAdds(descending, s[n], Sort(descending, s[..n]));
    }
  }

  /** A list without repetitions is no longer than a set that holds its elements. */
  lemma {:induction false} DistinctSize(s: seq<nat>, all: set<int>)
    requires NoDuplicates(s) && forall x :: x in s ==> x in all
    ensures |s| <= |all|
  {
    if s != [] {
      var n := |s| - 1;
      assert s[n] in s;
      forall x | x in s[..n] ensures x in all - {s[n]} {
        assert x in s;
      }
      DistinctSize(s[..n], all - {s[n]});
    }
  }
}
