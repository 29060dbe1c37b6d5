/** Sequence utilities standing for the Kotlin collection operations the core uses. */
module Seqs {

  /** No element occurs twice. */
  predicate NoDuplicates<T(==,!new)>(s: seq<T>)
  {
    forall i, j :: 0 <= i < j < |s| ==> s[i] != s[j]
  }

  /** Kotlin's `distinct()`: the elements of `s`, each once, in order of first appearance. */
  function Distinct<T(==,!new)>(s: seq<T>): (r: seq<T>)
    ensures NoDuplicates(r)
    ensures forall x :: x in r <==> x in s
    ensures |r| <= |s|
  {
    if s == [] then []
    else
      var d := Distinct(s[..|s| - 1]);
      assert forall x :: x in s[..|s| - 1] ==> x in s;
      assert forall x :: x in s ==> x in s[..|s| - 1] || x == s[|s| - 1];
      if s[|s| - 1] in d then d else d + [s[|s| - 1]]
  }

  /** Distinct of a sequence that already has no duplicates is that sequence. */
  lemma {:induction false} DistinctOfNoDuplicates<T(!new)>(s: seq<T>)
    requires NoDuplicates(s)
    ensures Distinct(s) == s
  {
    if s != [] {
      var init := s[..|s| - 1];
      assert NoDuplicates(init);
      DistinctOfNoDuplicates(init);
      assert s[|s| - 1] !in init;
      assert init + [s[|s| - 1]] == s;
    }
  }

  /** The first element of `Distinct(s)` satisfying a property is the first element of `s` satisfying it:
      deduplication keeps first appearances, so it never reorders a first match. */
  lemma {:induction false} DistinctKeepsFirstMatch<T(!new)>(s: seq<T>, inSet: set<T>, k: nat)
    requires k < |Distinct(s)| && Distinct(s)[k] in inSet
    requires forall j :: 0 <= j < k ==> Distinct(s)[j] !in inSet
    ensures exists i :: 0 <= i < |s| && s[i] == Distinct(s)[k] && forall j :: 0 <= j < i ==> s[j] !in inSet
  {
    var init := s[..|s| - 1];
    var d := Distinct(init);
    if k < |d| {
      assert Distinct(s)[..|d|] == d;
      DistinctKeepsFirstMatch(init, inSet, k);
      var i :| 0 <= i < |init| && init[i] == d[k] && forall j :: 0 <= j < i ==> init[j] !in inSet;
      assert s[i] == init[i];
    } else {
      // the last element of s is new, so none of s's earlier elements is in `inSet`
      assert Distinct(s) == d + [s[|s| - 1]] && k == |d|;
      forall j | 0 <= j < |s| - 1
        ensures s[j] !in inSet
      {
        assert init[j] in d;
        var m :| 0 <= m < |d| && d[m] == init[j];
        assert Distinct(s)[m] == d[m];
      }
    }
  }

  /** `distinct()` of a sequence grown by one element: the element is appended unless already seen. */
  lemma DistinctSnoc<T(!new)>(s: seq<T>, x: T)
    ensures Distinct(s + [x]) == if x in s then Distinct(s) else Distinct(s) + [x]
  {
    assert (s + [x])[..|s|] == s;
  }
}
