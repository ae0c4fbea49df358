/**
 * The order-preserving filter every list comprehension and search loop of
 * the core reduces to, with the facts the rest of the model uses about it.
 */
module Seqs {

  /**
   * The elements of `s` that satisfy `keep`, in their order in `s`, each as
   * often as it occurs there. Defined from the right so that a loop that
   * appends matches reads it off one step at a time.
   */
  function Filter<T(==,!new)>(s: seq<T>, keep: T -> bool): (r: seq<T>)
    ensures |r| <= |s|
    decreases |s|
  {
    if s == [] then []
    else
      var last := s[|s| - 1];
      Filter(s[..|s| - 1], keep) + (if keep(last) then [last] else [])
  }

  /** The filter holds exactly the elements of `s` that satisfy `keep`. */
  lemma {:induction false} FilterMembers<T(!new)>(s: seq<T>, keep: T -> bool)
    ensures forall x :: x in Filter(s, keep) <==> x in s && keep(x)
    decreases |s|
  {
    if s != [] {
      var init := s[..|s| - 1];
      assert s == init + [s[|s| - 1]];
      FilterMembers(init, keep);
    }
  }

  /** Each kept element occurs in the filter as often as in `s`; the others not at all. */
  lemma {:induction false} FilterMultiplicity<T(!new)>(s: seq<T>, keep: T -> bool)
    ensures forall x :: multiset(Filter(s, keep))[x] == if keep(x) then multiset(s)[x] else 0
    decreases |s|
  {
    if s != [] {
      var init := s[..|s| - 1];
      assert s == init + [s[|s| - 1]];
      FilterMultiplicity(init, keep);
    }
  }

  /** Filtering one more element at the end. */
  lemma FilterSnoc<T(!new)>(s: seq<T>, x: T, keep: T -> bool)
    ensures Filter(s + [x], keep) == Filter(s, keep) + (if keep(x) then [x] else [])
  {
    assert (s + [x])[..|s|] == s;
  }

  /**
   * `idx` picks the elements of `r` out of `s`: `r[k]` sits at position
   * `idx[k]` of `s`, and the positions strictly increase.
   */
  ghost predicate Embeds<T>(r: seq<T>, s: seq<T>, idx: seq<nat>)
  {
    && |idx| == |r|
    && (forall k :: 0 <= k < |idx| ==> idx[k] < |s| && r[k] == s[idx[k]])
    && (forall k, l :: 0 <= k < l < |idx| ==> idx[k] < idx[l])
  }

  /** `r` is `s` with some elements left out and the rest in their order. */
  ghost predicate IsSubsequence<T(!new)>(r: seq<T>, s: seq<T>)
  {
    exists idx :: Embeds(r, s, idx)
  }

  /** The positions in `s` of the elements the filter keeps. */
  lemma {:induction false} FilterPositions<T(!new)>(s: seq<T>, keep: T -> bool) returns (idx: seq<nat>)
    ensures Embeds(Filter(s, keep), s, idx)
    decreases |s|
  {
    if s == [] {
      idx := [];
    } else {
      var n := |s| - 1;
      var init := s[..n];
      var before := FilterPositions(init, keep);
      assert forall k :: 0 <= k < |before| ==> before[k] < n && s[before[k]] == init[before[k]];
      if keep(s[n]) {
        idx := before + [n];
      } else {
        idx := before;
      }
    }
  }

  /** The filter keeps its elements in their order in `s`. */
  lemma FilterIsSubsequence<T(!new)>(s: seq<T>, keep: T -> bool)
    ensures IsSubsequence(Filter(s, keep), s)
  {
    var idx := FilterPositions(s, keep);
  }

  /** A filter that keeps everything is the identity. */
  lemma {:induction false} FilterKeepsAll<T(!new)>(s: seq<T>, keep: T -> bool)
    requires forall i :: 0 <= i < |s| ==> keep(s[i])
    ensures Filter(s, keep) == s
    decreases |s|
  {
    if s != [] {
      FilterKeepsAll(s[..|s| - 1], keep);
      assert s == s[..|s| - 1] + [s[|s| - 1]];
    }
  }

  /** A filter that keeps nothing is empty. */
  lemma {:induction false} FilterDropsAll<T(!new)>(s: seq<T>, keep: T -> bool)
    requires forall i :: 0 <= i < |s| ==> !keep(s[i])
    ensures Filter(s, keep) == []
    decreases |s|
  {
    if s != [] {
      FilterDropsAll(s[..|s| - 1], keep);
    }
  }

  /** No element occurs twice. */
  predicate NoDuplicates<T(==,!new)>(s: seq<T>)
  {
    forall i, j :: 0 <= i < j < |s| ==> s[i] != s[j]
  }

  /** A filter of a sequence without duplicates has no duplicates. */
  lemma {:induction false} FilterNoDuplicates<T(!new)>(s: seq<T>, keep: T -> bool)
    requires NoDuplicates(s)
    ensures NoDuplicates(Filter(s, keep))
    decreases |s|
  {
    if s != [] {
      var init := s[..|s| - 1];
      var last := s[|s| - 1];
      assert s == init + [last];
      assert NoDuplicates(init);
      FilterNoDuplicates(init, keep);
      FilterMembers(init, keep);
      if keep(last) {
        forall i | 0 <= i < |init|
          ensures init[i] != last
        {
          assert init[i] == s[i];
        }
        assert last !in Filter(init, keep);
      }
    }
  }
}
