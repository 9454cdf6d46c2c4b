/** Order-preserving filtering and duplicate-freedom of sequences. */
module Seqs {

  /** The elements of `s` that satisfy `p`, in their original order. */
  function Filter<T>(s: seq<T>, p: T -> bool): (r: seq<T>)
    ensures |r| <= |s|
  {
    if s == [] then []
    else (if p(s[0]) then [s[0]] else []) + Filter(s[1..], p)
  }

  predicate Distinct<T(==)>(s: seq<T>)
  {
    forall i, j :: 0 <= i < j < |s| ==> s[i] != s[j]
  }

  /** An element survives the filter exactly when it was there and passes the test. */
  lemma {:induction false} FilterMembers<T>(s: seq<T>, p: T -> bool)
    ensures forall x :: x in Filter(s, p) <==> x in s && p(x)
  {
    if s != [] {
      FilterMembers(s[1..], p);
      assert forall x :: x in s <==> x == s[0] || x in s[1..];
    }
  }

  /** Removing one position keeps a duplicate-free sequence duplicate-free. */
  lemma DistinctRemoveAt<T>(s: seq<T>, i: nat)
    requires Distinct(s) && i < |s|
    ensures Distinct(s[..i] + s[i + 1..])
  {
  }

  /**
   * One step of a reverse in-place filter: with the first `i + 1` elements
   * still unfiltered, position `i` holds `all[i]`, and keeping or splicing
   * it out leaves the first `i` unfiltered.
   */
  lemma FilterStep<T>(all: seq<T>, i: nat, keep: T -> bool)
    requires i < |all|
    ensures var cur := all[..i + 1] + Filter(all[i + 1..], keep);
      && cur[i] == all[i]
      && (keep(all[i]) ==> cur == all[..i] + Filter(all[i..], keep))
      && (!keep(all[i]) ==> cur[..i] + cur[i + 1..] == all[..i] + Filter(all[i..], keep))
  {
  }
}
