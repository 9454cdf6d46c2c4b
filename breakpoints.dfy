/**
 * Breakpoint tables and the resolution of a width to one of their entries,
 * with the effect of one check on an element's class set.
 */
module Breakpoints {
  import opened Wrappers
  import opened ClassTokens

  /** One `[minWidth, className]` pair of a breakpoint table. */
  datatype Breakpoint = Breakpoint(minWidth: int, className: string)

  /** An element's breakpoints, in the order the caller supplied them. */
  type Table = seq<Breakpoint>

  /** How many entries of `t` have a threshold that `width` meets (inclusive). */
  function CountMet(t: Table, width: int): (n: nat)
    ensures n <= |t|
  {
    if t == [] then 0
    else (if width >= t[0].minWidth then 1 else 0) + CountMet(t[1..], width)
  }

  /** The chosen index: the count of met thresholds, minus one. */
  function Resolve(t: Table, width: int): (r: Option<nat>)
    ensures r.Some? ==> r.value < |t|
  {
    var n := CountMet(t, width);
    if n == 0 then None else Some(n - 1)
  }

  /** The entry reported as `currentBreak`, if any. */
  function Matched(t: Table, width: int): Option<Breakpoint>
  {
    match Resolve(t, width)
    case None => None
    case Some(i) => Some(t[i])
  }

  predicate Sorted(t: Table)
  {
    forall i, j :: 0 <= i < j < |t| ==> t[i].minWidth <= t[j].minWidth
  }

  /** Nothing is met exactly when the width is below every threshold, whatever the order. */
  lemma {:induction false} CountMetZero(t: Table, width: int)
    ensures CountMet(t, width) == 0 <==> forall j :: 0 <= j < |t| ==> width < t[j].minWidth
  {
    if t != [] {
      CountMetZero(t[1..], width);
      assert forall j :: 1 <= j < |t| ==> t[j] == t[1..][j - 1];
    }
  }

  /** In a sorted table the met entries are exactly the first `CountMet` ones. */
  lemma {:induction false} SortedMetPrefix(t: Table, width: int)
    requires Sorted(t)
    ensures forall j :: 0 <= j < |t| ==> (t[j].minWidth <= width <==> j < CountMet(t, width))
  {
    if t != [] {
      var rest := t[1..];
      assert Sorted(rest);
      SortedMetPrefix(rest, width);
      assert forall j :: 1 <= j < |t| ==> t[j] == rest[j - 1];
      if width < t[0].minWidth && rest != [] {
        assert !(rest[0].minWidth <= width);
      }
    }
  }

  /**
   * Resolution picks nothing when the width is below every threshold, and
   * in a sorted table it otherwise picks the last entry whose threshold the
   * width meets.
   */
  lemma ResolveSorted(t: Table, width: int)
    requires Sorted(t)
    ensures Resolve(t, width).None? <==> forall j :: 0 <= j < |t| ==> width < t[j].minWidth
    ensures Resolve(t, width).Some? ==>
      var i := Resolve(t, width).value;
      t[i].minWidth <= width && forall j :: i < j < |t| ==> width < t[j].minWidth
  {
    CountMetZero(t, width);
    SortedMetPrefix(t, width);
  }

  /** A wider element never resolves to an earlier entry. */
  lemma {:induction false} CountMetMonotone(t: Table, narrow: int, wide: int)
    requires narrow <= wide
    ensures CountMet(t, narrow) <= CountMet(t, wide)
  {
    if t != [] {
      CountMetMonotone(t[1..], narrow, wide);
    }
  }

  /** An ascending three-entry table resolves as the scan dictates. */
  lemma ResolveExamples()
    ensures var t := [Breakpoint(0, "a"), Breakpoint(100, "b"), Breakpoint(300, "c")];
      && Matched(t, 50) == Some(t[0])
      && Matched(t, 100) == Some(t[1])
      && Matched(t, 299) == Some(t[1])
      && Matched(t, 300) == Some(t[2])
      && Matched(t, -1) == None
  {
  }

  /** Every token of every class name in the table. */
  function TableTokens(t: Table): set<string>
  {
    if t == [] then {} else Tokens(t[0].className) + TableTokens(t[1..])
  }

  lemma {:induction false} TableTokensAppend(a: Table, b: Table)
    ensures TableTokens(a + b) == TableTokens(a) + TableTokens(b)
  {
    if a == [] {
      assert a + b == b;
    } else {
      assert (a + b)[1..] == a[1..] + b;
      TableTokensAppend(a[1..], b);
    }
  }

  /** A class is a table token exactly when some entry's class name yields it. */
  lemma {:induction false} TableTokensMembers(t: Table)
    ensures forall c :: c in TableTokens(t) <==> exists j :: 0 <= j < |t| && c in Tokens(t[j].className)
  {
    if t != [] {
      TableTokensMembers(t[1..]);
      assert forall j :: 1 <= j < |t| ==> t[j] == t[1..][j - 1];
      forall c | exists j :: 0 <= j < |t| && c in Tokens(t[j].className)
        ensures c in TableTokens(t)
      {
        var j :| 0 <= j < |t| && c in Tokens(t[j].className);
        if j > 0 {
          assert c in Tokens(t[1..][j - 1].className);
        }
      }
    }
  }

  /** The tokens of the resolved entry, or none. */
  function ChosenTokens(t: Table, width: int): (r: set<string>)
    ensures r <= TableTokens(t)
  {
    match Resolve(t, width)
    case None => {}
    case Some(i) =>
      TableTokensMembers(t);
      Tokens(t[i].className)
  }

  /** The class set after a check: every table token removed, then the chosen ones added. */
  function Checked(classes: set<string>, t: Table, width: int): set<string>
  {
    (classes - TableTokens(t)) + ChosenTokens(t, width)
  }

  /** The class set after a cleanup: every table token removed. */
  function Cleaned(classes: set<string>, t: Table): set<string>
  {
    classes - TableTokens(t)
  }

  /**
   * After a check the element carries, of all its table's tokens, exactly the
   * chosen entry's; every class outside the table is as it was.
   */
  lemma CheckedEffect(classes: set<string>, t: Table, width: int)
    ensures Checked(classes, t, width) * TableTokens(t) == ChosenTokens(t, width)
    ensures forall c :: c !in TableTokens(t) ==> (c in Checked(classes, t, width) <==> c in classes)
  {
  }

  /** A second check at the same width changes nothing. */
  lemma CheckedIdempotent(classes: set<string>, t: Table, width: int)
    ensures Checked(Checked(classes, t, width), t, width) == Checked(classes, t, width)
  {
  }

  /** A check does not depend on what a cleanup removed. */
  lemma CheckedAfterCleanup(classes: set<string>, t: Table, width: int)
    ensures Checked(Cleaned(classes, t), t, width) == Checked(classes, t, width)
  {
  }

  /** A cleaned element carries none of its table's tokens. */
  lemma CleanedIsClean(classes: set<string>, t: Table)
    ensures Cleaned(classes, t) * TableTokens(t) == {}
    ensures Cleaned(Cleaned(classes, t), t) == Cleaned(classes, t)
  {
  }
}
