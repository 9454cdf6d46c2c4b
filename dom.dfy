/**
 * The part of the document the element-query engine reads and writes: each
 * element's class list and the `breaks` and `selector` properties the engine
 * attaches to it, plus the layout facts the host supplies.
 */
module Dom {
  import opened Wrappers
  import opened ClassTokens
  import opened Breakpoints

  /** A handle on a host element; the engine never owns it. */
  type Elem = nat

  /**
   * What the host answers during one operation: `querySelectorAll`,
   * `document.body.contains`, `offsetParent !== null` and `offsetWidth`.
   */
  datatype Host = Host(
    discover: string -> seq<Elem>,
    attached: Elem -> bool,
    hasLayout: Elem -> bool,
    width: Elem -> int)

  /** The detail of a `boomQueries_nodeUpdated` notification. */
  datatype Notice = Notice(offsetWidth: int, currentBreak: Option<Breakpoint>)

  /** An element's class set after one check against the host's layout. */
  function CheckedFor(classes: set<string>, t: Table, host: Host, e: Elem): set<string>
  {
    if host.hasLayout(e) then Checked(classes, t, host.width(e)) else classes
  }

  /** A second check against the same layout changes nothing. */
  lemma CheckedForIdempotent(classes: set<string>, t: Table, host: Host, e: Elem)
    ensures CheckedFor(CheckedFor(classes, t, host, e), t, host, e) == CheckedFor(classes, t, host, e)
  {
  }

  class Page {
    /** Each element's class list; an element not in the map has none. */
    var classes: map<Elem, set<string>>
    /** `node.breaks`: present once the element has been given a table. */
    var breaks: map<Elem, Table>
    /** `node.selector`: the name or selector the element was tagged with. */
    var selector: map<Elem, string>

    constructor (initial: map<Elem, set<string>>)
      ensures classes == initial && breaks == map[] && selector == map[]
    {
      classes := initial;
      breaks := map[];
      selector := map[];
    }

    function ClassesOf(e: Elem): set<string>
      reads this
    {
      if e in classes then classes[e] else {}
    }

    /** `addClass`: add each non-empty space-separated piece of `className`. */
    method AddClass(e: Elem, className: string)
      modifies this
      ensures ClassesOf(e) == old(ClassesOf(e)) + Tokens(className)
      ensures forall x :: x != e ==> ClassesOf(x) == old(ClassesOf(x))
      ensures breaks == old(breaks) && selector == old(selector)
    {
      if className != "" {
        var pieces := Split(className);
        for i := 0 to |pieces|
          invariant ClassesOf(e) == old(ClassesOf(e)) + NonEmpty(pieces[..i])
          invariant forall x :: x != e ==> ClassesOf(x) == old(ClassesOf(x))
          invariant breaks == old(breaks) && selector == old(selector)
        {
          assert pieces[..i + 1] == pieces[..i] + [pieces[i]];
          if |pieces[i]| > 0 {
            classes := classes[e := ClassesOf(e) + {pieces[i]}];
          }
        }
        assert pieces[..|pieces|] == pieces;
      }
    }

    /** `removeClass`: remove each non-empty space-separated piece of `className`. */
    method RemoveClass(e: Elem, className: string)
      modifies this
      ensures ClassesOf(e) == old(ClassesOf(e)) - Tokens(className)
      ensures forall x :: x != e ==> ClassesOf(x) == old(ClassesOf(x))
      ensures breaks == old(breaks) && selector == old(selector)
    {
      if className != "" {
        var pieces := Split(className);
        for i := 0 to |pieces|
          invariant ClassesOf(e) == old(ClassesOf(e)) - NonEmpty(pieces[..i])
          invariant forall x :: x != e ==> ClassesOf(x) == old(ClassesOf(x))
          invariant breaks == old(breaks) && selector == old(selector)
        {
          assert pieces[..i + 1] == pieces[..i] + [pieces[i]];
          if |pieces[i]| > 0 {
            classes := classes[e := ClassesOf(e) - {pieces[i]}];
          }
        }
        assert pieces[..|pieces|] == pieces;
      }
    }

    /**
     * `_checkYourself`: when the element has layout, scan its table from the
     * last entry to the first, counting met thresholds and removing every
     * entry's classes, then add the classes of the entry at count minus one.
     */
    method CheckYourself(e: Elem, host: Host) returns (notice: Option<Notice>)
      requires e in breaks
      modifies this
      ensures breaks == old(breaks) && selector == old(selector)
      ensures host.hasLayout(e) ==>
        && ClassesOf(e) == Checked(old(ClassesOf(e)), breaks[e], host.width(e))
        && notice == Some(Notice(host.width(e), Matched(breaks[e], host.width(e))))
      ensures !host.hasLayout(e) ==> ClassesOf(e) == old(ClassesOf(e)) && notice == None
      ensures forall x :: x != e ==> ClassesOf(x) == old(ClassesOf(x))
    {
      notice := None;
      if host.hasLayout(e) {
        var t := breaks[e];
        var width := host.width(e);
        var counter := |t|;
        var current := -1;
        while counter > 0
          invariant 0 <= counter <= |t|
          invariant current == CountMet(t[counter..], width) - 1
          invariant ClassesOf(e) == old(ClassesOf(e)) - TableTokens(t[counter..])
          invariant forall x :: x != e ==> ClassesOf(x) == old(ClassesOf(x))
          invariant breaks == old(breaks) && selector == old(selector)
        {
          counter := counter - 1;
          assert t[counter..][1..] == t[counter + 1..];
          if width >= t[counter].minWidth {
            current := current + 1;
          }
          RemoveClass(e, t[counter].className);
        }
        assert t[0..] == t;
        if current >= 0 {
          AddClass(e, t[current].className);
        }
        notice := Some(Notice(width, if current >= 0 then Some(t[current]) else None));
      }
    }

    /** `_cleanup`: remove the classes of every entry of the element's table. */
    method Cleanup(e: Elem)
      requires e in breaks
      modifies this
      ensures breaks == old(breaks) && selector == old(selector)
      ensures ClassesOf(e) == Cleaned(old(ClassesOf(e)), breaks[e])
      ensures forall x :: x != e ==> ClassesOf(x) == old(ClassesOf(x))
    {
      var t := breaks[e];
      for i := 0 to |t|
        invariant ClassesOf(e) == old(ClassesOf(e)) - TableTokens(t[..i])
        invariant forall x :: x != e ==> ClassesOf(x) == old(ClassesOf(x))
        invariant breaks == old(breaks) && selector == old(selector)
      {
        assert t[..i + 1] == t[..i] + [t[i]];
        TableTokensAppend(t[..i], [t[i]]);
        RemoveClass(e, t[i].className);
      }
      assert t[..|t|] == t;
    }
  }
}
