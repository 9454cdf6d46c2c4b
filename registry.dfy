/**
 * The registry of tracked elements: the `nodes` array of tracked elements
 * and the `map` hash from discovery selector to breakpoint table, with the
 * operations that add, remove, refresh, look up and re-check them.
 */
module Registry {
  import opened Wrappers
  import opened Seqs
  import opened Breakpoints
  import opened Dom

  /** The first argument of `add`: a selector string, one element, or an array of elements. */
  datatype Target = BySelector(selector: string) | ByElement(elem: Elem) | ByElements(elems: seq<Elem>)

  /** The tracking state: the `nodes` array and each element's `breaks` and `selector` properties. */
  datatype Tracking = Tracking(nodes: seq<Elem>, breaks: map<Elem, Table>, selector: map<Elem, string>)

  /** Every tracked element carries a table, and none is tracked twice. */
  ghost predicate WellFormed(s: Tracking)
  {
    && (forall x :: x in s.nodes ==> x in s.breaks)
    && Distinct(s.nodes)
  }

  function NameOf(s: Tracking, x: Elem): Option<string>
  {
    if x in s.selector then Some(s.selector[x]) else None
  }

  /** `_add` on values: an element that already carries a table is left alone. */
  function Attach(s: Tracking, e: Elem, t: Table, tag: Option<string>): Tracking
  {
    if e in s.breaks then s
    else Tracking(s.nodes + [e], s.breaks[e := t], if tag.Some? then s.selector[e := tag.value] else s.selector)
  }

  /** `_add` applied to each element of `es` in turn. */
  function AttachAll(s: Tracking, es: seq<Elem>, t: Table, tag: Option<string>): Tracking
    decreases |es|
  {
    if es == [] then s
    else Attach(AttachAll(s, es[..|es| - 1], t, tag), es[|es| - 1], t, tag)
  }

  lemma AttachWellFormed(s: Tracking, e: Elem, t: Table, tag: Option<string>)
    requires WellFormed(s)
    ensures WellFormed(Attach(s, e, t, tag))
  {
  }

  /**
   * Adding a sequence of elements appends, in order, exactly the ones that
   * carried no table; it attaches the table and the tag to those and to no
   * other; it never replaces a table already attached.
   */
  lemma {:induction false} AttachAllFacts(s: Tracking, es: seq<Elem>, t: Table, tag: Option<string>)
    ensures var r := AttachAll(s, es, t, tag);
      && s.nodes <= r.nodes
      && (forall x :: x in r.nodes <==> x in s.nodes || (x in es && x !in s.breaks))
      && (forall x :: x in r.breaks <==> x in s.breaks || x in es)
      && (forall x :: x in s.breaks ==> r.breaks[x] == s.breaks[x])
      && (forall x :: x in r.breaks && x !in s.breaks ==> r.breaks[x] == t)
      && (forall x :: NameOf(r, x) == if x !in s.breaks && x in es && tag.Some? then tag else NameOf(s, x))
      && (WellFormed(s) ==> WellFormed(r))
    decreases |es|
  {
    if es != [] {
      var init, last := es[..|es| - 1], es[|es| - 1];
      assert es == init + [last];
      AttachAllFacts(s, init, t, tag);
      var m := AttachAll(s, init, t, tag);
      if WellFormed(s) {
        AttachWellFormed(m, last, t, tag);
      }
    }
  }

  /** Adding an element twice leaves exactly one record of it. */
  lemma AttachTwice(s: Tracking, e: Elem, t: Table, t': Table, tag: Option<string>, tag': Option<string>)
    requires WellFormed(s) && e !in s.breaks
    ensures var r := Attach(Attach(s, e, t, tag), e, t', tag');
      r == Attach(s, e, t, tag) && multiset(r.nodes)[e] == 1 && r.breaks[e] == t
  {
  }

  /**
   * An element that carries a table but is no longer tracked (it was
   * evicted) is never tracked again: `breaks` outlives the eviction.
   */
  lemma EvictedNeverReturns(s: Tracking, es: seq<Elem>, t: Table, tag: Option<string>, x: Elem)
    requires x in s.breaks && x !in s.nodes
    ensures x !in AttachAll(s, es, t, tag).nodes
    ensures x in AttachAll(s, es, t, tag).breaks && AttachAll(s, es, t, tag).breaks[x] == s.breaks[x]
  {
  }

  /** The tag `add` gives an element passed directly: the string "undefined" counts as no name. */
  function NameTag(name: Option<string>): Option<string>
  {
    if name == Some("undefined") then None else name
  }

  /** The elements `add` registers, in order. */
  function Candidates(target: Target, host: Host): seq<Elem>
  {
    match target
    case BySelector(sel) => host.discover(sel)
    case ByElement(e) => [e]
    case ByElements(es) => es
  }

  /** The tag `add` gives each registered element: the selector itself, or the name. */
  function TagFor(target: Target, name: Option<string>): Option<string>
  {
    match target
    case BySelector(sel) => Some(sel)
    case _ => NameTag(name)
  }

  /** Which records `remove(key)` keeps: the untagged-by-key ones, or with no key the attached ones. */
  function Survives(key: Option<string>, selector: map<Elem, string>, host: Host): Elem -> bool
  {
    match key
    case None => host.attached
    case Some(k) => x => !(x in selector && selector[x] == k)
  }

  /** Some selector among `keys` discovers `x`. */
  ghost predicate DiscoveredBy(keys: set<string>, host: Host, x: Elem)
  {
    exists k :: k in keys && x in host.discover(k)
  }

  /**
   * What rediscovering the selectors `keys` has done to the tracking state
   * `s0`: added exactly the discovered elements without a table, with the
   * table and the tag of a selector that found them, and nothing else.
   */
  ghost predicate Rediscovered(s0: Tracking, s: Tracking, keys: set<string>, sels: map<string, Table>, host: Host)
    requires keys <= sels.Keys
  {
    && s0.nodes <= s.nodes
    && (forall x :: x in s.nodes <==> x in s0.nodes || (x !in s0.breaks && DiscoveredBy(keys, host, x)))
    && (forall x :: x in s.breaks <==> x in s0.breaks || DiscoveredBy(keys, host, x))
    && (forall x :: x in s0.breaks ==> s.breaks[x] == s0.breaks[x])
    && (forall x :: x in s.breaks && x !in s0.breaks ==>
          exists k :: k in keys && x in host.discover(k) && s.breaks[x] == sels[k] && NameOf(s, x) == Some(k))
    && (forall x :: x in s0.breaks || x !in s.breaks ==> NameOf(s, x) == NameOf(s0, x))
  }

  /** Rediscovering one more selector extends what rediscovery has done. */
  lemma RediscoveredStep(s0: Tracking, s: Tracking, keys: set<string>, k: string, sels: map<string, Table>, host: Host)
    requires keys <= sels.Keys && k in sels && k !in keys
    requires Rediscovered(s0, s, keys, sels, host)
    ensures Rediscovered(s0, AttachAll(s, host.discover(k), sels[k], Some(k)), keys + {k}, sels, host)
  {
    var r := AttachAll(s, host.discover(k), sels[k], Some(k));
    AttachAllFacts(s, host.discover(k), sels[k], Some(k));
    forall x | x in r.breaks && x !in s0.breaks
      ensures exists j :: j in keys + {k} && x in host.discover(j) && r.breaks[x] == sels[j] && NameOf(r, x) == Some(j)
    {
      if x in s.breaks {
        var j :| j in keys && x in host.discover(j) && s.breaks[x] == sels[j] && NameOf(s, x) == Some(j);
        assert j in keys + {k};
      } else {
        assert k in keys + {k};
      }
    }
  }

  class ElementRegistry {
    /** `nodes`: the tracked elements, in the order they were added. */
    var nodes: seq<Elem>
    /** `map`: each discovery selector and the table it was added with. */
    var selectors: map<string, Table>
    /** The document whose elements are tracked. */
    const page: Page

    function Tracked(): Tracking
      reads this, page
    {
      Tracking(nodes, page.breaks, page.selector)
    }

    ghost predicate Valid()
      reads this, page
    {
      WellFormed(Tracked())
    }

    constructor (page: Page)
      ensures this.page == page && nodes == [] && selectors == map[]
      ensures Valid()
    {
      this.page := page;
      nodes := [];
      selectors := map[];
    }

    /** The element `x` carries the tag `name`. */
    predicate Tagged(x: Elem, name: string)
      reads this, page
    {
      x in page.selector && page.selector[x] == name
    }

    /** `_add`: track `e` with table `t` and tag it, unless it already carries a table. */
    method AddNode(e: Elem, t: Table, tag: Option<string>)
      requires Valid()
      modifies this, page
      ensures Valid()
      ensures Tracked() == Attach(old(Tracked()), e, t, tag)
      ensures selectors == old(selectors) && page.classes == old(page.classes)
    {
      AttachWellFormed(Tracked(), e, t, tag);
      if e !in page.breaks {
        page.breaks := page.breaks[e := t];
        if tag.Some? {
          page.selector := page.selector[e := tag.value];
        }
        nodes := nodes + [e];
      }
    }

    /** The `forEach` over `_add` that `_addSelector` and `add` share. */
    method AddEach(es: seq<Elem>, t: Table, tag: Option<string>)
      requires Valid()
      modifies this, page
      ensures Valid()
      ensures Tracked() == AttachAll(old(Tracked()), es, t, tag)
      ensures selectors == old(selectors) && page.classes == old(page.classes)
    {
      for i := 0 to |es|
        invariant Valid()
        invariant Tracked() == AttachAll(old(Tracked()), es[..i], t, tag)
        invariant selectors == old(selectors) && page.classes == old(page.classes)
      {
        assert es[..i + 1][..i] == es[..i];
        AddNode(es[i], t, tag);
      }
      assert es[..|es|] == es;
    }

    /** `_addSelector`: remember the selector's table, then add every element it discovers. */
    method AddSelector(sel: string, t: Table, host: Host)
      requires Valid()
      modifies this, page
      ensures Valid()
      ensures selectors == old(selectors)[sel := t]
      ensures Tracked() == AttachAll(old(Tracked()), host.discover(sel), t, Some(sel))
      ensures page.classes == old(page.classes)
    {
      selectors := selectors[sel := t];
      AddEach(host.discover(sel), t, Some(sel));
    }

    /** `update`: check every tracked element, in order, against the host's layout. */
    method Update(host: Host)
      requires Valid()
      modifies page
      ensures Valid()
      ensures page.breaks == old(page.breaks) && page.selector == old(page.selector)
      ensures forall x :: page.ClassesOf(x) ==
                if x in nodes then CheckedFor(old(page.ClassesOf(x)), page.breaks[x], host, x)
                else old(page.ClassesOf(x))
    {
      for i := 0 to |nodes|
        invariant Valid()
        invariant page.breaks == old(page.breaks) && page.selector == old(page.selector)
        invariant forall x :: page.ClassesOf(x) ==
                    if x in nodes[..i] then CheckedFor(old(page.ClassesOf(x)), page.breaks[x], host, x)
                    else old(page.ClassesOf(x))
      {
        assert nodes[i] !in nodes[..i];
        assert forall x :: x in nodes[..i + 1] <==> x in nodes[..i] || x == nodes[i];
        var notice := page.CheckYourself(nodes[i], host);
      }
      assert nodes[..|nodes|] == nodes;
    }

    /** `add`: register the target's elements, then check every tracked element. */
    method Add(target: Target, t: Table, name: Option<string>, host: Host)
      requires Valid()
      modifies this, page
      ensures Valid()
      ensures selectors == if target.BySelector? then old(selectors)[target.selector := t] else old(selectors)
      ensures Tracked() == AttachAll(old(Tracked()), Candidates(target, host), t, TagFor(target, name))
      ensures forall x :: page.ClassesOf(x) ==
                if x in nodes then CheckedFor(old(page.ClassesOf(x)), page.breaks[x], host, x)
                else old(page.ClassesOf(x))
    {
      match target {
        case BySelector(sel) =>
          AddSelector(sel, t, host);
        case ByElement(e) =>
          assert [e][..0] == [];
          AddNode(e, t, NameTag(name));
        case ByElements(es) =>
          AddEach(es, t, NameTag(name));
      }
      Update(host);
    }

    /** `_delete`: clean the element at position `i` and splice it out of `nodes`. */
    method Delete(i: nat)
      requires Valid() && i < |nodes|
      modifies this, page
      ensures Valid()
      ensures nodes == old(nodes[..i] + nodes[i + 1..])
      ensures page.breaks == old(page.breaks) && page.selector == old(page.selector)
      ensures selectors == old(selectors)
      ensures forall x :: page.ClassesOf(x) ==
                if x == old(nodes[i]) then Cleaned(old(page.ClassesOf(x)), page.breaks[x])
                else old(page.ClassesOf(x))
    {
      page.Cleanup(nodes[i]);
      DistinctRemoveAt(nodes, i);
      assert forall x :: x in nodes[..i] + nodes[i + 1..] ==> x in nodes;
      nodes := nodes[..i] + nodes[i + 1..];
    }

    /**
     * The reverse `for (i = nodes.length; i--;)` loop of `remove`: delete,
     * from the end, every record that `keep` rejects.
     */
    method Evict(keep: Elem -> bool)
      requires Valid()
      modifies this, page
      ensures Valid()
      ensures page.breaks == old(page.breaks) && page.selector == old(page.selector)
      ensures selectors == old(selectors)
      ensures nodes == Filter(old(nodes), keep)
      ensures forall x :: page.ClassesOf(x) ==
                if x in old(nodes) && !keep(x) then Cleaned(old(page.ClassesOf(x)), page.breaks[x])
                else old(page.ClassesOf(x))
    {
      ghost var all := nodes;
      var i := |nodes|;
      while i > 0
        invariant 0 <= i <= |all|
        invariant Valid()
        invariant nodes == all[..i] + Filter(all[i..], keep)
        invariant page.breaks == old(page.breaks) && page.selector == old(page.selector)
        invariant selectors == old(selectors)
        invariant forall x :: page.ClassesOf(x) ==
                    if x in all[i..] && !keep(x) then Cleaned(old(page.ClassesOf(x)), page.breaks[x])
                    else old(page.ClassesOf(x))
      {
        i := i - 1;
        FilterStep(all, i, keep);
        assert forall x :: x in all[i..] <==> x == all[i] || x in all[i + 1..];
        if !keep(nodes[i]) {
          Delete(i);
        }
      }
      assert all[0..] == all;
    }

    /**
     * `remove(key)`: evict every element tagged `key` and forget the
     * selector `key`; `remove()` evicts every detached element.
     */
    method Remove(key: Option<string>, host: Host)
      requires Valid()
      modifies this, page
      ensures Valid()
      ensures page.breaks == old(page.breaks) && page.selector == old(page.selector)
      ensures nodes == Filter(old(nodes), Survives(key, old(page.selector), host))
      ensures forall x :: x in nodes <==> x in old(nodes) && Survives(key, old(page.selector), host)(x)
      ensures selectors == if key.Some? then old(selectors) - {key.value} else old(selectors)
      ensures forall x :: page.ClassesOf(x) ==
                if x in old(nodes) && x !in nodes then Cleaned(old(page.ClassesOf(x)), page.breaks[x])
                else old(page.ClassesOf(x))
      ensures forall x :: x in old(nodes) && x !in nodes ==> page.ClassesOf(x) * TableTokens(page.breaks[x]) == {}
    {
      var keep := Survives(key, page.selector, host);
      FilterMembers(nodes, keep);
      Evict(keep);
      if key.Some? && key.value in selectors {
        selectors := selectors - {key.value};
      } else if key.Some? {
        assert selectors - {key.value} == selectors;
      }
    }

    /**
     * The loop of `refresh` over `Object.keys(map)`: rediscover every stored
     * selector, adding the elements that carry no table yet.
     */
    method Rediscover(host: Host)
      requires Valid()
      modifies this, page
      ensures Valid()
      ensures selectors == old(selectors) && page.classes == old(page.classes)
      ensures old(nodes) <= nodes
      ensures forall x :: x in nodes <==>
                x in old(nodes) || (x !in old(page.breaks) && DiscoveredBy(selectors.Keys, host, x))
      ensures forall x :: x in page.breaks <==> x in old(page.breaks) || DiscoveredBy(selectors.Keys, host, x)
      ensures forall x :: x in old(page.breaks) ==> page.breaks[x] == old(page.breaks)[x]
      ensures forall x :: x in page.breaks && x !in old(page.breaks) ==>
                exists k :: k in selectors && x in host.discover(k) && page.breaks[x] == selectors[k] && Tagged(x, k)
      ensures forall x :: x in old(page.breaks) || x !in page.breaks ==> NameOf(Tracked(), x) == NameOf(old(Tracked()), x)
    {
      var todo := selectors.Keys;
      ghost var done: set<string> := {};
      ghost var s0 := Tracked();
      while todo != {}
        invariant todo + done == selectors.Keys && todo !! done
        invariant Valid()
        invariant selectors == old(selectors) && page.classes == old(page.classes)
        invariant s0 == old(Tracked())
        invariant Rediscovered(s0, Tracked(), done, selectors, host)
        decreases todo
      {
        var k :| k in todo;
        RediscoveredStep(s0, Tracked(), done, k, selectors, host);
        AddSelector(k, selectors[k], host);
        assert selectors == old(selectors);
        todo := todo - {k};
        done := done + {k};
      }
    }

    /**
     * `refresh`: evict detached elements, then rediscover every stored
     * selector, then check every tracked element.
     */
    method Refresh(host: Host)
      requires Valid()
      modifies this, page
      ensures Valid()
      ensures selectors == old(selectors)
      ensures Filter(old(nodes), host.attached) <= nodes
      ensures forall x :: x in nodes <==>
                (x in old(nodes) && host.attached(x)) || (x !in old(page.breaks) && DiscoveredBy(selectors.Keys, host, x))
      ensures forall x :: x in page.breaks <==> x in old(page.breaks) || DiscoveredBy(selectors.Keys, host, x)
      ensures forall x :: x in old(page.breaks) ==> page.breaks[x] == old(page.breaks)[x]
      ensures forall x :: x in page.breaks && x !in old(page.breaks) ==>
                exists k :: k in selectors && x in host.discover(k) && page.breaks[x] == selectors[k] && Tagged(x, k)
      ensures forall x :: x in old(page.breaks) || x !in page.breaks ==> NameOf(Tracked(), x) == NameOf(old(Tracked()), x)
      ensures forall x :: page.ClassesOf(x) ==
                if x in nodes then CheckedFor(old(page.ClassesOf(x)), page.breaks[x], host, x)
                else if x in old(nodes) then Cleaned(old(page.ClassesOf(x)), page.breaks[x])
                else old(page.ClassesOf(x))
      ensures (forall k, x :: k in selectors && x in host.discover(k) ==> host.attached(x)) ==>
                forall x :: x in nodes ==> host.attached(x)
    {
      Remove(None, host);
      ghost var survivors := nodes;
      Rediscover(host);
      assert forall x :: page.ClassesOf(x) ==
               if x in old(nodes) && x !in survivors then Cleaned(old(page.ClassesOf(x)), page.breaks[x])
               else old(page.ClassesOf(x));
      Update(host);
    }

    /** `get(name)`: the most recently added tracked element tagged `name`, if any. */
    method Get(name: string) returns (r: Option<Elem>)
      ensures r.None? <==> forall i :: 0 <= i < |nodes| ==> !Tagged(nodes[i], name)
      ensures r.Some? ==> exists i :: 0 <= i < |nodes| && nodes[i] == r.value && Tagged(nodes[i], name) &&
                            forall j :: i < j < |nodes| ==> !Tagged(nodes[j], name)
    {
      var i := |nodes|;
      while i > 0
        invariant 0 <= i <= |nodes|
        invariant forall j :: i <= j < |nodes| ==> !Tagged(nodes[j], name)
      {
        i := i - 1;
        if Tagged(nodes[i], name) {
          return Some(nodes[i]);
        }
      }
      return None;
    }
  }
}
