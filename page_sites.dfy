/** An independent description of what `extract_pages` finds: a page path is
    a string the tree holds at a position reached by a chain of "pages" keys,
    and the walk lists those positions in document order, each once. */
module PageSites {
  import opened Navigation

  /** One step down a tree: into the i-th entry of a dict or the i-th item of
      a list. */
  datatype Step = AtEntry(i: nat) | AtItem(i: nat)

  // ---------------------------------------------------------------------
  // The documented shape: every "pages" value met on the way is a list
  // ---------------------------------------------------------------------

  ghost predicate NavShaped(n: Node)
    decreases n, 1
  {
    match n
    case Dict(es) => forall i | 0 <= i < |es| :: EntryShaped(es[i])
    case List(items) => forall i | 0 <= i < |items| :: NavShaped(items[i])
    case _ => true
  }

  ghost predicate EntryShaped(e: Entry)
    decreases e
  {
    if e.key == PagesKey then ValueShaped(e.value) else NavShaped(e.value)
  }

  ghost predicate ValueShaped(v: Node)
    decreases v, 1
  {
    v.List? && forall i | 0 <= i < |v.items| :: ItemShaped(v.items[i])
  }

  ghost predicate ItemShaped(item: Node)
    decreases item, 0
  {
    item.Dict? ==>
      var j := IndexOf(item.entries, PagesKey);
      j < |item.entries| ==> ValueShaped(item.entries[j].value)
  }

  // ---------------------------------------------------------------------
  // Page sites
  // ---------------------------------------------------------------------

  /** `path` leads from `n`, a node outside any "pages" list, through a
      "pages" key to the page path `p`. */
  ghost predicate NavSite(n: Node, path: seq<Step>, p: string)
    decreases |path|, 1
  {
    |path| > 0 &&
    match path[0]
    case AtEntry(i) => n.Dict? && i < |n.entries| && EntrySite(n.entries[i], path[1..], p)
    case AtItem(i) => n.List? && i < |n.items| && NavSite(n.items[i], path[1..], p)
  }

  /** `path` leads from the value of dict entry `e` to the page path `p`. */
  ghost predicate EntrySite(e: Entry, path: seq<Step>, p: string)
    decreases |path|, 2
  {
    if e.key == PagesKey then ValueSite(e.value, path, p) else NavSite(e.value, path, p)
  }

  /** `path` leads from a "pages" list `v` into one of its items and on to
      the page path `p`. */
  ghost predicate ValueSite(v: Node, path: seq<Step>, p: string)
    decreases |path|, 1
  {
    v.List? && |path| > 0 && path[0].AtItem? && path[0].i < |v.items|
    && ItemSite(v.items[path[0].i], path[1..], p)
  }

  /** `path` leads from an item of a "pages" list to the page path `p`: the
      item is that string, or a dict whose own "pages" entry leads there. */
  ghost predicate ItemSite(item: Node, path: seq<Step>, p: string)
    decreases |path|, 1
  {
    if path == [] then item == Str(p)
    else
      item.Dict? && path[0] == AtEntry(IndexOf(item.entries, PagesKey))
      && path[0].i < |item.entries| && ValueSite(item.entries[path[0].i].value, path[1..], p)
  }

  /** Document order: `a` turns off to an earlier entry or item than `b` at
      the first step where they differ. */
  ghost predicate Precedes(a: seq<Step>, b: seq<Step>)
    decreases |a|
  {
    |a| > 0 && |b| > 0 && (a[0].i < b[0].i || (a[0] == b[0] && Precedes(a[1..], b[1..])))
  }

  ghost predicate InDocumentOrder(sites: seq<seq<Step>>)
  {
    forall k, l | 0 <= k < l < |sites| :: Precedes(sites[k], sites[l])
  }

  /** The sites `ts`, each one step further down, behind `st`. */
  function Under(st: Step, ts: seq<seq<Step>>): seq<seq<Step>>
  {
    seq(|ts|, k requires 0 <= k < |ts| => [st] + ts[k])
  }

  // ---------------------------------------------------------------------
  // Facts about sites and order
  // ---------------------------------------------------------------------

  lemma {:induction false} PrecedesIrreflexive(a: seq<Step>)
    ensures !Precedes(a, a)
    decreases |a|
  {
    if |a| > 0 {
      PrecedesIrreflexive(a[1..]);
    }
  }

  lemma SortedUnder(st: Step, ts: seq<seq<Step>>)
    requires InDocumentOrder(ts)
    ensures InDocumentOrder(Under(st, ts))
  {
    var r := Under(st, ts);
    forall k, l | 0 <= k < l < |r| ensures Precedes(r[k], r[l]) {
      assert r[k][1..] == ts[k] && r[l][1..] == ts[l];
    }
  }

  /** Sites of earlier entries (items) followed by the sites of a later one
      stay in document order. */
  lemma SortedAppendUnder(s1: seq<seq<Step>>, st: Step, s2: seq<seq<Step>>)
    requires InDocumentOrder(s1) && InDocumentOrder(s2)
    requires forall k | 0 <= k < |s1| :: |s1[k]| > 0 && s1[k][0].i < st.i
    ensures InDocumentOrder(s1 + Under(st, s2))
  {
    var u := Under(st, s2);
    SortedUnder(st, s2);
    var r := s1 + u;
    forall k, l | 0 <= k < l < |r| ensures Precedes(r[k], r[l]) {
      if l < |s1| {
        assert r[k] == s1[k] && r[l] == s1[l];
      } else if k < |s1| {
        assert r[k] == s1[k] && r[l] == u[l - |s1|];
        assert r[l][0] == st;
      } else {
        assert r[k] == u[k - |s1|] && r[l] == u[l - |s1|];
      }
    }
  }

  /** Each site leads to one page path only. */
  lemma {:induction false} NavSiteFunctional(n: Node, path: seq<Step>, p: string, q: string)
    requires NavSite(n, path, p) && NavSite(n, path, q)
    ensures p == q
    decreases |path|, 1
  {
    match path[0]
    case AtEntry(i) => EntrySiteFunctional(n.entries[i], path[1..], p, q);
    case AtItem(i) => NavSiteFunctional(n.items[i], path[1..], p, q);
  }

  lemma {:induction false} EntrySiteFunctional(e: Entry, path: seq<Step>, p: string, q: string)
    requires EntrySite(e, path, p) && EntrySite(e, path, q)
    ensures p == q
    decreases |path|, 2
  {
    if e.key == PagesKey {
      ValueSiteFunctional(e.value, path, p, q);
    } else {
      NavSiteFunctional(e.value, path, p, q);
    }
  }

  lemma {:induction false} ValueSiteFunctional(v: Node, path: seq<Step>, p: string, q: string)
    requires ValueSite(v, path, p) && ValueSite(v, path, q)
    ensures p == q
    decreases |path|, 1
  {
    ItemSiteFunctional(v.items[path[0].i], path[1..], p, q);
  }

  lemma {:induction false} ItemSiteFunctional(item: Node, path: seq<Step>, p: string, q: string)
    requires ItemSite(item, path, p) && ItemSite(item, path, q)
    ensures p == q
    decreases |path|, 1
  {
    if path != [] {
      ValueSiteFunctional(item.entries[path[0].i].value, path[1..], p, q);
    }
  }

  /** A site of a dict's first entries is a site of the whole dict, and back. */
  lemma DictSitePrefix(pre: seq<Entry>, es: seq<Entry>, path: seq<Step>, p: string)
    requires |pre| <= |es| && pre == es[..|pre|]
    requires |path| > 0 && path[0].i < |pre|
    ensures NavSite(Dict(pre), path, p) <==> NavSite(Dict(es), path, p)
  {
    assert pre[path[0].i] == es[path[0].i];
  }

  /** A site of a list's first items is a site of the whole list, and back. */
  lemma ListSitePrefix(pre: seq<Node>, items: seq<Node>, path: seq<Step>, p: string)
    requires |pre| <= |items| && pre == items[..|pre|]
    requires |path| > 0 && path[0].i < |pre|
    ensures NavSite(List(pre), path, p) <==> NavSite(List(items), path, p)
  {
    assert pre[path[0].i] == items[path[0].i];
  }

  /** A site of a "pages" list's first items is a site of the whole list, and back. */
  lemma ValueSitePrefix(pre: seq<Node>, items: seq<Node>, path: seq<Step>, p: string)
    requires |pre| <= |items| && pre == items[..|pre|]
    requires |path| > 0 && path[0].i < |pre|
    ensures ValueSite(List(pre), path, p) <==> ValueSite(List(items), path, p)
  {
    assert pre[path[0].i] == items[path[0].i];
  }

  // ---------------------------------------------------------------------
  // The walk enumerates the page sites
  // ---------------------------------------------------------------------

  /** On a tree of the documented shape the walk does not fail, and it
      returns the page paths at all page sites of the tree, one per site, in
      document order. */
  lemma {:induction false} NavSites(n: Node) returns (sites: seq<seq<Step>>)
    requires NavShaped(n)
    ensures ExtractPages(n).Paths? && |sites| == |ExtractPages(n).paths|
    ensures forall k | 0 <= k < |sites| :: NavSite(n, sites[k], ExtractPages(n).paths[k])
    ensures InDocumentOrder(sites)
    ensures forall path, p | NavSite(n, path, p) :: path in sites
    decreases n, 1
  {
    match n
    case Dict(es) => sites := EntriesSites(es);
    case List(items) => sites := ItemsSites(items);
    case _ => sites := [];
  }

  lemma {:induction false} EntriesSites(es: seq<Entry>) returns (sites: seq<seq<Step>>)
    requires forall i | 0 <= i < |es| :: EntryShaped(es[i])
    ensures ExtractEntries(es).Paths? && |sites| == |ExtractEntries(es).paths|
    ensures forall k | 0 <= k < |sites| :: NavSite(Dict(es), sites[k], ExtractEntries(es).paths[k])
    ensures InDocumentOrder(sites)
    ensures forall path, p | NavSite(Dict(es), path, p) :: path in sites
    decreases es
  {
    if es == [] {
      sites := [];
    } else {
      var m := |es| - 1;
      var pre := es[..m];
      var s1 := EntriesSites(pre);
      var s2 := EntrySites(es[m]);
      var u := Under(AtEntry(m), s2);
      sites := s1 + u;
      var p1, p2 := ExtractEntries(pre).paths, EntryPages(es[m]).paths;
      assert ExtractEntries(es).paths == p1 + p2;
      forall k | 0 <= k < |sites| ensures NavSite(Dict(es), sites[k], (p1 + p2)[k]) {
        if k < |s1| {
          DictSitePrefix(pre, es, s1[k], p1[k]);
        } else {
          assert sites[k][1..] == s2[k - |s1|];
        }
      }
      forall k | 0 <= k < |s1| ensures |s1[k]| > 0 && s1[k][0].i < m {
        assert NavSite(Dict(pre), s1[k], p1[k]);
      }
      SortedAppendUnder(s1, AtEntry(m), s2);
      forall path: seq<Step>, p: string | NavSite(Dict(es), path, p) ensures path in sites {
        if path[0].i == m {
          assert EntrySite(es[m], path[1..], p);
          var k :| 0 <= k < |s2| && s2[k] == path[1..];
          assert path == [AtEntry(m)] + path[1..];
          assert sites[|s1| + k] == path;
        } else {
          DictSitePrefix(pre, es, path, p);
          assert path in s1;
        }
      }
    }
  }

  lemma {:induction false} EntrySites(e: Entry) returns (sites: seq<seq<Step>>)
    requires EntryShaped(e)
    ensures EntryPages(e).Paths? && |sites| == |EntryPages(e).paths|
    ensures forall k | 0 <= k < |sites| :: EntrySite(e, sites[k], EntryPages(e).paths[k])
    ensures InDocumentOrder(sites)
    ensures forall path, p | EntrySite(e, path, p) :: path in sites
    decreases e
  {
    if e.key == PagesKey {
      sites := ValueSites(e.value);
    } else {
      sites := NavSites(e.value);
    }
  }

  lemma {:induction false} ItemsSites(items: seq<Node>) returns (sites: seq<seq<Step>>)
    requires forall i | 0 <= i < |items| :: NavShaped(items[i])
    ensures ExtractItems(items).Paths? && |sites| == |ExtractItems(items).paths|
    ensures forall k | 0 <= k < |sites| :: NavSite(List(items), sites[k], ExtractItems(items).paths[k])
    ensures InDocumentOrder(sites)
    ensures forall path, p | NavSite(List(items), path, p) :: path in sites
    decreases items
  {
    if items == [] {
      sites := [];
    } else {
      var m := |items| - 1;
      var pre := items[..m];
      var s1 := ItemsSites(pre);
      var s2 := NavSites(items[m]);
      var u := Under(AtItem(m), s2);
      sites := s1 + u;
      var p1, p2 := ExtractItems(pre).paths, ExtractPages(items[m]).paths;
      assert ExtractItems(items).paths == p1 + p2;
      forall k | 0 <= k < |sites| ensures NavSite(List(items), sites[k], (p1 + p2)[k]) {
        if k < |s1| {
          ListSitePrefix(pre, items, s1[k], p1[k]);
        } else {
          assert sites[k][1..] == s2[k - |s1|];
        }
      }
      forall k | 0 <= k < |s1| ensures |s1[k]| > 0 && s1[k][0].i < m {
        assert NavSite(List(pre), s1[k], p1[k]);
      }
      SortedAppendUnder(s1, AtItem(m), s2);
      forall path: seq<Step>, p: string | NavSite(List(items), path, p) ensures path in sites {
        if path[0].i == m {
          assert NavSite(items[m], path[1..], p);
          var k :| 0 <= k < |s2| && s2[k] == path[1..];
          assert path == [AtItem(m)] + path[1..];
          assert sites[|s1| + k] == path;
        } else {
          ListSitePrefix(pre, items, path, p);
          assert path in s1;
        }
      }
    }
  }

  lemma {:induction false} ValueSites(v: Node) returns (sites: seq<seq<Step>>)
    requires ValueShaped(v)
    ensures FlattenPagesValue(v).Paths? && |sites| == |FlattenPagesValue(v).paths|
    ensures forall k | 0 <= k < |sites| :: ValueSite(v, sites[k], FlattenPagesValue(v).paths[k])
    ensures InDocumentOrder(sites)
    ensures forall path, p | ValueSite(v, path, p) :: path in sites
    decreases v, 1
  {
    sites := FlatItemsSites(v.items);
  }

  lemma {:induction false} FlatItemsSites(items: seq<Node>) returns (sites: seq<seq<Step>>)
    requires forall i | 0 <= i < |items| :: ItemShaped(items[i])
    ensures FlattenItems(items).Paths? && |sites| == |FlattenItems(items).paths|
    ensures forall k | 0 <= k < |sites| :: ValueSite(List(items), sites[k], FlattenItems(items).paths[k])
    ensures InDocumentOrder(sites)
    ensures forall path, p | ValueSite(List(items), path, p) :: path in sites
    decreases items
  {
    if items == [] {
      sites := [];
    } else {
      var m := |items| - 1;
      var pre := items[..m];
      var s1 := FlatItemsSites(pre);
      var s2 := ItemSites(items[m]);
      var u := Under(AtItem(m), s2);
      sites := s1 + u;
      var p1, p2 := FlattenItems(pre).paths, FlattenItem(items[m]).paths;
      assert FlattenItems(items).paths == p1 + p2;
      forall k | 0 <= k < |sites| ensures ValueSite(List(items), sites[k], (p1 + p2)[k]) {
        if k < |s1| {
          ValueSitePrefix(pre, items, s1[k], p1[k]);
        } else {
          assert sites[k][1..] == s2[k - |s1|];
        }
      }
      forall k | 0 <= k < |s1| ensures |s1[k]| > 0 && s1[k][0].i < m {
        assert ValueSite(List(pre), s1[k], p1[k]);
      }
      SortedAppendUnder(s1, AtItem(m), s2);
      forall path: seq<Step>, p: string | ValueSite(List(items), path, p) ensures path in sites {
        if path[0].i == m {
          assert ItemSite(items[m], path[1..], p);
          var k :| 0 <= k < |s2| && s2[k] == path[1..];
          assert path == [AtItem(m)] + path[1..];
          assert sites[|s1| + k] == path;
        } else {
          ValueSitePrefix(pre, items, path, p);
          assert path in s1;
        }
      }
    }
  }

  lemma {:induction false} ItemSites(item: Node) returns (sites: seq<seq<Step>>)
    requires ItemShaped(item)
    ensures FlattenItem(item).Paths? && |sites| == |FlattenItem(item).paths|
    ensures forall k | 0 <= k < |sites| :: ItemSite(item, sites[k], FlattenItem(item).paths[k])
    ensures InDocumentOrder(sites)
    ensures forall path, p | ItemSite(item, path, p) :: path in sites
    decreases item, 0
  {
    match item
    case Str(s) =>
      sites := [[]];
    case Dict(es) =>
      var j := IndexOf(es, PagesKey);
      if j < |es| {
        var sub := ValueSites(es[j].value);
        sites := Under(AtEntry(j), sub);
        SortedUnder(AtEntry(j), sub);
        forall k | 0 <= k < |sites| ensures ItemSite(item, sites[k], FlattenItem(item).paths[k]) {
          assert sites[k][1..] == sub[k];
        }
        forall path: seq<Step>, p: string | ItemSite(item, path, p) ensures path in sites {
          assert path != [] && path[0] == AtEntry(j);
          assert ValueSite(es[j].value, path[1..], p);
          var k :| 0 <= k < |sub| && sub[k] == path[1..];
          assert path == [AtEntry(j)] + path[1..];
          assert sites[k] == path;
        }
      } else {
        sites := [];
      }
    case _ =>
      sites := [];
  }

  /** `extract_pages` counts page paths with multiplicity: its result has one
      element per page site of the tree, the sites being distinct and listed
      in document order, and every page site is listed. */
  lemma ExtractPagesCountsSites(n: Node) returns (sites: seq<seq<Step>>)
    requires NavShaped(n)
    ensures ExtractPages(n).Paths? && |sites| == |ExtractPages(n).paths|
    ensures forall k | 0 <= k < |sites| :: NavSite(n, sites[k], ExtractPages(n).paths[k])
    ensures forall k, l | 0 <= k < l < |sites| :: sites[k] != sites[l]
    ensures forall path, p | NavSite(n, path, p) :: path in sites
  {
    sites := NavSites(n);
    forall k, l | 0 <= k < l < |sites| ensures sites[k] != sites[l] {
      PrecedesIrreflexive(sites[k]);
    }
  }

  /** A string is among the extracted page paths exactly when the tree holds
      it at some page site. */
  lemma ExtractedIffPageSite(n: Node, p: string)
    requires NavShaped(n)
    ensures ExtractPages(n).Paths?
    ensures p in ExtractPages(n).paths <==> exists path :: NavSite(n, path, p)
  {
    var sites := NavSites(n);
    var paths := ExtractPages(n).paths;
    if p in paths {
      var k :| 0 <= k < |paths| && paths[k] == p;
      assert NavSite(n, sites[k], p);
    }
    if exists path :: NavSite(n, path, p) {
      var path :| NavSite(n, path, p);
      var k :| 0 <= k < |sites| && sites[k] == path;
      NavSiteFunctional(n, path, p, paths[k]);
      assert paths[k] == p;
      assert p in paths;
    }
    assert p in paths ==> exists path :: NavSite(n, path, p);
  }
}
