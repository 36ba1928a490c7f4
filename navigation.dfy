/** Page discovery over the documentation site's navigation tree.
    `ExtractPages` is `extract_pages` and `FlattenPagesValue` is
    `_flatten_pages_value` of docs/agno_docs_to_llm_markdown.py. */
module Navigation {

  /** A decoded JSON value as the script sees it. A `Dict` lists its entries
      in the dictionary's iteration (insertion) order; a Python dict has
      distinct keys, so the first entry with a key is the only one. */
  datatype Node =
    | Dict(entries: seq<Entry>)
    | List(items: seq<Node>)
    | Str(s: string)
    | Scalar                       // a number, a boolean or null

  datatype Entry = Entry(key: string, value: Node)

  /** The outcome of a walk: the page paths collected, or the TypeError that
      `for item in value` raises when a "pages" value is a number, a boolean
      or null. The error is not caught: it ends the walk. */
  datatype Walk = Paths(paths: seq<string>) | NotIterable

  const PagesKey: string := "pages"

  /** `pages.extend(...)` of two consecutive parts of a walk. */
  function Join(a: Walk, b: Walk): Walk
  {
    if a.Paths? && b.Paths? then Paths(a.paths + b.paths) else NotIterable
  }

  /** Position of the first entry whose key is `key`, or |es| when there is none
      (`dict.get`). */
  function IndexOf(es: seq<Entry>, key: string): (i: nat)
    ensures i <= |es|
    ensures i < |es| ==> es[i].key == key
    ensures forall j :: 0 <= j < i ==> es[j].key != key
  {
    if es == [] then 0
    else if es[0].key == key then 0
    else 1 + IndexOf(es[1..], key)
  }

  // ---------------------------------------------------------------------
  // The walk
  // ---------------------------------------------------------------------

  /** `extract_pages`: a dict contributes its entries in order, a list its
      items in order, any other value nothing. */
  function ExtractPages(n: Node): Walk
    decreases n, 1
  {
    match n
    case Dict(es) => ExtractEntries(es)
    case List(items) => ExtractItems(items)
    case _ => Paths([])
  }

  /** The loop over `obj.items()`, one entry appended at a time. */
  function ExtractEntries(es: seq<Entry>): Walk
    decreases es
  {
    if es == [] then Paths([])
    else Join(ExtractEntries(es[..|es| - 1]), EntryPages(es[|es| - 1]))
  }

  /** One entry of a dict outside a "pages" list: its value is flattened when
      the key is "pages" and walked again otherwise. */
  function EntryPages(e: Entry): Walk
    decreases e
  {
    if e.key == PagesKey then FlattenPagesValue(e.value) else ExtractPages(e.value)
  }

  /** The loop over the items of a list, one item appended at a time. */
  function ExtractItems(items: seq<Node>): Walk
    decreases items
  {
    if items == [] then Paths([])
    else Join(ExtractItems(items[..|items| - 1]), ExtractPages(items[|items| - 1]))
  }

  /** `_flatten_pages_value`: iterates its argument. A list yields its items;
      a string yields its one-character strings and a dict its keys, all of
      which are strings and so kept; anything else cannot be iterated. */
  function FlattenPagesValue(v: Node): Walk
    decreases v, 1
  {
    match v
    case List(items) => FlattenItems(items)
    case Str(s) => Paths(Characters(s))
    case Dict(es) => Paths(Keys(es))
    case Scalar => NotIterable
  }

  /** The loop over the items of a "pages" value, one item appended at a time. */
  function FlattenItems(items: seq<Node>): Walk
    decreases items
  {
    if items == [] then Paths([])
    else Join(FlattenItems(items[..|items| - 1]), FlattenItem(items[|items| - 1]))
  }

  /** One item of a "pages" value: a string is a page path; a dict contributes
      only the flattening of its own "pages" entry (`item.get('pages', [])`,
      nothing when absent); anything else is dropped. */
  function FlattenItem(item: Node): Walk
    decreases item, 0
  {
    match item
    case Str(s) => Paths([s])
    case Dict(es) =>
      var j := IndexOf(es, PagesKey);
      if j < |es| then FlattenPagesValue(es[j].value) else Paths([])
    case _ => Paths([])
  }

  function Characters(s: string): seq<string>
  {
    seq(|s|, i requires 0 <= i < |s| => [s[i]])
  }

  function Keys(es: seq<Entry>): seq<string>
  {
    seq(|es|, i requires 0 <= i < |es| => es[i].key)
  }

  /** What `for item in v` visits. */
  function Iterated(v: Node): seq<Node>
  {
    match v
    case List(items) => items
    case Str(s) => seq(|s|, i requires 0 <= i < |s| => Str([s[i]]))
    case Dict(es) => seq(|es|, i requires 0 <= i < |es| => Str(es[i].key))
    case Scalar => []
  }

  // ---------------------------------------------------------------------
  // Properties of the walk
  // ---------------------------------------------------------------------

  /** Some dict anywhere in `n` has a "pages" key. */
  ghost predicate MentionsPages(n: Node)
    decreases n
  {
    match n
    case Dict(es) => exists i | 0 <= i < |es| :: es[i].key == PagesKey || MentionsPages(es[i].value)
    case List(items) => exists i | 0 <= i < |items| :: MentionsPages(items[i])
    case _ => false
  }

  /** Page paths are reachable only through a "pages" key: a tree without one
      yields no page at all (and no error). */
  lemma {:induction false} NoPagesKeyNoPages(n: Node)
    requires !MentionsPages(n)
    ensures ExtractPages(n) == Paths([])
    decreases n, 1
  {
    match n
    case Dict(es) => NoPagesKeyNoEntryPages(es);
    case List(items) => NoPagesKeyNoItemPages(items);
    case _ =>
  }

  lemma {:induction false} NoPagesKeyNoEntryPages(es: seq<Entry>)
    requires forall i | 0 <= i < |es| :: es[i].key != PagesKey && !MentionsPages(es[i].value)
    ensures ExtractEntries(es) == Paths([])
    decreases es
  {
    if es != [] {
      NoPagesKeyNoEntryPages(es[..|es| - 1]);
      NoPagesKeyNoPages(es[|es| - 1].value);
    }
  }

  lemma {:induction false} NoPagesKeyNoItemPages(items: seq<Node>)
    requires forall i | 0 <= i < |items| :: !MentionsPages(items[i])
    ensures ExtractItems(items) == Paths([])
    decreases items
  {
    if items != [] {
      NoPagesKeyNoItemPages(items[..|items| - 1]);
      NoPagesKeyNoPages(items[|items| - 1]);
    }
  }

  /** A dict's walk is the in-order concatenation of its entries' walks:
      splitting the entries anywhere splits the result at the same place. */
  lemma {:induction false} ExtractEntriesAppend(a: seq<Entry>, b: seq<Entry>)
    ensures ExtractPages(Dict(a + b)) == Join(ExtractPages(Dict(a)), ExtractPages(Dict(b)))
    decreases |b|
  {
    if b == [] {
      assert a + b == a;
    } else {
      var b' := b[..|b| - 1];
      assert (a + b)[..|a + b| - 1] == a + b';
      assert (a + b)[|a + b| - 1] == b[|b| - 1];
      ExtractEntriesAppend(a, b');
    }
  }

  /** A list's walk is the in-order concatenation of its items' walks. */
  lemma {:induction false} ExtractItemsAppend(a: seq<Node>, b: seq<Node>)
    ensures ExtractPages(List(a + b)) == Join(ExtractPages(List(a)), ExtractPages(List(b)))
    decreases |b|
  {
    if b == [] {
      assert a + b == a;
    } else {
      var b' := b[..|b| - 1];
      assert (a + b)[..|a + b| - 1] == a + b';
      assert (a + b)[|a + b| - 1] == b[|b| - 1];
      ExtractItemsAppend(a, b');
    }
  }

  /** A "pages" list flattens to the in-order concatenation of its items. */
  lemma {:induction false} FlattenItemsAppend(a: seq<Node>, b: seq<Node>)
    ensures FlattenPagesValue(List(a + b)) == Join(FlattenPagesValue(List(a)), FlattenPagesValue(List(b)))
    decreases |b|
  {
    if b == [] {
      assert a + b == a;
    } else {
      var b' := b[..|b| - 1];
      assert (a + b)[..|a + b| - 1] == a + b';
      assert (a + b)[|a + b| - 1] == b[|b| - 1];
      FlattenItemsAppend(a, b');
    }
  }

  /** A dict's walk fails exactly when the walk of one of its entries fails:
      the first TypeError ends the whole extraction. */
  lemma {:induction false} EntriesFailIffSomeEntryFails(es: seq<Entry>)
    ensures ExtractEntries(es).NotIterable? <==> exists i | 0 <= i < |es| :: EntryPages(es[i]).NotIterable?
    decreases es
  {
    if es != [] {
      var pre := es[..|es| - 1];
      EntriesFailIffSomeEntryFails(pre);
      assert forall i | 0 <= i < |pre| :: pre[i] == es[i];
    }
  }

  /** A list's walk fails exactly when the walk of one of its items fails. */
  lemma {:induction false} ItemsFailIffSomeItemFails(items: seq<Node>)
    ensures ExtractItems(items).NotIterable? <==> exists i | 0 <= i < |items| :: ExtractPages(items[i]).NotIterable?
    decreases items
  {
    if items != [] {
      var pre := items[..|items| - 1];
      ItemsFailIffSomeItemFails(pre);
      assert forall i | 0 <= i < |pre| :: pre[i] == items[i];
    }
  }

  /** A "pages" list fails to flatten exactly when one of its items does. */
  lemma {:induction false} FlattenFailsIffSomeItemFails(items: seq<Node>)
    ensures FlattenItems(items).NotIterable? <==> exists i | 0 <= i < |items| :: FlattenItem(items[i]).NotIterable?
    decreases items
  {
    if items != [] {
      var pre := items[..|items| - 1];
      FlattenFailsIffSomeItemFails(pre);
      assert forall i | 0 <= i < |pre| :: pre[i] == items[i];
    }
  }

  /** A list of string nodes. */
  function Strs(ss: seq<string>): seq<Node>
  {
    seq(|ss|, i requires 0 <= i < |ss| => Str(ss[i]))
  }

  /** Flattening a "pages" value that is a list of strings keeps them all,
      verbatim and in order, duplicates included. */
  lemma {:induction false} FlattenStrings(ss: seq<string>)
    ensures FlattenPagesValue(List(Strs(ss))) == Paths(ss)
    decreases |ss|
  {
    if ss != [] {
      var pre := ss[..|ss| - 1];
      var items := Strs(ss);
      assert items[..|ss| - 1] == Strs(pre);
      FlattenStrings(pre);
      assert FlattenItem(items[|ss| - 1]) == Paths([ss[|ss| - 1]]);
      assert FlattenItems(items) == Join(FlattenItems(Strs(pre)), Paths([ss[|ss| - 1]]));
      assert ss == pre + [ss[|ss| - 1]];
    }
  }

  /** `FlattenPagesValue` is the flattening of whatever `for item in value`
      visits, for every value that can be iterated. */
  lemma FlattenIteratesValue(v: Node)
    requires !v.Scalar?
    ensures FlattenPagesValue(v) == FlattenPagesValue(List(Iterated(v)))
  {
    match v
    case List(_) =>
    case Str(s) =>
      FlattenStrings(Characters(s));
      assert Iterated(v) == Strs(Characters(s));
    case Dict(es) =>
      FlattenStrings(Keys(es));
      assert Iterated(v) == Strs(Keys(es));
  }

  /** A nested "pages" list is spliced in place: ["a", {"pages": ["b", "c"]}, "d"]
      gives ["a", "b", "c", "d"]. */
  lemma FlattenNestedExample()
    ensures FlattenPagesValue(List([Str("a"), Dict([Entry("pages", List([Str("b"), Str("c")]))]), Str("d")]))
         == Paths(["a", "b", "c", "d"])
  {
    var nested := Dict([Entry("pages", List([Str("b"), Str("c")]))]);
    var items := [Str("a"), nested, Str("d")];
    assert FlattenItems([Str("b"), Str("c")][..1]) == Paths(["b"]);
    assert FlattenItem(nested) == Paths(["b", "c"]);
    assert FlattenItems(items[..2][..1]) == Paths(["a"]);
    assert FlattenItems(items[..2]) == Paths(["a", "b", "c"]);
  }

  /** Inside a "pages" list a dict contributes only its own "pages" entry,
      while outside one every key is descended into. */
  lemma PagesListIgnoresOtherKeysExample()
    ensures FlattenPagesValue(List([Dict([Entry("group", Dict([Entry("pages", List([Str("x")]))]))])]))
         == Paths([])
    ensures ExtractPages(Dict([Entry("group", Dict([Entry("pages", List([Str("x")]))]))]))
         == Paths(["x"])
  {
  }

  /** A "pages" value that is a string yields its characters, one that is a
      dict yields its keys, and one that is a number fails the whole walk. */
  lemma NonListPagesValueExamples()
    ensures ExtractPages(Dict([Entry("pages", Str("ab"))])) == Paths(["a", "b"])
    ensures ExtractPages(Dict([Entry("pages", Dict([Entry("x", Scalar)]))])) == Paths(["x"])
    ensures ExtractPages(List([Dict([Entry("pages", List([Str("a")]))]), Dict([Entry("pages", Scalar)])]))
         == NotIterable
  {
  }
}
