/**
 * The navigation hook of the documentation site: markers in a navigation tree are
 * replaced by the pages their glob matches, skipping every page already placed.
 */
module DocsNav {
  import opened Prelude

  /** A navigation value: a page or title, a list, a mapping, or any other YAML scalar. */
  datatype Nav = Leaf(text: string) | Items(items: seq<Nav>) | Sections(entries: seq<Entry>) | Scalar
  datatype Entry = Entry(key: string, value: Nav)

  /** A path a glob matches: relative to the docs directory, its file name, and whether it is a file. */
  datatype DocPath = DocPath(rel: string, name: string, isFile: bool)

  const AUTO_PREFIX := "auto:"
  const AUTO_KEY := "auto"

  predicate PyBlank(c: char) {
    || c == ' ' || '\t' <= c <= '\r' || '\U{001C}' <= c <= '\U{001F}' || c == '\U{0085}' || c == '\U{00A0}'
    || c == '\U{1680}' || '\U{2000}' <= c <= '\U{200A}' || c == '\U{2028}' || c == '\U{2029}'
    || c == '\U{202F}' || c == '\U{205F}' || c == '\U{3000}'
  }

  function Strip(s: string): string {
    if s == [] then []
    else if PyBlank(s[0]) then Strip(s[1..])
    else if PyBlank(s[|s| - 1]) then Strip(s[..|s| - 1])
    else s
  }

  predicate IsTranslation(p: DocPath) {
    EndsWith(p.name, ".es.md")
  }

  /** A page a marker may list: a file, not a README, not a translation. */
  predicate Eligible(p: DocPath) {
    p.isFile && LowerAscii(p.name) != "readme.md" && !IsTranslation(p)
  }

  /** Which files a marker may list. */
  lemma {:induction false} EligibleIff(p: DocPath)
    ensures Eligible(p) <==>
      p.isFile && !ReadsAs(p.name, "readme.md") && !exists stem :: p.name == stem + ".es.md"
  {
    EndsWithIff(p.name, ".es.md");
    LowerAsciiIff(p.name, "readme.md");
  }

  ghost predicate PyBlanks(s: string) {
    forall i :: 0 <= i < |s| ==> PyBlank(s[i])
  }

  lemma {:induction false} StripFront(a: string, s: string)
    requires PyBlanks(a)
    ensures Strip(a + s) == Strip(s)
  {
    if a == [] {
      assert a + s == s;
    } else {
      assert (a + s)[1..] == a[1..] + s;
      StripFront(a[1..], s);
    }
  }

  lemma {:induction false} StripBack(t: string, b: string)
    requires PyBlanks(b) && t != [] && !PyBlank(t[0]) && !PyBlank(t[|t| - 1])
    ensures Strip(t + b) == t
  {
    if b == [] {
      assert t + b == t;
    } else {
      assert (t + b)[..|t + b| - 1] == t + b[..|b| - 1];
      StripBack(t, b[..|b| - 1]);
    }
  }

  lemma {:induction false} StripIs(a: string, t: string, b: string)
    requires PyBlanks(a) && PyBlanks(b) && (t != [] ==> !PyBlank(t[0]) && !PyBlank(t[|t| - 1]))
    ensures Strip(a + t + b) == t
  {
    Associative(a, t, b);
    StripFront(a, t + b);
    if t == [] {
      assert t + b == b + [];
      StripFront(b, []);
    } else {
      StripBack(t, b);
    }
  }

  /** A marker in either spelling, with any blanks around its pattern. */
  lemma {:induction false} MarkersRead(a: string, pattern: string, b: string)
    requires PyBlanks(a) && PyBlanks(b)
    requires pattern != [] ==> !PyBlank(pattern[0]) && !PyBlank(pattern[|pattern| - 1])
    ensures AutoPattern(Leaf("auto:" + a + pattern + b)) == Some(pattern)
    ensures AutoPattern(Sections([Entry("auto", Leaf(a + pattern + b))])) == Some(pattern)
  {
    StripIs(a, pattern, b);
    StripIs("", "auto", "");
    assert "" + "auto" + "" == "auto";
    assert ("auto:" + a + pattern + b)[5..] == a + pattern + b;
  }

  /** The glob of a marker, in either YAML spelling. */
  function AutoPattern(item: Nav): Option<string> {
    match item
    case Leaf(text) => if AUTO_PREFIX <= text then Some(Strip(text[|AUTO_PREFIX|..])) else None
    case Sections(entries) =>
      if |entries| == 1 && Strip(entries[0].key) == AUTO_KEY && entries[0].value.Leaf?
      then Some(Strip(entries[0].value.text))
      else None
    case _ => None
  }

  // ------------------------------------------------------------------
  // Pages written by hand
  // ------------------------------------------------------------------

  /** Every page written by hand, in order of appearance. */
  function Written(node: Nav): seq<string>
    decreases node, 1
  {
    if AutoPattern(node).Some? then []
    else
      match node
      case Leaf(text) => [text]
      case Items(items) => WrittenItems(items)
      case Sections(entries) => WrittenEntries(entries)
      case Scalar => []
  }

  function WrittenItems(items: seq<Nav>): seq<string>
    decreases items, 0
  {
    if items == [] then [] else Written(items[0]) + WrittenItems(items[1..])
  }

  function WrittenEntries(entries: seq<Entry>): seq<string>
    decreases entries, 0
  {
    if entries == [] then [] else Written(entries[0].value) + WrittenEntries(entries[1..])
  }

  method CollectExplicit(node: Nav) returns (found: set<string>)
    ensures found == Elements(Written(node))
    decreases node
  {
    found := {};
    if AutoPattern(node).Some? {
      return;
    }
    match node
    case Leaf(text) => found := {text};
    case Items(items) =>
      var i := 0;
      while i < |items|
        invariant 0 <= i <= |items|
        invariant found + Elements(WrittenItems(items[i..])) == Elements(WrittenItems(items))
      {
        ElementsJoin(Written(items[i]), WrittenItems(items[i..][1..]));
        assert items[i..][1..] == items[i + 1..];
        var more := CollectExplicit(items[i]);
        found := found + more;
        i := i + 1;
      }
    case Sections(entries) =>
      var i := 0;
      while i < |entries|
        invariant 0 <= i <= |entries|
        invariant found + Elements(WrittenEntries(entries[i..])) == Elements(WrittenEntries(entries))
      {
        ElementsJoin(Written(entries[i].value), WrittenEntries(entries[i..][1..]));
        assert entries[i..][1..] == entries[i + 1..];
        var more := CollectExplicit(entries[i].value);
        found := found + more;
        i := i + 1;
      }
    case Scalar =>
  }

  lemma {:induction false} ElementsJoin<T>(a: seq<T>, b: seq<T>)
    ensures Elements(a + b) == Elements(a) + Elements(b)
  {
  }

  // ------------------------------------------------------------------
  // Expansion
  // ------------------------------------------------------------------

  /** One marker met on the walk, and the pages it was replaced by. */
  datatype Expansion = Expansion(pattern: string, pages: seq<string>)

  /** What the walk threads along: the pages placed so far, and the markers met. */
  datatype Placing = Placing(placed: set<string>, met: seq<Expansion>)

  type Glob = string -> seq<DocPath>

  /** The eligible pages of the list not placed before, each once. */
  function NewPages(paths: seq<DocPath>, placed: set<string>): seq<string> {
    if paths == [] then []
    else if Eligible(paths[0]) && paths[0].rel !in placed then
      [paths[0].rel] + NewPages(paths[1..], placed + {paths[0].rel})
    else NewPages(paths[1..], placed)
  }

  ghost function Met(glob: Glob, pattern: string, st: Placing): Placing {
    var pages := NewPages(glob(pattern), st.placed);
    Placing(st.placed + Elements(pages), st.met + [Expansion(pattern, pages)])
  }

  datatype Walked = Walked(node: Nav, st: Placing)
  datatype WalkedItems = WalkedItems(items: seq<Nav>, st: Placing)
  datatype WalkedEntries = WalkedEntries(entries: seq<Entry>, st: Placing)

  ghost function Walk(glob: Glob, node: Nav, st: Placing): Walked
    decreases node, 1
  {
    match node
    case Items(items) => var w := WalkItems(glob, items, st); Walked(Items(w.items), w.st)
    case Sections(entries) => var w := WalkEntries(glob, entries, st); Walked(Sections(w.entries), w.st)
    case _ => Walked(node, st)
  }

  function Leaves(pages: seq<string>): (r: seq<Nav>)
    ensures |r| == |pages| && forall i :: 0 <= i < |pages| ==> r[i] == Leaf(pages[i])
  {
    seq(|pages|, i requires 0 <= i < |pages| => Leaf(pages[i]))
  }

  /** A list item: a marker becomes its new pages, anything else is walked. */
  ghost function WalkItem(glob: Glob, item: Nav, st: Placing): WalkedItems
    decreases item, 2
  {
    match AutoPattern(item)
    case Some(pattern) => WalkedItems(Leaves(NewPages(glob(pattern), st.placed)), Met(glob, pattern, st))
    case None => var w := Walk(glob, item, st); WalkedItems([w.node], w.st)
  }

  ghost function WalkItems(glob: Glob, items: seq<Nav>, st: Placing): WalkedItems
    decreases items, 0
  {
    if items == [] then WalkedItems([], st)
    else
      var first := WalkItem(glob, items[0], st);
      var rest := WalkItems(glob, items[1..], first.st);
      WalkedItems(first.items + rest.items, rest.st)
  }

  ghost function WalkEntries(glob: Glob, entries: seq<Entry>, st: Placing): WalkedEntries
    decreases entries, 0
  {
    if entries == [] then WalkedEntries([], st)
    else
      var first := Walk(glob, entries[0].value, st);
      var rest := WalkEntries(glob, entries[1..], first.st);
      WalkedEntries([Entry(entries[0].key, first.node)] + rest.entries, rest.st)
  }

  /** expanded[pattern] = len(pages), marker by marker: a later one overwrites. */
  function Counts(met: seq<Expansion>): map<string, nat> {
    if met == [] then map[]
    else Counts(met[..|met| - 1])[met[|met| - 1].pattern := |met[|met| - 1].pages|]
  }

  /** The hook's two mutable collections. */
  class Expander {
    var placed: set<string>
    var expanded: map<string, nat>
    ghost var met: seq<Expansion>

    constructor (placed0: set<string>)
      ensures placed == placed0 && expanded == map[] && met == []
    {
      placed, expanded, met := placed0, map[], [];
    }

    ghost function State(): Placing
      reads this
    {
      Placing(placed, met)
    }

    ghost predicate Valid()
      reads this
    {
      expanded == Counts(met)
    }

    method ExpandGlob(paths: seq<DocPath>) returns (out: seq<string>)
      modifies this`placed
      ensures out == NewPages(paths, old(placed))
      ensures placed == old(placed) + Elements(out)
    {
      out := [];
      var i := 0;
      while i < |paths|
        invariant 0 <= i <= |paths|
        invariant NewPages(paths, old(placed)) == out + NewPages(paths[i..], placed)
        invariant placed == old(placed) + Elements(out)
      {
        assert paths[i..][1..] == paths[i + 1..];
        if Eligible(paths[i]) && paths[i].rel !in placed {
          Associative(out, [paths[i].rel], NewPages(paths[i + 1..], placed + {paths[i].rel}));
          ElementsSnoc(out, paths[i].rel);
          placed := placed + {paths[i].rel};
          out := out + [paths[i].rel];
        }
        i := i + 1;
      }
    }

    method ExpandMarker(glob: Glob, pattern: string) returns (pages: seq<string>)
      requires Valid()
      modifies this
      ensures Valid()
      ensures pages == NewPages(glob(pattern), old(placed)) && State() == Met(glob, pattern, old(State()))
    {
      pages := ExpandGlob(glob(pattern));
      expanded := expanded[pattern := |pages|];
      met := met + [Expansion(pattern, pages)];
      assert met[..|met| - 1] == old(met);
    }

    method WalkNav(glob: Glob, node: Nav) returns (out: Nav)
      requires Valid()
      modifies this
      ensures Valid()
      ensures Walked(out, State()) == Walk(glob, node, old(State()))
      decreases node, 1
    {
      match node
      case Items(items) =>
        var done := WalkList(glob, items);
        out := Items(done);
      case Sections(entries) =>
        var done := WalkMapping(glob, entries);
        out := Sections(done);
      case _ => out := node;
    }

    method WalkList(glob: Glob, items: seq<Nav>) returns (done: seq<Nav>)
      requires Valid()
      modifies this
      ensures Valid()
      ensures WalkedItems(done, State()) == WalkItems(glob, items, old(State()))
      decreases items, 0
    {
      done := [];
      var i := 0;
      while i < |items|
        invariant 0 <= i <= |items| && Valid()
        invariant WalkItems(glob, items, old(State())).items == done + WalkItems(glob, items[i..], State()).items
        invariant WalkItems(glob, items, old(State())).st == WalkItems(glob, items[i..], State()).st
      {
        assert items[i..][1..] == items[i + 1..];
        ghost var first := WalkItem(glob, items[i], State());
        Associative(done, first.items, WalkItems(glob, items[i + 1..], first.st).items);
        var pattern := AutoPattern(items[i]);
        if pattern.Some? {
          var pages := ExpandMarker(glob, pattern.value);
          done := done + Leaves(pages);
        } else {
          var walked := WalkNav(glob, items[i]);
          done := done + [walked];
        }
        i := i + 1;
      }
      assert items[i..] == [] && done + [] == done;
    }

    method WalkMapping(glob: Glob, entries: seq<Entry>) returns (done: seq<Entry>)
      requires Valid()
      modifies this
      ensures Valid()
      ensures WalkedEntries(done, State()) == WalkEntries(glob, entries, old(State()))
      decreases entries, 0
    {
      done := [];
      var i := 0;
      while i < |entries|
        invariant 0 <= i <= |entries| && Valid()
        invariant WalkEntries(glob, entries, old(State())).entries
            == done + WalkEntries(glob, entries[i..], State()).entries
        invariant WalkEntries(glob, entries, old(State())).st == WalkEntries(glob, entries[i..], State()).st
      {
        assert entries[i..][1..] == entries[i + 1..];
        ghost var first := Walk(glob, entries[i].value, State());
        Associative(done, [Entry(entries[i].key, first.node)], WalkEntries(glob, entries[i + 1..], first.st).entries);
        var walked := WalkNav(glob, entries[i].value);
        done := done + [Entry(entries[i].key, walked)];
        i := i + 1;
      }
      assert entries[i..] == [] && done + [] == done;
    }
  }
}
