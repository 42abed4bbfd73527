/**
 * What the expansion of navigation markers guarantees about the whole tree, and the
 * entry point of the hook with its refusal to build.
 */
module NavTheorems {
  import opened Prelude
  import opened DocsNav

  // ------------------------------------------------------------------
  // The tree walk is a run over the markers, in reading order
  // ------------------------------------------------------------------

  /** The patterns of the markers placed as list items, in reading order. */
  ghost function Markers(node: Nav): seq<string>
    decreases node, 1
  {
    match node
    case Items(items) => MarkersOfItems(items)
    case Sections(entries) => MarkersOfEntries(entries)
    case _ => []
  }

  ghost function MarkersOfItem(item: Nav): seq<string>
    decreases item, 2
  {
    match AutoPattern(item)
    case Some(pattern) => [pattern]
    case None => Markers(item)
  }

  ghost function MarkersOfItems(items: seq<Nav>): seq<string>
    decreases items, 0
  {
    if items == [] then [] else MarkersOfItem(items[0]) + MarkersOfItems(items[1..])
  }

  ghost function MarkersOfEntries(entries: seq<Entry>): seq<string>
    decreases entries, 0
  {
    if entries == [] then [] else Markers(entries[0].value) + MarkersOfEntries(entries[1..])
  }

  /** The markers expanded one after the other, the tree forgotten. */
  ghost function Run(glob: Glob, patterns: seq<string>, st: Placing): Placing {
    if patterns == [] then st else Run(glob, patterns[1..], Met(glob, patterns[0], st))
  }

  lemma {:induction false} RunAppend(glob: Glob, a: seq<string>, b: seq<string>, st: Placing)
    ensures Run(glob, a + b, st) == Run(glob, b, Run(glob, a, st))
    decreases |a|
  {
    if a == [] {
      assert a + b == b;
    } else {
      assert (a + b)[1..] == a[1..] + b;
      RunAppend(glob, a[1..], b, Met(glob, a[0], st));
    }
  }

  lemma {:induction false} RunSnoc(glob: Glob, patterns: seq<string>, p: string, st: Placing)
    ensures Run(glob, patterns + [p], st) == Met(glob, p, Run(glob, patterns, st))
  {
    RunAppend(glob, patterns, [p], st);
    var before := Run(glob, patterns, st);
    assert [p][1..] == [];
    assert Run(glob, [p], before) == Run(glob, [], Met(glob, p, before));
  }

  lemma {:induction false} WalkIsRun(glob: Glob, node: Nav, st: Placing)
    ensures Walk(glob, node, st).st == Run(glob, Markers(node), st)
    decreases node, 1
  {
    match node
    case Items(items) => WalkItemsIsRun(glob, items, st);
    case Sections(entries) => WalkEntriesIsRun(glob, entries, st);
    case _ =>
  }

  lemma {:induction false} WalkItemIsRun(glob: Glob, item: Nav, st: Placing)
    ensures WalkItem(glob, item, st).st == Run(glob, MarkersOfItem(item), st)
    decreases item, 2
  {
    match AutoPattern(item)
    case Some(pattern) => RunSnoc(glob, [], pattern, st); assert [] + [pattern] == [pattern];
    case None => WalkIsRun(glob, item, st);
  }

  lemma {:induction false} WalkItemsIsRun(glob: Glob, items: seq<Nav>, st: Placing)
    ensures WalkItems(glob, items, st).st == Run(glob, MarkersOfItems(items), st)
    decreases items, 0
  {
    if items != [] {
      WalkItemIsRun(glob, items[0], st);
      WalkItemsIsRun(glob, items[1..], WalkItem(glob, items[0], st).st);
      RunAppend(glob, MarkersOfItem(items[0]), MarkersOfItems(items[1..]), st);
    }
  }

  lemma {:induction false} WalkEntriesIsRun(glob: Glob, entries: seq<Entry>, st: Placing)
    ensures WalkEntries(glob, entries, st).st == Run(glob, MarkersOfEntries(entries), st)
    decreases entries, 0
  {
    if entries != [] {
      WalkIsRun(glob, entries[0].value, st);
      WalkEntriesIsRun(glob, entries[1..], Walk(glob, entries[0].value, st).st);
      RunAppend(glob, Markers(entries[0].value), MarkersOfEntries(entries[1..]), st);
    }
  }

  // ------------------------------------------------------------------
  // What one marker adds
  // ------------------------------------------------------------------

  /** The pages a list of matches could contribute. */
  ghost function Candidates(paths: seq<DocPath>): set<string> {
    set d | d in paths && Eligible(d) :: d.rel
  }

  lemma {:induction false} CandidatesStep(paths: seq<DocPath>)
    requires paths != []
    ensures Candidates(paths) == (if Eligible(paths[0]) then {paths[0].rel} else {}) + Candidates(paths[1..])
  {
    assert forall d :: d in paths <==> d == paths[0] || d in paths[1..];
  }

  lemma {:induction false} NewPagesExactly(paths: seq<DocPath>, placed: set<string>)
    ensures var pages := NewPages(paths, placed);
            NoDuplicates(pages) && Elements(pages) == Candidates(paths) - placed
    decreases |paths|
  {
    if paths != [] {
      CandidatesStep(paths);
      var first := paths[0].rel;
      if Eligible(paths[0]) && first !in placed {
        NewPagesExactly(paths[1..], placed + {first});
        ElementsJoin([first], NewPages(paths[1..], placed + {first}));
        assert first !in Elements(NewPages(paths[1..], placed + {first}));
      } else {
        NewPagesExactly(paths[1..], placed);
      }
    }
  }

  // ------------------------------------------------------------------
  // What a run adds
  // ------------------------------------------------------------------

  /** All generated pages, in order. */
  ghost function Generated(met: seq<Expansion>): seq<string> {
    if met == [] then [] else Generated(met[..|met| - 1]) + met[|met| - 1].pages
  }

  lemma {:induction false} GeneratedSnoc(met: seq<Expansion>, e: Expansion)
    ensures Generated(met + [e]) == Generated(met) + e.pages
  {
    assert (met + [e])[..|met|] == met;
  }

  /** The filtered matches of all the patterns. */
  ghost function AllCandidates(glob: Glob, patterns: seq<string>): set<string> {
    set p, d | p in patterns && d in glob(p) && Eligible(d) :: d.rel
  }

  lemma {:induction false} AllCandidatesSnoc(glob: Glob, patterns: seq<string>, p: string)
    ensures AllCandidates(glob, patterns + [p]) == AllCandidates(glob, patterns) + Candidates(glob(p))
  {
    assert forall q :: q in patterns + [p] <==> q in patterns || q == p;
  }

  ghost function RunFrom(glob: Glob, patterns: seq<string>, placed0: set<string>): Placing {
    Run(glob, patterns, Placing(placed0, []))
  }

  lemma {:induction false} RunFromStep(glob: Glob, patterns: seq<string>, placed0: set<string>)
    requires patterns != []
    ensures RunFrom(glob, patterns, placed0)
         == Met(glob, patterns[|patterns| - 1], RunFrom(glob, patterns[..|patterns| - 1], placed0))
  {
    var front, last := patterns[..|patterns| - 1], patterns[|patterns| - 1];
    assert front + [last] == patterns;
    RunSnoc(glob, front, last, Placing(placed0, []));
  }

  /** Nothing is generated twice or over a hand-placed page, and nothing eligible is missed. */
  lemma {:induction false} RunGenerates(glob: Glob, patterns: seq<string>, placed0: set<string>)
    ensures var st := RunFrom(glob, patterns, placed0);
            && st.placed == placed0 + AllCandidates(glob, patterns)
            && NoDuplicates(Generated(st.met))
            && Elements(Generated(st.met)) == AllCandidates(glob, patterns) - placed0
    decreases |patterns|
  {
    if patterns != [] {
      var front, last := patterns[..|patterns| - 1], patterns[|patterns| - 1];
      var before := RunFrom(glob, front, placed0);
      var pages := NewPages(glob(last), before.placed);
      RunGenerates(glob, front, placed0);
      RunFromStep(glob, patterns, placed0);
      NewPagesExactly(glob(last), before.placed);
      GeneratedSnoc(before.met, Expansion(last, pages));
      ElementsJoin(Generated(before.met), pages);
      assert front + [last] == patterns;
      AllCandidatesSnoc(glob, front, last);
      JoinDistinct(Generated(before.met), pages);
    }
  }

  lemma {:induction false} JoinDistinct<T>(a: seq<T>, b: seq<T>)
    requires NoDuplicates(a) && NoDuplicates(b) && Elements(a) !! Elements(b)
    ensures NoDuplicates(a + b)
  {
    forall i, j | 0 <= i < j < |a + b| ensures (a + b)[i] != (a + b)[j] {
      if i < |a| <= j {
        assert a[i] in Elements(a) && b[j - |a|] in Elements(b);
      }
    }
  }

  // ------------------------------------------------------------------
  // The rewritten tree lists the written pages and the generated ones
  // ------------------------------------------------------------------

  /** Every text at a leaf, markers included. */
  ghost function Texts(node: Nav): seq<string>
    decreases node, 1
  {
    match node
    case Leaf(text) => [text]
    case Items(items) => TextsOfItems(items)
    case Sections(entries) => TextsOfEntries(entries)
    case Scalar => []
  }

  ghost function TextsOfItems(items: seq<Nav>): seq<string>
    decreases items, 0
  {
    if items == [] then [] else Texts(items[0]) + TextsOfItems(items[1..])
  }

  ghost function TextsOfEntries(entries: seq<Entry>): seq<string>
    decreases entries, 0
  {
    if entries == [] then [] else Texts(entries[0].value) + TextsOfEntries(entries[1..])
  }

  /** Markers stand only as list items, never as the value of a mapping or as the whole tree. */
  ghost predicate MarkersAreItems(node: Nav)
    decreases node, 1
  {
    && AutoPattern(node).None?
    && (node.Items? ==> ItemsWellMarked(node.items))
    && (node.Sections? ==> EntriesWellMarked(node.entries))
  }

  ghost predicate ItemsWellMarked(items: seq<Nav>)
    decreases items, 0
  {
    items == [] || ((AutoPattern(items[0]).Some? || MarkersAreItems(items[0])) && ItemsWellMarked(items[1..]))
  }

  ghost predicate EntriesWellMarked(entries: seq<Entry>)
    decreases entries, 0
  {
    entries == [] || (MarkersAreItems(entries[0].value) && EntriesWellMarked(entries[1..]))
  }

  /** The texts of the markers that stand anywhere else: these are published as they are. */
  ghost function Stray(node: Nav): seq<string>
    decreases node, 1
  {
    if AutoPattern(node).Some? then Texts(node)
    else
      match node
      case Items(items) => StrayInItems(items)
      case Sections(entries) => StrayInEntries(entries)
      case _ => []
  }

  ghost function StrayInItems(items: seq<Nav>): seq<string>
    decreases items, 0
  {
    if items == [] then []
    else (if AutoPattern(items[0]).Some? then [] else Stray(items[0])) + StrayInItems(items[1..])
  }

  ghost function StrayInEntries(entries: seq<Entry>): seq<string>
    decreases entries, 0
  {
    if entries == [] then [] else Stray(entries[0].value) + StrayInEntries(entries[1..])
  }

  lemma {:induction false} NoStrayIff(node: Nav)
    ensures Stray(node) == [] <==> MarkersAreItems(node)
    decreases node, 1
  {
    if AutoPattern(node).Some? {
      MarkerText(node);
    } else {
      match node
      case Items(items) => NoStrayInItemsIff(items);
      case Sections(entries) => NoStrayInEntriesIff(entries);
      case _ =>
    }
  }

  lemma {:induction false} NoStrayInItemsIff(items: seq<Nav>)
    ensures StrayInItems(items) == [] <==> ItemsWellMarked(items)
    decreases items, 0
  {
    if items != [] {
      NoStrayIff(items[0]);
      NoStrayInItemsIff(items[1..]);
    }
  }

  lemma {:induction false} NoStrayInEntriesIff(entries: seq<Entry>)
    ensures StrayInEntries(entries) == [] <==> EntriesWellMarked(entries)
    decreases entries, 0
  {
    if entries != [] {
      NoStrayIff(entries[0].value);
      NoStrayInEntriesIff(entries[1..]);
    }
  }

  /** A marker has one text, none of it written by hand, and the walk leaves it alone where it is no list item. */
  lemma {:induction false} MarkerText(node: Nav)
    requires AutoPattern(node).Some?
    ensures |Texts(node)| == 1 && Written(node) == []
    ensures forall glob, st :: Walk(glob, node, st) == Walked(node, st)
  {
    if node.Sections? {
      var entry := node.entries[0];
      assert node.entries == [entry] && node.entries[1..] == [];
      assert TextsOfEntries(node.entries) == Texts(entry.value) + TextsOfEntries([]);
      forall glob, st
        ensures Walk(glob, node, st) == Walked(node, st)
      {
        assert Walk(glob, entry.value, st) == Walked(entry.value, st);
        assert WalkEntries(glob, node.entries[1..], st) == WalkedEntries([], st);
        assert WalkEntries(glob, node.entries, st) == WalkedEntries([entry] + [], st);
      }
    }
  }

  /** The texts of a stretch of the output are those written there, its stray markers and the pages it generated. */
  ghost predicate Balanced(texts: seq<string>, written: seq<string>, stray: seq<string>, before: Placing,
      after: Placing) {
    multiset(texts) + multiset(Generated(before.met))
    == multiset(written) + multiset(stray) + multiset(Generated(after.met))
  }

  lemma {:induction false} BalancedJoin(texts0: seq<string>, texts1: seq<string>, written0: seq<string>,
      written1: seq<string>, stray0: seq<string>, stray1: seq<string>, before: Placing, between: Placing,
      after: Placing)
    requires Balanced(texts0, written0, stray0, before, between)
    requires Balanced(texts1, written1, stray1, between, after)
    ensures Balanced(texts0 + texts1, written0 + written1, stray0 + stray1, before, after)
  {
    MultisetsJoin(multiset(texts0), multiset(texts1), multiset(written0), multiset(written1),
                  multiset(stray0), multiset(stray1),
                  multiset(Generated(before.met)), multiset(Generated(between.met)), multiset(Generated(after.met)));
  }

  lemma {:induction false} MultisetsJoin<T>(t0: multiset<T>, t1: multiset<T>, w0: multiset<T>, w1: multiset<T>,
      s0: multiset<T>, s1: multiset<T>, g0: multiset<T>, g1: multiset<T>, g2: multiset<T>)
    requires t0 + g0 == w0 + s0 + g1 && t1 + g1 == w1 + s1 + g2
    ensures t0 + t1 + g0 == w0 + w1 + (s0 + s1) + g2
  {
    forall x ensures (t0 + t1 + g0)[x] == (w0 + w1 + (s0 + s1) + g2)[x] {
      assert (t0 + g0)[x] == (w0 + s0 + g1)[x] && (t1 + g1)[x] == (w1 + s1 + g2)[x];
    }
  }

  lemma {:induction false} TextsOfLeaves(pages: seq<string>)
    ensures TextsOfItems(Leaves(pages)) == pages
    decreases |pages|
  {
    if pages != [] {
      assert Leaves(pages)[1..] == Leaves(pages[1..]);
      TextsOfLeaves(pages[1..]);
    }
  }

  lemma {:induction false} TextsOfItemsJoin(a: seq<Nav>, b: seq<Nav>)
    ensures TextsOfItems(a + b) == TextsOfItems(a) + TextsOfItems(b)
    decreases |a|
  {
    if a == [] {
      assert a + b == b;
    } else {
      assert (a + b)[1..] == a[1..] + b;
      TextsOfItemsJoin(a[1..], b);
    }
  }

  lemma {:induction false} WalkKeepsTexts(glob: Glob, node: Nav, st: Placing)
    ensures var w := Walk(glob, node, st);
            Balanced(Texts(w.node), Written(node), Stray(node), st, w.st)
    decreases node, 1
  {
    if AutoPattern(node).Some? {
      MarkerText(node);
    } else {
      match node
      case Items(items) => WalkItemsKeepsTexts(glob, items, st);
      case Sections(entries) => WalkEntriesKeepsTexts(glob, entries, st);
      case _ =>
    }
  }

  lemma {:induction false} WalkItemKeepsTexts(glob: Glob, item: Nav, st: Placing)
    ensures var w := WalkItem(glob, item, st);
            var stray := if AutoPattern(item).Some? then [] else Stray(item);
            Balanced(TextsOfItems(w.items), Written(item), stray, st, w.st)
    decreases item, 2
  {
    match AutoPattern(item)
    case Some(pattern) =>
      var pages := NewPages(glob(pattern), st.placed);
      TextsOfLeaves(pages);
      GeneratedSnoc(st.met, Expansion(pattern, pages));
    case None =>
      WalkKeepsTexts(glob, item, st);
      var w := Walk(glob, item, st);
      assert [w.node][1..] == [];
      assert TextsOfItems([w.node]) == Texts(w.node) + TextsOfItems([]);
  }

  lemma {:induction false} WalkItemsKeepsTexts(glob: Glob, items: seq<Nav>, st: Placing)
    ensures var w := WalkItems(glob, items, st);
            Balanced(TextsOfItems(w.items), WrittenItems(items), StrayInItems(items), st, w.st)
    decreases items, 0
  {
    if items != [] {
      var first := WalkItem(glob, items[0], st);
      var rest := WalkItems(glob, items[1..], first.st);
      var stray := if AutoPattern(items[0]).Some? then [] else Stray(items[0]);
      WalkItemKeepsTexts(glob, items[0], st);
      WalkItemsKeepsTexts(glob, items[1..], first.st);
      TextsOfItemsJoin(first.items, rest.items);
      BalancedJoin(TextsOfItems(first.items), TextsOfItems(rest.items), Written(items[0]), WrittenItems(items[1..]),
                   stray, StrayInItems(items[1..]), st, first.st, rest.st);
    }
  }

  lemma {:induction false} WalkEntriesKeepsTexts(glob: Glob, entries: seq<Entry>, st: Placing)
    ensures var w := WalkEntries(glob, entries, st);
            Balanced(TextsOfEntries(w.entries), WrittenEntries(entries), StrayInEntries(entries), st, w.st)
    decreases entries, 0
  {
    if entries != [] {
      var first := Walk(glob, entries[0].value, st);
      var rest := WalkEntries(glob, entries[1..], first.st);
      var all := WalkEntries(glob, entries, st);
      WalkKeepsTexts(glob, entries[0].value, st);
      WalkEntriesKeepsTexts(glob, entries[1..], first.st);
      assert all.entries[1..] == rest.entries && all.entries[0].value == first.node;
      BalancedJoin(Texts(first.node), TextsOfEntries(rest.entries),
                   Written(entries[0].value), WrittenEntries(entries[1..]),
                   Stray(entries[0].value), StrayInEntries(entries[1..]), st, first.st, rest.st);
    }
  }

  /**
   * The published navigation: every page written by hand as often as it was written, every
   * marker outside a list as it stands, and each generated page exactly once; the generated
   * ones are the filtered matches of the list markers minus the pages written by hand.
   */
  lemma {:induction false} NavListsEachPageOnce(glob: Glob, nav: Nav)
    ensures var byHand := Elements(Written(nav));
            var w := Walk(glob, nav, Placing(byHand, []));
            var generated := Generated(w.st.met);
            && multiset(Texts(w.node)) == multiset(Written(nav)) + multiset(Stray(nav)) + multiset(generated)
            && NoDuplicates(generated)
            && Elements(generated) == AllCandidates(glob, Markers(nav)) - byHand
  {
    var byHand := Elements(Written(nav));
    WalkKeepsTexts(glob, nav, Placing(byHand, []));
    WalkIsRun(glob, nav, Placing(byHand, []));
    RunGenerates(glob, Markers(nav), byHand);
  }

  /** Nothing but pages is published exactly when every marker is a list item. */
  lemma {:induction false} OnlyPagesIffMarkersAreItems(glob: Glob, nav: Nav)
    ensures var w := Walk(glob, nav, Placing(Elements(Written(nav)), []));
            multiset(Texts(w.node)) == multiset(Written(nav)) + multiset(Generated(w.st.met)) <==> MarkersAreItems(nav)
  {
    var w := Walk(glob, nav, Placing(Elements(Written(nav)), []));
    NavListsEachPageOnce(glob, nav);
    NoStrayIff(nav);
    OnlyIfNothingExtra(multiset(Written(nav)), multiset(Stray(nav)), multiset(Generated(w.st.met)));
  }

  lemma {:induction false} OnlyIfNothingExtra<T>(written: multiset<T>, stray: multiset<T>, generated: multiset<T>)
    ensures written + stray + generated == written + generated <==> |stray| == 0
  {
    if written + stray + generated == written + generated {
      forall x ensures x !in stray {
        assert (written + stray + generated)[x] == (written + generated)[x];
      }
      assert stray == multiset{};
    }
  }

  /** For example, a marker as the value of a mapping is published unexpanded, and nothing is refused. */
  lemma {:induction false} MarkerAsValueStays(glob: Glob, title: string, pattern: string)
    ensures var nav := Sections([Entry(title, Leaf(AUTO_PREFIX + pattern))]);
            var w := Walk(glob, nav, Placing(Elements(Written(nav)), []));
            !MarkersAreItems(nav) && w.node == nav && !SomeCountZero(w.st.met)
  {
    var value := Leaf(AUTO_PREFIX + pattern);
    var nav := Sections([Entry(title, value)]);
    var st := Placing(Elements(Written(nav)), []);
    assert AutoPattern(value).Some?;
    assert !EntriesWellMarked(nav.entries);
    assert nav.entries[1..] == [];
    MarkerText(value);
    assert WalkEntries(glob, nav.entries[1..], st) == WalkedEntries([], st);
    assert WalkEntries(glob, nav.entries, st) == WalkedEntries([Entry(title, value)] + [], st);
  }

  // ------------------------------------------------------------------
  // Refusal
  // ------------------------------------------------------------------

  /** What the hook checks: some pattern whose last recorded count is zero. */
  ghost predicate SomeCountZero(met: seq<Expansion>) {
    exists p :: p in Counts(met) && Counts(met)[p] == 0
  }

  ghost predicate SomeMarkerEmpty(met: seq<Expansion>) {
    exists k :: 0 <= k < |met| && met[k].pages == []
  }

  lemma {:induction false} CountsSnoc(met: seq<Expansion>, e: Expansion)
    ensures Counts(met + [e]) == Counts(met)[e.pattern := |e.pages|]
  {
    assert (met + [e])[..|met|] == met;
  }

  lemma {:induction false} CountsKeys(glob: Glob, patterns: seq<string>, placed0: set<string>)
    ensures Counts(RunFrom(glob, patterns, placed0).met).Keys == Elements(patterns)
    decreases |patterns|
  {
    if patterns != [] {
      var front, last := patterns[..|patterns| - 1], patterns[|patterns| - 1];
      var before := RunFrom(glob, front, placed0);
      CountsKeys(glob, front, placed0);
      RunFromStep(glob, patterns, placed0);
      CountsSnoc(before.met, Expansion(last, NewPages(glob(last), before.placed)));
      assert front + [last] == patterns;
      ElementsSnoc(front, last);
    }
  }

  /** A marker adds nothing exactly when all its matches are already placed. */
  lemma {:induction false} EmptyIffPlaced(paths: seq<DocPath>, placed: set<string>)
    ensures NewPages(paths, placed) == [] <==> Candidates(paths) <= placed
  {
    NewPagesExactly(paths, placed);
    var pages, left := NewPages(paths, placed), Candidates(paths) - placed;
    assert Candidates(paths) <= placed <==> left == {} by {
      if left == {} {
        forall page | page in Candidates(paths)
          ensures page in placed
        {
          assert page in left || page in placed;
        }
      }
    }
    if pages != [] {
      assert pages[0] in Elements(pages);
    }
  }

  /** The second marker with a pattern finds nothing left. */
  lemma {:induction false} RepeatFindsNothing(glob: Glob, patterns: seq<string>, p: string, placed0: set<string>)
    requires p in patterns
    ensures NewPages(glob(p), RunFrom(glob, patterns, placed0).placed) == []
  {
    RunGenerates(glob, patterns, placed0);
    assert Candidates(glob(p)) <= AllCandidates(glob, patterns);
    EmptyIffPlaced(glob(p), RunFrom(glob, patterns, placed0).placed);
  }

  /** Overwriting the counts loses nothing: an empty marker is never hidden by a later one. */
  lemma {:induction false} OverwritingHidesNothing(glob: Glob, patterns: seq<string>, placed0: set<string>)
    ensures var met := RunFrom(glob, patterns, placed0).met;
            SomeCountZero(met) <==> SomeMarkerEmpty(met)
    decreases |patterns|
  {
    if patterns != [] {
      var front, last := patterns[..|patterns| - 1], patterns[|patterns| - 1];
      var before := RunFrom(glob, front, placed0);
      var e := Expansion(last, NewPages(glob(last), before.placed));
      OverwritingHidesNothing(glob, front, placed0);
      RunFromStep(glob, patterns, placed0);
      CountsSnoc(before.met, e);
      CountsKeys(glob, front, placed0);
      if last in front {
        RepeatFindsNothing(glob, front, last, placed0);
      }
      StepHidesNothing(before.met, e);
    }
  }

  lemma {:induction false} StepHidesNothing(met: seq<Expansion>, e: Expansion)
    requires SomeCountZero(met) <==> SomeMarkerEmpty(met)
    requires e.pattern in Counts(met) ==> e.pages == []
    ensures SomeCountZero(met + [e]) <==> SomeMarkerEmpty(met + [e])
  {
    CountsSnoc(met, e);
    var longer := met + [e];
    assert longer[|met|] == e;
    if e.pages == [] {
      assert Counts(longer)[e.pattern] == 0;
    } else {
      assert SomeCountZero(longer) <==> SomeCountZero(met) by {
        if p :| p in Counts(met) && Counts(met)[p] == 0 {
          assert Counts(longer)[p] == 0;
        }
      }
      assert SomeMarkerEmpty(longer) <==> SomeMarkerEmpty(met) by {
        if k :| 0 <= k < |met| && met[k].pages == [] {
          assert longer[k].pages == [];
        }
      }
    }
  }

  /** Marker k finds a page of its own: one neither written by hand nor matched by a marker before it. */
  ghost predicate FindsOwnPage(glob: Glob, patterns: seq<string>, k: nat, byHand: set<string>)
    requires k < |patterns|
  {
    !(Candidates(glob(patterns[k])) <= byHand + AllCandidates(glob, patterns[..k]))
  }

  lemma {:induction false} MarkerPages(glob: Glob, patterns: seq<string>, placed0: set<string>, k: nat)
    requires k < |patterns|
    ensures var met := RunFrom(glob, patterns, placed0).met;
            |met| == |patterns| && (met[k].pages == [] <==> !FindsOwnPage(glob, patterns, k, placed0))
    decreases |patterns|
  {
    var front, last := patterns[..|patterns| - 1], patterns[|patterns| - 1];
    var before := RunFrom(glob, front, placed0);
    RunFromStep(glob, patterns, placed0);
    RunLength(glob, front, placed0);
    if k < |front| {
      MarkerPages(glob, front, placed0, k);
      assert patterns[..k] == front[..k];
    } else {
      RunGenerates(glob, front, placed0);
      EmptyIffPlaced(glob(last), before.placed);
    }
  }

  lemma {:induction false} RunLength(glob: Glob, patterns: seq<string>, placed0: set<string>)
    ensures |RunFrom(glob, patterns, placed0).met| == |patterns|
    decreases |patterns|
  {
    if patterns != [] {
      RunFromStep(glob, patterns, placed0);
      RunLength(glob, patterns[..|patterns| - 1], placed0);
    }
  }

  /** The build is refused exactly when some marker finds no page of its own. */
  lemma {:induction false} RefusedIffSomeMarkerFindsNothing(glob: Glob, nav: Nav)
    ensures var byHand := Elements(Written(nav));
            var markers := Markers(nav);
            SomeCountZero(Walk(glob, nav, Placing(byHand, [])).st.met)
            <==> exists k :: 0 <= k < |markers| && !FindsOwnPage(glob, markers, k, byHand)
  {
    var byHand := Elements(Written(nav));
    var markers := Markers(nav);
    WalkIsRun(glob, nav, Placing(byHand, []));
    OverwritingHidesNothing(glob, markers, byHand);
    RunLength(glob, markers, byHand);
    forall k | 0 <= k < |markers|
      ensures RunFrom(glob, markers, byHand).met[k].pages == [] <==> !FindsOwnPage(glob, markers, k, byHand)
    {
      MarkerPages(glob, markers, byHand, k);
    }
  }

  /** Writing the same pattern in two markers is never accepted. */
  lemma {:induction false} RepeatedPatternRefused(glob: Glob, nav: Nav)
    requires !NoDuplicates(Markers(nav))
    ensures SomeCountZero(Walk(glob, nav, Placing(Elements(Written(nav)), [])).st.met)
  {
    var byHand := Elements(Written(nav));
    var markers := Markers(nav);
    var i, j :| 0 <= i < j < |markers| && markers[i] == markers[j];
    assert markers[i] in markers[..j];
    assert Candidates(glob(markers[j])) <= AllCandidates(glob, markers[..j]);
    assert !FindsOwnPage(glob, markers, j, byHand);
    RefusedIffSomeMarkerFindsNothing(glob, nav);
  }

  // ------------------------------------------------------------------
  // The hook
  // ------------------------------------------------------------------

  class SiteConfig {
    var nav: Nav

    constructor (nav0: Nav)
      ensures nav == nav0
    {
      nav := nav0;
    }
  }

  predicate Falsy(nav: Nav) {
    nav == Leaf("") || nav == Items([]) || nav == Sections([])
  }

  /** A falsy navigation is one the walk would have left alone. */
  lemma {:induction false} FalsyIsLeftAlone(glob: Glob, nav: Nav, st: Placing)
    requires Falsy(nav)
    ensures Walk(glob, nav, st) == Walked(nav, st)
  {
  }

  /** The patterns reported: the build is refused when there is one. */
  method OnConfig(config: SiteConfig, glob: Glob) returns (empty: set<string>)
    modifies config
    ensures var walk := Walk(glob, old(config.nav), Placing(Elements(Written(old(config.nav))), []));
            && config.nav == walk.node
            && (empty != {} <==> SomeMarkerEmpty(walk.st.met))
            && empty == set p | p in Counts(walk.st.met) && Counts(walk.st.met)[p] == 0
  {
    if Falsy(config.nav) {
      FalsyIsLeftAlone(glob, config.nav, Placing(Elements(Written(config.nav)), []));
      return {};
    }
    ghost var nav := config.nav;
    var placed := CollectExplicit(config.nav);
    ghost var start := Placing(placed, []);
    var expander := new Expander(placed);
    assert expander.State() == start;
    var rewritten := expander.WalkNav(glob, config.nav);
    config.nav := rewritten;
    empty := set p | p in expander.expanded && expander.expanded[p] == 0;
    WalkIsRun(glob, nav, start);
    OverwritingHidesNothing(glob, Markers(nav), placed);
    ghost var met := expander.State().met;
    assert met == Walk(glob, nav, start).st.met;
    assert empty != {} <==> SomeCountZero(met) by {
      if p :| p in Counts(met) && Counts(met)[p] == 0 {
        assert p in empty;
      }
    }
  }
}
