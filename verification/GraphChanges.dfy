/** Which changes of its edges keep a graph free of cycles. */
module GraphChanges {
  import opened Prelude
  import opened PlanGraph

  ghost predicate Edge(g: Graph, d: Id, v: Id) {
    v in g.deps && d in g.deps && d in g.deps[v]
  }

  /** Every dependency of g' is one of g. */
  ghost predicate EdgesWithin(g: Graph, g': Graph) {
    forall v, d {:trigger Edge(g, d, v)} :: Edge(g', d, v) ==> Edge(g, d, v)
  }

  lemma {:induction false} CycleTransfers(g: Graph, g': Graph, c: seq<Id>)
    requires EdgesWithin(g, g')
    requires Cycle(g', c)
    ensures Cycle(g, c)
  {
    forall i, j | 0 <= i < j < |c| && j == i + 1
      ensures Edge(g, c[i], c[j])
    {
      assert c[i] in g'.deps[c[j]];
      assert Edge(g', c[i], c[j]);
    }
    forall i | 0 <= i < |c|
      ensures c[i] in g.deps
    {
      var j := if i == 0 then 1 else i;
      assert Edge(g, c[j - 1], c[j]);
    }
  }

  /** A plan whose dependencies all occur in another has no cycle the other has not. */
  lemma {:induction false} FewerEdges(g: Graph, g': Graph)
    requires Acyclic(g)
    requires EdgesWithin(g, g')
    ensures Acyclic(g')
  {
    forall c | Cycle(g', c)
      ensures Cycle(g, c)
    {
      CycleTransfers(g, g', c);
    }
  }

  /** Nor has one in which nothing depends on v, and only v has other dependencies than before. */
  lemma {:induction false} CyclesElsewhere(g: Graph, g': Graph, v: Id)
    requires Acyclic(g)
    requires forall d, w :: Edge(g', d, w) ==> d != v && (w == v || Edge(g, d, w))
    ensures Acyclic(g')
  {
    if c :| Cycle(g', c) {
      forall i, j | 0 <= i < j < |c| && j == i + 1
        ensures Edge(g, c[i], c[j])
      {
        ChainEdges(g', c, i);
        ChainEdges(g', c, if j + 1 < |c| then j else 0);
      }
      forall i | 0 <= i < |c|
        ensures c[i] in g.deps
      {
        var j := if i == 0 then 1 else i;
        assert Edge(g, c[j - 1], c[j]);
      }
      assert Cycle(g, c);
    }
  }

  // ------------------------------------------------------------------
  // One more dependency
  // ------------------------------------------------------------------

  /** g' is g in which v also depends on d. */
  ghost predicate OneMore(g: Graph, g': Graph, d: Id, v: Id) {
    && d in g.deps && v in g.deps
    && forall w, u {:trigger Edge(g', u, w)} {:trigger Edge(g, u, w)} ::
        Edge(g', u, w) <==> Edge(g, u, w) || (u == d && w == v)
  }

  /** A chain leads from one task to another, each depending on the one before. */
  ghost predicate Leads(g: Graph, from: Id, to: Id) {
    exists p :: Chain(g, p) && p[0] == from && Last(p) == to
  }

  /** A chain of the larger graph that nowhere uses the new edge. */
  ghost predicate Avoids(p: seq<Id>, d: Id, v: Id) {
    forall i, j :: 0 <= i < j < |p| && j == i + 1 ==> p[i] != d || p[j] != v
  }

  lemma {:induction false} ChainEdges(g: Graph, p: seq<Id>, i: nat)
    requires Chain(g, p) && i + 1 < |p|
    ensures Edge(g, p[i], p[i + 1])
  {
    assert p[i] in g.deps[p[i + 1]];
  }

  lemma {:induction false} AvoidingChain(g: Graph, g': Graph, d: Id, v: Id, p: seq<Id>)
    requires OneMore(g, g', d, v) && Chain(g', p) && Avoids(p, d, v) && |p| > 1
    ensures Chain(g, p)
  {
    forall i, j | 0 <= i < j < |p| && j == i + 1
      ensures p[i] in g.deps && p[j] in g.deps && p[i] in g.deps[p[j]]
    {
      ChainEdges(g', p, i);
      assert Edge(g, p[i], p[j]);
    }
    forall i | 0 <= i < |p|
      ensures p[i] in g.deps
    {
      var j := if i == 0 then 1 else i;
      ChainEdges(g', p, j - 1);
      assert Edge(g, p[j - 1], p[j]);
    }
  }

  /** Cut off where it first uses the new edge, a chain from v to d is one of the smaller graph. */
  lemma {:induction false} LeadsWithout(g: Graph, g': Graph, d: Id, v: Id, p: seq<Id>)
    requires OneMore(g, g', d, v) && Chain(g', p) && p[0] == v && Last(p) == d && d != v
    ensures Leads(g, v, d)
    decreases |p|
  {
    if Avoids(p, d, v) {
      AvoidingChain(g, g', d, v, p);
    } else {
      var i, j :| 0 <= i < j < |p| && j == i + 1 && p[i] == d && p[j] == v;
      ChainPrefix(g', p, j);
      assert p[..j][0] == v && Last(p[..j]) == d;
      LeadsWithout(g, g', d, v, p[..j]);
    }
  }

  /** A cycle through the new edge, read from v on, is a chain from v to d. */
  lemma {:induction false} Unrolled(g': Graph, c: seq<Id>, i: nat)
    requires Cycle(g', c) && i + 1 < |c|
    ensures var p := c[i + 1..] + c[1..i + 1]; Chain(g', p) && p[0] == c[i + 1] && Last(p) == c[i]
  {
    var p, n := c[i + 1..] + c[1..i + 1], |c| - 1 - i;
    forall k, l | 0 <= k < l < |p| && l == k + 1
      ensures p[k] in g'.deps && p[l] in g'.deps && p[k] in g'.deps[p[l]]
    {
      if l < n {
        ChainEdges(g', c, i + 1 + k);
      } else if l == n {
        assert p[k] == c[|c| - 1] == c[0] && p[l] == c[1];
        ChainEdges(g', c, 0);
      } else {
        assert p[k] == c[k - n + 1] && p[l] == c[k - n + 2];
        ChainEdges(g', c, k - n + 1);
      }
    }
  }

  /** One more dependency closes a cycle exactly when a chain already leads from the dependent task
   *  to its new dependency. */
  lemma {:induction false} OneMoreAcyclicIff(g: Graph, g': Graph, d: Id, v: Id)
    requires OneMore(g, g', d, v) && Acyclic(g) && d != v
    ensures Acyclic(g') <==> !Leads(g, v, d)
  {
    if p :| Chain(g, p) && p[0] == v && Last(p) == d {
      ClosedByEdge(g, g', d, v, p);
    }
    if c :| Cycle(g', c) {
      if Avoids(c, d, v) {
        AvoidingChain(g, g', d, v, c);
        assert Cycle(g, c);
      } else {
        var i, j :| 0 <= i < j < |c| && j == i + 1 && c[i] == d && c[j] == v;
        Unrolled(g', c, i);
        LeadsWithout(g, g', d, v, c[i + 1..] + c[1..i + 1]);
      }
    }
  }

  lemma {:induction false} ClosedByEdge(g: Graph, g': Graph, d: Id, v: Id, p: seq<Id>)
    requires OneMore(g, g', d, v) && Chain(g, p) && p[0] == v && Last(p) == d && d != v
    ensures Cycle(g', p + [v])
  {
    var c := p + [v];
    forall i, j | 0 <= i < j < |c| && j == i + 1
      ensures c[i] in g'.deps && c[j] in g'.deps && c[i] in g'.deps[c[j]]
    {
      if j < |p| {
        ChainEdges(g, p, i);
      }
      assert Edge(g', c[i], c[j]);
    }
    forall i | 0 <= i < |c|
      ensures c[i] in g'.deps
    {
      var j := if i == 0 then 1 else i;
      if j < |p| {
        ChainEdges(g, p, j - 1);
      }
      assert Edge(g', c[j - 1], c[j]);
    }
  }

  /** Without a cycle no chain leads back along an edge. */
  lemma {:induction false} NoChainBack(g: Graph, d: Id, v: Id)
    requires Acyclic(g) && Edge(g, d, v)
    ensures !Leads(g, v, d)
  {
    if p :| Chain(g, p) && p[0] == v && Last(p) == d {
      ChainAppend(g, p, v);
      assert Cycle(g, p + [v]);
    }
  }
}
