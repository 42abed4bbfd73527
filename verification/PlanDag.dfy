/**
 * Depths for the DAG drawing: a second run of Kahn's algorithm that keeps, for
 * every task, the longest path known so far.
 */
module PlanDag {
  import opened Prelude
  import opened PlanGraph
  import opened KahnQueue

  function MaxNat(a: nat, b: nat): nat {
    if a >= b then a else b
  }

  /** depth.get(v) ?? 0 */
  function DepthOf(depth: map<Id, nat>, v: Id): nat {
    if v in depth then depth[v] else 0
  }

  /** v is one deeper than its deepest processed dependency, or at depth 0 if it has none. */
  ghost predicate DeepEnough(g: Graph, done: set<Id>, depth: map<Id, nat>, v: Id)
    requires v in g.deps
  {
    && (forall d :: d in g.deps[v] && d in done ==> DepthOf(depth, d) + 1 <= DepthOf(depth, v))
    && (DepthOf(depth, v) == 0 || exists d :: d in g.deps[v] && d in done && DepthOf(depth, d) + 1 == DepthOf(depth, v))
  }

  ghost predicate DepthsOf(g: Graph, done: set<Id>, depth: map<Id, nat>) {
    forall v {:trigger DeepEnough(g, done, depth, v)} :: v in g.deps ==> DeepEnough(g, done, depth, v)
  }

  // ------------------------------------------------------------------
  // Reading the tasks
  // ------------------------------------------------------------------

  lemma {:induction false} KnownDepsSnoc(ids: seq<Id>, deps: seq<Id>, d: Id)
    ensures KnownDeps(ids, deps + [d]) == KnownDeps(ids, deps) + (if d in ids then [d] else [])
  {
    var more := deps + [d];
    if deps == [] {
      assert more[1..] == [];
    } else {
      KnownDepsSnoc(ids, deps[1..], d);
      var first, last := if deps[0] in ids then [deps[0]] else [], if d in ids then [d] else [];
      assert more[1..] == deps[1..] + [d] && more[0] == deps[0];
      assert first + (KnownDeps(ids, deps[1..]) + last) == (first + KnownDeps(ids, deps[1..])) + last;
    }
  }

  method ReadTask(ids: seq<Id>, deps: seq<Id>) returns (known: seq<Id>, count: int)
    ensures known == KnownDeps(ids, deps) && count == |known|
  {
    known, count := [], 0;
    for k := 0 to |deps|
      invariant known == KnownDeps(ids, deps[..k]) && count == |known|
    {
      KnownDepsSnoc(ids, deps[..k], deps[k]);
      assert deps[..k + 1] == deps[..k] + [deps[k]];
      if deps[k] in ids {
        known := known + [deps[k]];
        count := count + 1;
      }
    }
    assert deps[..|deps|] == deps;
  }

  /** A map with an empty list for every id. */
  function Blank(ids: seq<Id>): map<Id, seq<Id>> {
    map v | v in ids :: []
  }

  method ReadGraph(tasks: seq<PlanTask>) returns (incoming: map<Id, seq<Id>>, indegree: map<Id, int>)
    requires DistinctIds(tasks)
    ensures incoming == GraphOf(tasks).deps
    ensures indegree.Keys == incoming.Keys && forall v :: v in incoming ==> indegree[v] == |incoming[v]|
  {
    var ids := TaskIds(tasks);
    incoming := Blank(ids);
    indegree := map v | v in ids :: 0;
    for i := 0 to |tasks|
      invariant incoming == Blank(ids) + DepsFrom(ids, tasks[..i])
      invariant indegree.Keys == incoming.Keys && forall v :: v in incoming ==> indegree[v] == |incoming[v]|
    {
      var known, count := ReadTask(ids, tasks[i].dependsOn.GetOr([]));
      ReadOne(ids, tasks, i);
      incoming := incoming[tasks[i].id := known];
      indegree := indegree[tasks[i].id := count];
    }
    ReadAll(tasks);
  }

  lemma {:induction false} ReadOne(ids: seq<Id>, tasks: seq<PlanTask>, i: nat)
    requires i < |tasks|
    ensures (Blank(ids) + DepsFrom(ids, tasks[..i]))[tasks[i].id := KnownDeps(ids, tasks[i].dependsOn.GetOr([]))]
         == Blank(ids) + DepsFrom(ids, tasks[..i + 1])
  {
    assert tasks[..i + 1][..i] == tasks[..i];
  }

  lemma {:induction false} ReadAll(tasks: seq<PlanTask>)
    ensures Blank(TaskIds(tasks)) + DepsFrom(TaskIds(tasks), tasks[..|tasks|]) == GraphOf(tasks).deps
  {
    assert tasks[..|tasks|] == tasks;
    NothingBlank(TaskIds(tasks), DepsFrom(TaskIds(tasks), tasks));
  }

  lemma {:induction false} NothingBlank(ids: seq<Id>, deps: map<Id, seq<Id>>)
    requires deps.Keys == Elements(ids)
    ensures Blank(ids) + deps == deps
  {
    assert (Blank(ids) + deps).Keys == deps.Keys;
  }

  // ------------------------------------------------------------------
  // The queue loop
  // ------------------------------------------------------------------

  /** Depths after the first k children of a task at depth my have been raised. */
  ghost predicate Raised(depth0: map<Id, nat>, children: seq<Id>, k: nat, my: nat, depth: map<Id, nat>)
    requires k <= |children|
  {
    && (forall v :: v in depth <==> v in depth0 || v in children[..k])
    && (forall v ::
          DepthOf(depth, v) == if v in children[..k] then MaxNat(DepthOf(depth0, v), my + 1) else DepthOf(depth0, v))
  }

  lemma {:induction false} RaiseOne(depth0: map<Id, nat>, children: seq<Id>, k: nat, my: nat, depth: map<Id, nat>)
    requires k < |children| && Raised(depth0, children, k, my, depth)
    ensures Raised(depth0, children, k + 1, my, depth[children[k] := MaxNat(DepthOf(depth, children[k]), my + 1)])
  {
    assert children[..k + 1] == children[..k] + [children[k]];
  }

  /** The inner loop of a round: children are raised, counted down and released. */
  method RaiseAndRelease(depth0: map<Id, nat>, my: nat, queue0: seq<Id>, indegree0: map<Id, int>, children: seq<Id>)
    returns (depth: map<Id, nat>, queue: seq<Id>, indegree: map<Id, int>)
    requires Releasable(queue0, indegree0, children)
    ensures Raised(depth0, children, |children|, my, depth)
    ensures Releasing(queue0, indegree0, children, |children|, queue, indegree)
  {
    depth, queue, indegree := depth0, queue0, indegree0;
    for k := 0 to |children|
      invariant Raised(depth0, children, k, my, depth)
      invariant Releasing(queue0, indegree0, children, k, queue, indegree)
    {
      var child := children[k];
      RaiseOne(depth0, children, k, my, depth);
      depth := depth[child := MaxNat(DepthOf(depth, child), my + 1)];
      ReleaseOne(queue0, indegree0, children, k, queue, indegree);
      indegree := indegree[child := indegree[child] - 1];
      if indegree[child] == 0 {
        queue := queue + [child];
      }
    }
  }

  /** Processing id makes every task one deeper than id where it has to be, and disturbs no processed task. */
  lemma {:induction false} DepthStep(g: Graph, children: map<Id, seq<Id>>, done: set<Id>, depth: map<Id, nat>, id: Id,
      depth': map<Id, nat>)
    requires Valid(g) && SuccessorsOf(g, children) && DepthsOf(g, done, depth) && id in children && id !in done
    requires forall c :: c in children[id] ==> c !in done && c != id
    requires Raised(depth, children[id], |children[id]|, DepthOf(depth, id), depth')
    ensures DepthsOf(g, done + {id}, depth')
  {
    assert children[id][..|children[id]|] == children[id];
    forall v | v in g.deps
      ensures DeepEnough(g, done + {id}, depth', v)
    {
      SuccessorMembership(g, children, id, v);
      assert DeepEnough(g, done, depth, v);
      DepthStepAt(g, children[id], done, depth, id, depth', v);
    }
  }

  lemma {:induction false} DepthStepAt(g: Graph, kids: seq<Id>, done: set<Id>, depth: map<Id, nat>, id: Id,
      depth': map<Id, nat>, v: Id)
    requires v in g.deps && DeepEnough(g, done, depth, v)
    requires forall c :: c in kids ==> c !in done && c != id
    requires v in kids <==> id in g.deps[v]
    requires forall u ::
      DepthOf(depth', u) == if u in kids then MaxNat(DepthOf(depth, u), DepthOf(depth, id) + 1) else DepthOf(depth, u)
    ensures DeepEnough(g, done + {id}, depth', v)
  {
    if DepthOf(depth', v) != 0 {
      if v in kids && DepthOf(depth, id) + 1 >= DepthOf(depth, v) {
        assert DepthOf(depth', id) + 1 == DepthOf(depth', v);
      } else {
        var d :| d in g.deps[v] && d in done && DepthOf(depth, d) + 1 == DepthOf(depth, v);
        assert DepthOf(depth', d) + 1 == DepthOf(depth', v);
      }
    }
  }

  method ComputeDepths(tasks: seq<PlanTask>) returns (depth: map<Id, nat>, order: seq<Id>)
    requires DistinctIds(tasks)
    ensures KahnOrder(GraphOf(tasks), order)
    ensures DepthsOf(GraphOf(tasks), Elements(order), depth)
  {
    GraphOfValid(tasks);
    var incoming, indegree := ReadGraph(tasks);
    depth, order := RunQueue(Graph(TaskIds(tasks), incoming), indegree);
  }

  method RunQueue(g: Graph, indegree0: map<Id, int>) returns (depth: map<Id, nat>, order: seq<Id>)
    requires Valid(g) && indegree0.Keys == g.deps.Keys
    requires forall v :: v in g.deps ==> indegree0[v] == |g.deps[v]|
    ensures KahnOrder(g, order)
    ensures DepthsOf(g, Elements(order), depth)
  {
    var children := BuildSuccessors(g);
    var indegree := indegree0;
    var queue := InitialQueue(g, indegree);
    order, depth := [], map r | r in queue :: 0;
    while queue != []
      invariant QueueState(g, order, queue, indegree)
      invariant DepthsOf(g, Elements(order), depth)
      decreases |g.nodes| - |order|
    {
      RoundBegins(g, children, order, queue, indegree);
      ChildrenNotDone(g, children, order, queue, indegree);
      ghost var order0, queue0, indegree1, depth0 := order, queue, indegree, depth;
      var id := queue[0];
      order := order + [id];
      depth, queue, indegree := RaiseAndRelease(depth, DepthOf(depth, id), queue[1..], indegree, children[id]);
      RoundEnds(g, children, order0, queue0, indegree1, queue, indegree);
      QueueBounded(g, order, queue, indegree);
      DepthStep(g, children, Elements(order0), depth0, id, depth);
      ElementsSnoc(order0, id);
    }
    QueueDone(g, order, indegree);
  }

  lemma {:induction false} ChildrenNotDone(g: Graph, children: map<Id, seq<Id>>, order: seq<Id>, queue: seq<Id>,
      indegree: map<Id, int>)
    requires Valid(g) && SuccessorsOf(g, children) && QueueState(g, order, queue, indegree) && queue != []
    requires queue[0] in children && queue[0] !in order
    ensures forall c :: c in children[queue[0]] ==> c !in Elements(order) && c != queue[0]
  {
    forall c | c in children[queue[0]]
      ensures c !in Elements(order) && c != queue[0]
    {
      HeadBlocks(g, children, order, queue, indegree, c);
      assert (order + queue)[|order|] == queue[0];
    }
  }

  // ------------------------------------------------------------------
  // What depth means
  // ------------------------------------------------------------------

  /** No chain that ends at a processed task has more edges than its depth. */
  lemma {:induction false} ChainWithinDepth(g: Graph, order: seq<Id>, depth: map<Id, nat>, p: seq<Id>)
    requires Valid(g) && TopologicalPrefix(g, order) && DepthsOf(g, Elements(order), depth)
    requires Chain(g, p) && Last(p) in order
    ensures |p| - 1 <= DepthOf(depth, Last(p))
  {
    if |p| > 1 {
      var q := p[..|p| - 1];
      ChainPrefix(g, p, |p| - 1);
      assert Last(q) in g.deps[Last(p)];
      DepBefore(g, order, Last(q), Last(p));
      ChainWithinDepth(g, order, depth, q);
      assert DeepEnough(g, Elements(order), depth, Last(p));
    }
  }

  /** Some chain has exactly as many. */
  lemma {:induction false} ChainOfDepth(g: Graph, order: seq<Id>, depth: map<Id, nat>, v: Id) returns (p: seq<Id>)
    requires Valid(g) && TopologicalPrefix(g, order) && DepthsOf(g, Elements(order), depth)
    requires v in order && v in g.deps
    ensures Chain(g, p) && Last(p) == v && |p| - 1 == DepthOf(depth, v)
    decreases IndexIn(order, v)
  {
    assert DeepEnough(g, Elements(order), depth, v);
    if DepthOf(depth, v) == 0 {
      p := [v];
    } else {
      var d :| d in g.deps[v] && d in Elements(order) && DepthOf(depth, d) + 1 == DepthOf(depth, v);
      DepBefore(g, order, d, v);
      p := ChainOfDepth(g, order, depth, d);
      ChainAppend(g, p, v);
      p := p + [v];
    }
  }

  /** Depth is the number of edges on the longest dependency chain that ends at the task. */
  lemma {:induction false} DepthIsLongestChain(g: Graph, order: seq<Id>, depth: map<Id, nat>, v: Id)
    requires Valid(g) && KahnOrder(g, order) && DepthsOf(g, Elements(order), depth)
    requires v in g.deps && !OnOrBehindCycle(g, v)
    ensures exists p :: Chain(g, p) && Last(p) == v && |p| - 1 == DepthOf(depth, v)
    ensures forall p :: Chain(g, p) && Last(p) == v ==> |p| - 1 <= DepthOf(depth, v)
  {
    OrderedIffNotBehindCycle(g, order, v);
    var p := ChainOfDepth(g, order, depth, v);
    forall q | Chain(g, q) && Last(q) == v
      ensures |q| - 1 <= DepthOf(depth, v)
    {
      ChainWithinDepth(g, order, depth, q);
    }
  }

  /** Below every depth in use, every smaller depth is in use too, cycles or not. */
  lemma {:induction false} DepthsWithoutGap(g: Graph, done: set<Id>, depth: map<Id, nat>, v: Id, c: nat) returns (u: Id)
    requires Valid(g) && DepthsOf(g, done, depth) && v in g.deps && c <= DepthOf(depth, v)
    ensures u in g.deps && DepthOf(depth, u) == c
    decreases DepthOf(depth, v)
  {
    if c == DepthOf(depth, v) {
      u := v;
    } else {
      assert DeepEnough(g, done, depth, v);
      var d :| d in g.deps[v] && d in done && DepthOf(depth, d) + 1 == DepthOf(depth, v);
      u := DepthsWithoutGap(g, done, depth, d, c);
    }
  }
}
