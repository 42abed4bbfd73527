/**
 * The dependency graph behind the plan views, and what a queue order of it is.
 *
 * Both views (the Gantt chart and the DAG drawing) read the same list of tasks,
 * drop the dependencies that name no task, and run Kahn's algorithm. This module
 * holds the graph, its chains, and the theory of such an order; the two loops
 * themselves are in PlanGantt and PlanDag.
 */
module PlanGraph {
  import opened Prelude

  type Id = string

  /** The fields the two views read: hours and dependsOn may be absent. */
  datatype PlanTask = PlanTask(id: Id, title: string, hours: Option<real>, dependsOn: Option<seq<Id>>)

  ghost predicate DistinctIds(tasks: seq<PlanTask>) {
    NoDuplicates(TaskIds(tasks))
  }

  /** Nodes in task order; for each node its known dependencies, repetitions included. */
  datatype Graph = Graph(nodes: seq<Id>, deps: map<Id, seq<Id>>)

  ghost predicate Valid(g: Graph) {
    && NoDuplicates(g.nodes)
    && (forall v :: v in g.deps <==> v in g.nodes)
    && (forall v, d :: v in g.deps && d in g.deps[v] ==> d in g.deps)
  }

  function TaskIds(tasks: seq<PlanTask>): (ids: seq<Id>)
    ensures |ids| == |tasks|
    ensures forall i :: 0 <= i < |tasks| ==> ids[i] == tasks[i].id
  {
    seq(|tasks|, i requires 0 <= i < |tasks| => tasks[i].id)
  }

  /** The dependencies that name a task of the plan, in their written order. */
  function KnownDeps(ids: seq<Id>, deps: seq<Id>): (known: seq<Id>)
    ensures forall d :: d in known <==> d in deps && d in ids
  {
    if deps == [] then []
    else (if deps[0] in ids then [deps[0]] else []) + KnownDeps(ids, deps[1..])
  }

  lemma {:induction false} TaskIdsSnoc(tasks: seq<PlanTask>)
    requires tasks != []
    ensures Elements(TaskIds(tasks)) == Elements(TaskIds(tasks[..|tasks| - 1])) + {tasks[|tasks| - 1].id}
  {
    var n := |tasks| - 1;
    assert TaskIds(tasks) == TaskIds(tasks[..n]) + [tasks[n].id];
  }

  function DepsFrom(ids: seq<Id>, tasks: seq<PlanTask>): (m: map<Id, seq<Id>>)
    ensures m.Keys == Elements(TaskIds(tasks))
  {
    if tasks == [] then map[]
    else
      var n := |tasks| - 1;
      TaskIdsSnoc(tasks);
      DepsFrom(ids, tasks[..n])[tasks[n].id := KnownDeps(ids, tasks[n].dependsOn.GetOr([]))]
  }

  function GraphOf(tasks: seq<PlanTask>): Graph {
    Graph(TaskIds(tasks), DepsFrom(TaskIds(tasks), tasks))
  }

  lemma {:induction false} DepsFromAt(ids: seq<Id>, tasks: seq<PlanTask>, i: nat)
    requires i < |tasks| && DistinctIds(tasks)
    ensures tasks[i].id in DepsFrom(ids, tasks)
    ensures DepsFrom(ids, tasks)[tasks[i].id] == KnownDeps(ids, tasks[i].dependsOn.GetOr([]))
  {
    if i < |tasks| - 1 {
      DepsFromAt(ids, tasks[..|tasks| - 1], i);
    }
  }

  lemma {:induction false} GraphOfValid(tasks: seq<PlanTask>)
    requires DistinctIds(tasks)
    ensures Valid(GraphOf(tasks))
    ensures forall i :: 0 <= i < |tasks| ==>
      GraphOf(tasks).deps[tasks[i].id] == KnownDeps(TaskIds(tasks), tasks[i].dependsOn.GetOr([]))
  {
    var g := GraphOf(tasks);
    forall i | 0 <= i < |tasks|
      ensures tasks[i].id in g.deps
      ensures g.deps[tasks[i].id] == KnownDeps(g.nodes, tasks[i].dependsOn.GetOr([]))
    {
      DepsFromAt(g.nodes, tasks, i);
    }
    forall v | v in g.nodes
      ensures v in g.deps
    {
      var i :| 0 <= i < |g.nodes| && g.nodes[i] == v;
      assert tasks[i].id == v;
    }
    forall v, d | v in g.deps && d in g.deps[v]
      ensures d in g.deps
    {
      var i :| 0 <= i < |tasks| && tasks[i].id == v;
      assert d in KnownDeps(g.nodes, tasks[i].dependsOn.GetOr([]));
    }
  }

  // ------------------------------------------------------------------
  // Chains and cycles
  // ------------------------------------------------------------------

  /** A dependency chain: every task is a dependency of the next one. */
  ghost predicate Chain(g: Graph, p: seq<Id>) {
    && p != []
    && (forall i :: 0 <= i < |p| ==> p[i] in g.deps)
    && (forall i, j :: 0 <= i < j < |p| && j == i + 1 ==> p[i] in g.deps[p[j]])
  }

  ghost function Last(p: seq<Id>): Id
    requires p != []
  {
    p[|p| - 1]
  }

  /** A chain of two tasks or more that comes back to where it began. */
  ghost predicate Cycle(g: Graph, c: seq<Id>) {
    Chain(g, c) && |c| >= 2 && c[0] == Last(c)
  }

  ghost predicate Acyclic(g: Graph) {
    forall c :: !Cycle(g, c)
  }

  /** A chain leads from a task of some cycle to v; v itself may be that task. */
  ghost predicate OnOrBehindCycle(g: Graph, v: Id) {
    exists c, q :: Cycle(g, c) && Chain(g, q) && q[0] == c[0] && Last(q) == v
  }

  lemma {:induction false} ChainPrefix(g: Graph, p: seq<Id>, n: nat)
    requires Chain(g, p) && 0 < n <= |p|
    ensures Chain(g, p[..n])
  {
  }

  lemma {:induction false} ChainSuffix(g: Graph, p: seq<Id>, n: nat)
    requires Chain(g, p) && n < |p|
    ensures Chain(g, p[n..])
  {
  }

  lemma {:induction false} ChainAppend(g: Graph, p: seq<Id>, v: Id)
    requires Chain(g, p) && v in g.deps && Last(p) in g.deps[v]
    ensures Chain(g, p + [v])
  {
  }

  lemma {:induction false} ChainPrepend(g: Graph, v: Id, p: seq<Id>)
    requires Chain(g, p) && v in g.deps && v in g.deps[p[0]]
    ensures Chain(g, [v] + p)
  {
  }

  // ------------------------------------------------------------------
  // Queue orders
  // ------------------------------------------------------------------

  /** No task twice, only tasks of the plan, every dependency before its dependent. */
  ghost predicate TopologicalPrefix(g: Graph, order: seq<Id>) {
    && NoDuplicates(order)
    && (forall i :: 0 <= i < |order| ==> order[i] in g.deps)
    && (forall i, d :: 0 <= i < |order| && d in g.deps[order[i]] ==> d in order[..i])
  }

  /**
   * A queue order: a topological prefix that cannot be extended, that is, every
   * task left out still waits for a task left out.
   */
  ghost predicate KahnOrder(g: Graph, order: seq<Id>) {
    && TopologicalPrefix(g, order)
    && (forall v {:trigger Waiting(g, order, v)} :: v in g.deps && v !in order ==> Waiting(g, order, v))
  }

  ghost predicate Waiting(g: Graph, order: seq<Id>, v: Id)
    requires v in g.deps
  {
    exists d :: d in g.deps[v] && d !in order
  }

  lemma {:induction false} IndexUnique(order: seq<Id>, v: Id, j: nat)
    requires NoDuplicates(order) && j < |order| && order[j] == v
    ensures IndexIn(order, v) == j
  {
  }

  /** Positions in an order fall along dependencies: the measure every later induction uses. */
  lemma {:induction false} DepBefore(g: Graph, order: seq<Id>, d: Id, v: Id)
    requires Valid(g) && TopologicalPrefix(g, order) && v in order && v in g.deps && d in g.deps[v]
    ensures d in order && d in g.deps && IndexIn(order, d) < IndexIn(order, v)
  {
    var i := IndexIn(order, v);
    assert d in g.deps[order[i]];
    assert d in order[..i];
    var j :| 0 <= j < i && order[j] == d;
    IndexUnique(order, d, j);
  }

  /** A chain that ends at an ordered task is ordered throughout and revisits nothing. */
  lemma {:induction false} ChainInOrder(g: Graph, order: seq<Id>, p: seq<Id>)
    requires Valid(g) && TopologicalPrefix(g, order) && Chain(g, p) && Last(p) in order
    ensures forall k :: 0 <= k < |p| ==> p[k] in order && IndexIn(order, p[k]) <= IndexIn(order, Last(p))
    ensures NoDuplicates(p)
  {
    if |p| > 1 {
      var n := |p| - 1;
      var q := p[..n];
      DepBefore(g, order, p[n - 1], p[n]);
      ChainPrefix(g, p, n);
      ChainInOrder(g, order, q);
      forall k | 0 <= k < n
        ensures p[k] in order && IndexIn(order, p[k]) < IndexIn(order, p[n])
      {
        assert q[k] == p[k];
      }
      NewAtEnd(p);
    }
  }

  lemma {:induction false} NewAtEnd(p: seq<Id>)
    requires p != [] && NoDuplicates(p[..|p| - 1]) && forall k :: 0 <= k < |p| - 1 ==> p[k] != p[|p| - 1]
    ensures NoDuplicates(p)
  {
    forall i, j | 0 <= i < j < |p|
      ensures p[i] != p[j]
    {
      assert j < |p| - 1 ==> p[i] == p[..|p| - 1][i] && p[j] == p[..|p| - 1][j];
    }
  }

  /** From a task left out, a chain of any length of tasks left out ends at it. */
  lemma {:induction false} WaitingChain(g: Graph, order: seq<Id>, v: Id, n: nat) returns (p: seq<Id>)
    requires Valid(g) && KahnOrder(g, order) && v in g.deps && v !in order
    ensures Chain(g, p) && |p| == n + 1 && Last(p) == v
    decreases n
  {
    if n == 0 {
      p := [v];
    } else {
      assert Waiting(g, order, v);
      var d :| d in g.deps[v] && d !in order;
      assert d in g.deps;
      p := WaitingChain(g, order, d, n - 1);
      ChainAppend(g, p, v);
      p := p + [v];
    }
  }

  /** A queue order holds exactly the tasks that neither lie on nor depend on a cycle. */
  lemma {:induction false} OrderedIffNotBehindCycle(g: Graph, order: seq<Id>, v: Id)
    requires Valid(g) && KahnOrder(g, order) && v in g.deps
    ensures v in order <==> !OnOrBehindCycle(g, v)
  {
    if v in order {
      forall c, q | Cycle(g, c) && Chain(g, q) && Last(q) == v
        ensures q[0] != c[0]
      {
        ChainInOrder(g, order, q);
        if Last(c) in order {
          ChainInOrder(g, order, c);
        }
      }
    } else {
      var p := WaitingChain(g, order, v, |g.nodes|);
      if NoDuplicates(p) {
        forall x | x in p ensures x in g.nodes {
          var i :| 0 <= i < |p| && p[i] == x;
          assert p[i] in g.deps;
        }
        Pigeonhole(p, g.nodes);
      } else {
        var i, j :| 0 <= i < j < |p| && p[i] == p[j];
        ChainSuffix(g, p, i);
        ChainPrefix(g, p[i..], j + 1 - i);
        ChainSuffix(g, p, j);
        assert Cycle(g, p[i..][..j + 1 - i]) && Last(p[j..]) == v;
      }
    }
  }

  /** Hence it holds every task iff the plan has no cycle. */
  lemma {:induction false} AllOrderedIffAcyclic(g: Graph, order: seq<Id>)
    requires Valid(g) && KahnOrder(g, order)
    ensures Acyclic(g) <==> forall v :: v in g.nodes ==> v in order
    ensures Acyclic(g) <==> |order| == |g.nodes|
  {
    forall v | v in g.nodes
      ensures v in order <==> !OnOrBehindCycle(g, v)
    {
      OrderedIffNotBehindCycle(g, order, v);
    }
    if forall v :: v in g.nodes ==> v in order {
      forall c ensures !Cycle(g, c) {
        if Cycle(g, c) {
          assert c[0] in g.deps;
          ChainInOrder(g, order, c);
        }
      }
      Pigeonhole(g.nodes, order);
    }
    OrderWithinNodes(g, order);
    if |order| == |g.nodes| {
      forall v | v in g.nodes ensures v in order {
        if v !in order {
          Pigeonhole(order + [v], g.nodes);
        }
      }
    }
  }

  lemma {:induction false} OrderWithinNodes(g: Graph, order: seq<Id>)
    requires Valid(g) && TopologicalPrefix(g, order)
    ensures forall x :: x in order ==> x in g.nodes
    ensures |order| <= |g.nodes|
  {
    forall x | x in order ensures x in g.nodes {
      var i :| 0 <= i < |order| && order[i] == x;
      assert order[i] in g.deps;
    }
    Pigeonhole(order, g.nodes);
  }

  /** Two queue orders of one graph hold the same tasks. */
  lemma {:induction false} OrdersAgree(g: Graph, a: seq<Id>, b: seq<Id>)
    requires Valid(g) && KahnOrder(g, a) && KahnOrder(g, b)
    ensures forall v :: v in a <==> v in b
  {
    OrderWithinNodes(g, a);
    OrderWithinNodes(g, b);
    forall v | v in g.nodes ensures v in a <==> v in b {
      OrderedIffNotBehindCycle(g, a, v);
      OrderedIffNotBehindCycle(g, b, v);
    }
  }
}
