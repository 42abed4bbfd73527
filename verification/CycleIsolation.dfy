/**
 * Tasks caught in a cycle do not disturb the others: the chart of a plan with
 * cycles shows, for every reached task, the row of the plan without the rest.
 */
module CycleIsolation {
  import opened Prelude
  import opened PlanGraph
  import opened PlanGantt
  import opened ScheduleTheorems

  /** The tasks of the list that neither lie on nor depend on a cycle of g. */
  ghost function KeepReached(g: Graph, tasks: seq<PlanTask>): seq<PlanTask> {
    if tasks == [] then []
    else
      var n := |tasks| - 1;
      KeepReached(g, tasks[..n]) + (if OnOrBehindCycle(g, tasks[n].id) then [] else [tasks[n]])
  }

  ghost function KeepRows(g: Graph, out: seq<ComputedTask>): seq<ComputedTask> {
    if out == [] then []
    else
      var n := |out| - 1;
      KeepRows(g, out[..n]) + (if OnOrBehindCycle(g, out[n].id) then [] else [out[n]])
  }

  lemma {:induction false} KeptTasks(g: Graph, tasks: seq<PlanTask>)
    requires DistinctIds(tasks)
    ensures DistinctIds(KeepReached(g, tasks))
    ensures forall x :: x in KeepReached(g, tasks) <==> x in tasks && !OnOrBehindCycle(g, x.id)
  {
    if tasks != [] {
      var n := |tasks| - 1;
      var front := tasks[..n];
      KeptTasks(g, front);
      assert tasks == front + [tasks[n]];
      var kept := KeepReached(g, front);
      forall k | 0 <= k < |kept|
        ensures kept[k].id != tasks[n].id
      {
        assert kept[k] in kept;
        var j :| 0 <= j < n && front[j] == kept[k];
      }
    }
  }

  lemma {:induction false} KeptRows(g: Graph, tasks: seq<PlanTask>, t: Cpm, t': Cpm, out: seq<ComputedTask>)
    requires RowsOf(tasks, t, out)
    requires forall i :: 0 <= i < |tasks| && !OnOrBehindCycle(g, tasks[i].id) ==>
        RowOf(tasks[i], t) == RowOf(tasks[i], t')
    ensures RowsOf(KeepReached(g, tasks), t', KeepRows(g, out))
  {
    if tasks != [] {
      var n := |tasks| - 1;
      KeptRows(g, tasks[..n], t, t', out[..n]);
      assert out[n] == RowOf(tasks[n], t);
    }
  }

  lemma {:induction false} KnownDepsSame(a: seq<Id>, b: seq<Id>, deps: seq<Id>)
    requires forall d :: d in deps ==> (d in a <==> d in b)
    ensures KnownDeps(a, deps) == KnownDeps(b, deps)
  {
    if deps != [] {
      assert deps == [deps[0]] + deps[1..];
      KnownDepsSame(a, b, deps[1..]);
    }
  }

  /** g' is g without the tasks outside the order. */
  ghost predicate Restricts(g: Graph, dur: map<Id, real>, order: seq<Id>, g': Graph, dur': map<Id, real>) {
    && g'.deps.Keys == Elements(order) && Elements(order) <= g.deps.Keys
    && dur'.Keys == Elements(order) && Elements(order) <= dur.Keys
    && (forall v :: v in Elements(order) ==> g'.deps[v] == g.deps[v])
    && (forall v :: v in Elements(order) ==> dur'[v] == dur[v])
  }

  lemma {:induction false} KeptIds(tasks: seq<PlanTask>, order: seq<Id>, v: Id)
    requires DistinctIds(tasks) && Valid(GraphOf(tasks)) && KahnOrder(GraphOf(tasks), order)
    ensures v in TaskIds(KeepReached(GraphOf(tasks), tasks)) <==> v in order
  {
    var g := GraphOf(tasks);
    var kept := KeepReached(g, tasks);
    KeptTasks(g, tasks);
    OrderWithinNodes(g, order);
    if v in g.nodes {
      OrderedIffNotBehindCycle(g, order, v);
      var i := NodeIndex(tasks, v);
      if v in order {
        assert tasks[i] in kept;
        var k :| 0 <= k < |kept| && kept[k] == tasks[i];
        assert TaskIds(kept)[k] == v;
      }
    }
    if v in TaskIds(kept) {
      var k := NodeIndex(kept, v);
      assert kept[k] in kept;
      var j :| 0 <= j < |tasks| && tasks[j] == kept[k];
      assert TaskIds(tasks)[j] == v;
    }
  }

  lemma {:induction false} KeptNode(tasks: seq<PlanTask>, order: seq<Id>, kept: seq<PlanTask>, v: Id)
    requires DistinctIds(tasks) && Valid(GraphOf(tasks)) && KahnOrder(GraphOf(tasks), order)
    requires kept == KeepReached(GraphOf(tasks), tasks) && DistinctIds(kept)
    requires forall u :: u in TaskIds(kept) <==> u in order
    requires v in order && v in GraphOf(tasks).deps
    ensures v in GraphOf(kept).deps && GraphOf(kept).deps[v] == GraphOf(tasks).deps[v]
    ensures v in Durations(kept) && v in Durations(tasks) && Durations(kept)[v] == Durations(tasks)[v]
  {
    KeptTasks(GraphOf(tasks), tasks);
    var k := NodeIndex(kept, v);
    assert kept[k] in tasks;
    var i :| 0 <= i < |tasks| && tasks[i] == kept[k];
    DepsFromAt(TaskIds(kept), kept, k);
    DepsFromAt(TaskIds(tasks), tasks, i);
    DurationsAt(kept, k);
    DurationsAt(tasks, i);
    var deps := tasks[i].dependsOn.GetOr([]);
    forall d | d in deps
      ensures d in TaskIds(tasks) <==> d in TaskIds(kept)
    {
      OrderWithinNodes(GraphOf(tasks), order);
      if d in TaskIds(tasks) {
        assert d in GraphOf(tasks).deps[v];
        DepBefore(GraphOf(tasks), order, d, v);
      }
    }
    KnownDepsSame(TaskIds(tasks), TaskIds(kept), deps);
  }

  lemma {:induction false} KeptKeys(tasks: seq<PlanTask>, order: seq<Id>, kept: seq<PlanTask>)
    requires DistinctIds(tasks) && Valid(GraphOf(tasks)) && KahnOrder(GraphOf(tasks), order)
    requires kept == KeepReached(GraphOf(tasks), tasks)
    ensures forall u :: u in TaskIds(kept) <==> u in order
    ensures GraphOf(kept).deps.Keys == Elements(order)
    ensures Elements(order) <= GraphOf(tasks).deps.Keys
  {
    var ids := TaskIds(kept);
    forall v
      ensures v in ids <==> v in order
    {
      KeptIds(tasks, order, v);
    }
    SameElements(ids, order);
    OrderedAreNodes(GraphOf(tasks), order);
  }

  lemma {:induction false} SameElements(a: seq<Id>, b: seq<Id>)
    requires forall v :: v in a <==> v in b
    ensures Elements(a) == Elements(b)
  {
  }

  lemma {:induction false} OrderedAreNodes(g: Graph, order: seq<Id>)
    requires TopologicalPrefix(g, order)
    ensures Elements(order) <= g.deps.Keys
  {
  }

  lemma {:induction false} KeptPlan(tasks: seq<PlanTask>, order: seq<Id>, kept: seq<PlanTask>)
    requires DistinctIds(tasks) && Valid(GraphOf(tasks)) && KahnOrder(GraphOf(tasks), order)
    requires kept == KeepReached(GraphOf(tasks), tasks) && DistinctIds(kept)
    requires ValidPlan(GraphOf(tasks), Durations(tasks)) && ValidPlan(GraphOf(kept), Durations(kept))
    ensures Restricts(GraphOf(tasks), Durations(tasks), order, GraphOf(kept), Durations(kept))
  {
    KeptKeys(tasks, order, kept);
    forall v | v in Elements(order)
      ensures GraphOf(kept).deps[v] == GraphOf(tasks).deps[v]
      ensures Durations(kept)[v] == Durations(tasks)[v]
    {
      KeptNode(tasks, order, kept, v);
    }
  }

  function Restrict(m: map<Id, real>, keys: set<Id>): map<Id, real> {
    map v | v in m && v in keys :: m[v]
  }

  lemma {:induction false} SubPlanOrder(g: Graph, dur: map<Id, real>, order: seq<Id>, g': Graph, dur': map<Id, real>)
    requires Valid(g) && Valid(g') && KahnOrder(g, order) && Restricts(g, dur, order, g', dur')
    ensures KahnOrder(g', order)
  {
    forall i | 0 <= i < |order|
      ensures order[i] in g'.deps && g'.deps[order[i]] == g.deps[order[i]]
    {
      assert order[i] in Elements(order);
    }
    forall v | v in g'.deps
      ensures v in order
    {
      assert v in Elements(order);
    }
  }

  lemma {:induction false} SubPlanStart(g: Graph, dur: map<Id, real>, order: seq<Id>, es: map<Id, real>, g': Graph,
      dur': map<Id, real>, v: Id)
    requires ValidPlan(g, dur) && ValidPlan(g', dur') && TopologicalPrefix(g, order)
    requires Restricts(g, dur, order, g', dur') && es.Keys == g.deps.Keys
    requires v in Elements(order) && StartsOnTime(g, dur, es, v)
    ensures Restrict(es, Elements(order)).Keys == g'.deps.Keys
    ensures StartsOnTime(g', dur', Restrict(es, Elements(order)), v)
  {
    forall d | d in g.deps[v]
      ensures d in Elements(order)
    {
      DepBefore(g, order, d, v);
    }
  }

  lemma {:induction false} SubPlanForward(g: Graph, dur: map<Id, real>, order: seq<Id>, t: Cpm, g': Graph,
      dur': map<Id, real>)
    requires ValidPlan(g, dur) && ValidPlan(g', dur') && CpmOf(g, dur, order, t)
    requires Restricts(g, dur, order, g', dur')
    ensures ForwardPassOf(g', dur', Elements(order), Restrict(t.es, Elements(order)))
  {
    forall v | v in g'.deps && v in Elements(order)
      ensures StartsOnTime(g', dur', Restrict(t.es, Elements(order)), v)
    {
      SubPlanStart(g, dur, order, t.es, g', dur', v);
    }
  }

  lemma {:induction false} SubPlanEnd(g: Graph, dur: map<Id, real>, order: seq<Id>, t: Cpm, g': Graph,
      dur': map<Id, real>)
    requires ValidPlan(g, dur) && ValidPlan(g', dur') && CpmOf(g, dur, order, t)
    requires Restricts(g, dur, order, g', dur')
    ensures ProjectEndOf(g', dur', Elements(order), Restrict(t.es, Elements(order)), t.end)
  {
    var es' := Restrict(t.es, Elements(order));
    if t.end != 0.0 {
      var u :| u in t.es && u in Elements(order) && t.es[u] + dur[u] == t.end;
      assert u in es' && es'[u] + dur'[u] == t.end;
    }
  }

  lemma {:induction false} SubPlanBackward(g: Graph, dur: map<Id, real>, order: seq<Id>, t: Cpm, g': Graph,
      dur': map<Id, real>)
    requires ValidPlan(g, dur) && ValidPlan(g', dur') && CpmOf(g, dur, order, t)
    requires Restricts(g, dur, order, g', dur')
    ensures BackwardPassOf(g', dur', Elements(order), t.ls, t.end)
  {
    forall v | v in t.ls && v in g'.deps
      ensures EndsOnTime(g', dur', t.ls, t.end, v)
    {
      assert EndsOnTime(g, dur, t.ls, t.end, v);
    }
  }

  lemma {:induction false} SubPlanCpm(g: Graph, dur: map<Id, real>, order: seq<Id>, t: Cpm, g': Graph,
      dur': map<Id, real>)
    requires ValidPlan(g, dur) && ValidPlan(g', dur') && CpmOf(g, dur, order, t)
    requires Restricts(g, dur, order, g', dur')
    ensures CpmOf(g', dur', order, Cpm(Restrict(t.es, Elements(order)), t.ls, t.end))
    ensures Acyclic(g')
  {
    SubPlanOrder(g, dur, order, g', dur');
    SubPlanForward(g, dur, order, t, g', dur');
    SubPlanEnd(g, dur, order, t, g', dur');
    SubPlanBackward(g, dur, order, t, g', dur');
    AllKept(g', order);
  }

  lemma {:induction false} AllKept(g: Graph, order: seq<Id>)
    requires Valid(g) && KahnOrder(g, order) && g.deps.Keys == Elements(order)
    ensures Acyclic(g)
  {
    AllOrderedIffAcyclic(g, order);
    forall v | v in g.nodes ensures v in order {
      assert v in g.deps;
    }
  }

  lemma {:induction false} RowSame(task: PlanTask, order: seq<Id>, t: Cpm)
    requires task.id in order
    ensures RowOf(task, t) == RowOf(task, Cpm(Restrict(t.es, Elements(order)), t.ls, t.end))
  {
    assert task.id in Elements(order);
    assert At(t.es, task.id, 0.0) == At(Restrict(t.es, Elements(order)), task.id, 0.0);
  }

  lemma {:induction false} KeptRowsExplained(tasks: seq<PlanTask>, out: seq<ComputedTask>, order: seq<Id>, t: Cpm)
    requires RowsOf(tasks, t, out) && Valid(GraphOf(tasks)) && KahnOrder(GraphOf(tasks), order)
    ensures RowsOf(KeepReached(GraphOf(tasks), tasks), Cpm(Restrict(t.es, Elements(order)), t.ls, t.end),
                   KeepRows(GraphOf(tasks), out))
  {
    var t' := Cpm(Restrict(t.es, Elements(order)), t.ls, t.end);
    forall i | 0 <= i < |tasks| && !OnOrBehindCycle(GraphOf(tasks), tasks[i].id)
      ensures RowOf(tasks[i], t) == RowOf(tasks[i], t')
    {
      assert TaskIds(tasks)[i] in GraphOf(tasks).nodes;
      OrderedIffNotBehindCycle(GraphOf(tasks), order, tasks[i].id);
      RowSame(tasks[i], order, t);
    }
    KeptRows(GraphOf(tasks), tasks, t, t', out);
  }

  /**
   * Leaving out the tasks on or behind a cycle leaves an acyclic plan, and the
   * remaining tasks keep their rows.
   */
  lemma {:induction false} CyclesDoNotDisturb(tasks: seq<PlanTask>, out: seq<ComputedTask>)
    requires DistinctIds(tasks) && ScheduleOf(tasks, out)
    ensures DistinctIds(KeepReached(GraphOf(tasks), tasks))
    ensures Acyclic(GraphOf(KeepReached(GraphOf(tasks), tasks)))
    ensures ScheduleOf(KeepReached(GraphOf(tasks), tasks), KeepRows(GraphOf(tasks), out))
  {
    var order, t := Explained(tasks, out);
    var kept := KeepReached(GraphOf(tasks), tasks);
    KeptTasks(GraphOf(tasks), tasks);
    PlanOfValid(kept);
    KeptPlan(tasks, order, kept);
    SubPlanCpm(GraphOf(tasks), Durations(tasks), order, t, GraphOf(kept), Durations(kept));
    KeptRowsExplained(tasks, out, order, t);
  }
}
