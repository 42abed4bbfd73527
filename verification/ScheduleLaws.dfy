/**
 * How the chart reacts to a change of the plan: what slack and criticality tell a
 * reader, and what tasks caught in a cycle do to the others.
 */
module ScheduleLaws {
  import opened Prelude
  import opened PlanGraph
  import opened PlanGantt
  import opened CriticalPath
  import opened CriticalChain
  import opened ScheduleTheorems

  // ------------------------------------------------------------------
  // Changing the hours of one task
  // ------------------------------------------------------------------

  function WithHours(tasks: seq<PlanTask>, i: nat, hours: real): seq<PlanTask>
    requires i < |tasks|
  {
    tasks[i := tasks[i].(hours := Some(hours))]
  }

  /** The duration the changed task gets, clamped like any other. */
  function NewDuration(tasks: seq<PlanTask>, i: nat, hours: real): real
    requires i < |tasks|
  {
    Duration(WithHours(tasks, i, hours)[i])
  }

  lemma {:induction false} WithHoursGraph(tasks: seq<PlanTask>, i: nat, hours: real)
    requires DistinctIds(tasks) && i < |tasks|
    ensures DistinctIds(WithHours(tasks, i, hours))
    ensures TaskIds(WithHours(tasks, i, hours)) == TaskIds(tasks)
    ensures GraphOf(WithHours(tasks, i, hours)) == GraphOf(tasks)
  {
    var changed := WithHours(tasks, i, hours);
    assert forall k :: 0 <= k < |tasks| ==> changed[k].id == tasks[k].id;
    assert TaskIds(changed) == TaskIds(tasks);
    SameDeps(TaskIds(tasks), tasks, changed);
  }

  lemma {:induction false} DurationsAgree(tasks: seq<PlanTask>, i: nat, hours: real, u: Id)
    requires DistinctIds(tasks) && i < |tasks| && u in Durations(tasks)
    ensures u in Durations(WithHours(tasks, i, hours))
    ensures Durations(WithHours(tasks, i, hours))[u]
        == if u == tasks[i].id then NewDuration(tasks, i, hours) else Durations(tasks)[u]
  {
    var changed := WithHours(tasks, i, hours);
    WithHoursGraph(tasks, i, hours);
    var k :| 0 <= k < |tasks| && tasks[k].id == u;
    assert changed[k].id == u;
    DurationsAt(tasks, k);
    DurationsAt(changed, k);
    if u == tasks[i].id {
      assert k == i;
    }
  }

  lemma {:induction false} WithHoursDurations(tasks: seq<PlanTask>, i: nat, hours: real, d: real)
    requires DistinctIds(tasks) && i < |tasks| && NewDuration(tasks, i, hours) == Duration(tasks[i]) + d
    ensures LongerBy(Durations(tasks), Durations(WithHours(tasks, i, hours)), tasks[i].id, d)
  {
    DurationsAt(tasks, i);
    LongerByOne(tasks, i, hours, d, Durations(tasks), Durations(WithHours(tasks, i, hours)));
  }

  lemma {:induction false} LongerByOne(tasks: seq<PlanTask>, i: nat, hours: real, d: real, dur: map<Id, real>,
      longer: map<Id, real>)
    requires DistinctIds(tasks) && i < |tasks|
    requires dur == Durations(tasks) && longer == Durations(WithHours(tasks, i, hours))
    requires tasks[i].id in dur && NewDuration(tasks, i, hours) == dur[tasks[i].id] + d
    ensures LongerBy(dur, longer, tasks[i].id, d)
  {
    WithHoursGraph(tasks, i, hours);
    forall u | u in dur
      ensures u in longer && longer[u] == if u == tasks[i].id then NewDuration(tasks, i, hours) else dur[u]
    {
      DurationsAgree(tasks, i, hours, u);
    }
  }

  /** The same for the plan in which task i takes the given hours instead. */
  lemma {:induction false} ChangedPlan(tasks: seq<PlanTask>, i: nat, hours: real, d: real, out': seq<ComputedTask>)
    returns (dur': map<Id, real>, order': seq<Id>, t': Cpm)
    requires DistinctIds(tasks) && i < |tasks| && NewDuration(tasks, i, hours) == Duration(tasks[i]) + d
    requires DistinctIds(WithHours(tasks, i, hours)) && ScheduleOf(WithHours(tasks, i, hours), out')
    ensures ValidPlan(GraphOf(tasks), dur') && CpmOf(GraphOf(tasks), dur', order', t')
    ensures LongerBy(Durations(tasks), dur', tasks[i].id, d)
    ensures ProjectEnd(out') == t'.end
  {
    WithHoursGraph(tasks, i, hours);
    WithHoursDurations(tasks, i, hours, d);
    dur' := Durations(WithHours(tasks, i, hours));
    order', t' := PlanAndRow(WithHours(tasks, i, hours), out', i);
  }

  lemma {:induction false} SameDeps(ids: seq<Id>, a: seq<PlanTask>, b: seq<PlanTask>)
    requires |a| == |b| && forall k :: 0 <= k < |a| ==> a[k].id == b[k].id && a[k].dependsOn == b[k].dependsOn
    ensures DepsFrom(ids, a) == DepsFrom(ids, b)
  {
    if a != [] {
      SameDeps(ids, a[..|a| - 1], b[..|b| - 1]);
    }
  }

  /**
   * Lengthening one reached task moves the project end by what the extra hours
   * exceed the task's slack, and by nothing else: slack is the delay that costs nothing.
   */
  lemma {:induction false} LengtheningLaw(tasks: seq<PlanTask>, i: nat, hours: real, out: seq<ComputedTask>,
      out': seq<ComputedTask>)
    requires DistinctIds(tasks) && i < |tasks| && Reached(tasks, i)
    requires NewDuration(tasks, i, hours) >= Duration(tasks[i])
    requires DistinctIds(WithHours(tasks, i, hours))
    requires ScheduleOf(tasks, out) && ScheduleOf(WithHours(tasks, i, hours), out')
    ensures |out| == |tasks|
    ensures ProjectEnd(out') == ProjectEnd(out)
        + Max(0.0, NewDuration(tasks, i, hours) - Duration(tasks[i]) - out[i].slack)
  {
    var d := NewDuration(tasks, i, hours) - Duration(tasks[i]);
    var order, t := PlanAndRow(tasks, out, i);
    var dur', order', t' := ChangedPlan(tasks, i, hours, d, out');
    LengthenBySlack(GraphOf(tasks), Durations(tasks), order, t, tasks[i].id, d, out[i].slack, dur', order', t');
  }

  /** Changing the hours of a task on or behind a cycle moves nothing. */
  lemma {:induction false} UnreachedChange(tasks: seq<PlanTask>, i: nat, hours: real, out: seq<ComputedTask>,
      out': seq<ComputedTask>)
    requires DistinctIds(tasks) && i < |tasks| && !Reached(tasks, i)
    requires DistinctIds(WithHours(tasks, i, hours))
    requires ScheduleOf(tasks, out) && ScheduleOf(WithHours(tasks, i, hours), out')
    ensures ProjectEnd(out') == ProjectEnd(out)
  {
    var d := NewDuration(tasks, i, hours) - Duration(tasks[i]);
    var order, t := PlanAndRow(tasks, out, i);
    var dur', order', t' := ChangedPlan(tasks, i, hours, d, out');
    SameForOthers(GraphOf(tasks), Durations(tasks), order, t, tasks[i].id, d, dur');
    CpmUnique(GraphOf(tasks), dur', order, t, order', t');
  }

  /** A duration of an unprocessed task occurs in no equation. */
  lemma {:induction false} SameForward(g: Graph, dur: map<Id, real>, order: seq<Id>, t: Cpm, v: Id, d: real,
      changed: map<Id, real>)
    requires ValidPlan(g, dur) && CpmOf(g, dur, order, t) && v in g.deps && v !in Elements(order)
    requires ValidPlan(g, changed) && LongerBy(dur, changed, v, d)
    ensures ForwardPassOf(g, changed, Elements(order), t.es)
  {
    forall u | u in g.deps && u in Elements(order)
      ensures StartsOnTime(g, changed, t.es, u)
    {
      DepsNotNew(g, order, u, v);
      assert StartsOnTime(g, dur, t.es, u);
    }
  }

  lemma {:induction false} SameBackward(g: Graph, dur: map<Id, real>, done: set<Id>, ls: map<Id, real>, end: real,
      v: Id, d: real, changed: map<Id, real>)
    requires ValidPlan(g, dur) && BackwardPassOf(g, dur, done, ls, end) && v in g.deps && v !in done
    requires ValidPlan(g, changed) && LongerBy(dur, changed, v, d)
    ensures BackwardPassOf(g, changed, done, ls, end)
  {
    forall u | u in ls && u in g.deps
      ensures EndsOnTime(g, changed, ls, end, u)
    {
      assert EndsOnTime(g, dur, ls, end, u);
    }
  }

  lemma {:induction false} SameForOthers(g: Graph, dur: map<Id, real>, order: seq<Id>, t: Cpm, v: Id, d: real,
      changed: map<Id, real>)
    requires ValidPlan(g, dur) && CpmOf(g, dur, order, t) && v in g.deps && v !in order
    requires ValidPlan(g, changed) && LongerBy(dur, changed, v, d)
    ensures CpmOf(g, changed, order, t)
  {
    SameForward(g, dur, order, t, v, d, changed);
    SameBackward(g, dur, Elements(order), t.ls, t.end, v, d, changed);
  }

  // ------------------------------------------------------------------
  // Criticality
  // ------------------------------------------------------------------

  /** A dependency chain of reached tasks that takes as long as the project. */
  ghost predicate CriticalChainOf(tasks: seq<PlanTask>, out: seq<ComputedTask>, p: seq<Id>) {
    && Chain(GraphOf(tasks), p)
    && !OnOrBehindCycle(GraphOf(tasks), Last(p))
    && Sum(Durations(tasks), p) == ProjectEnd(out)
  }

  lemma {:induction false} CriticalChainExplained(tasks: seq<PlanTask>, out: seq<ComputedTask>, order: seq<Id>,
      p: seq<Id>)
    requires Valid(GraphOf(tasks)) && KahnOrder(GraphOf(tasks), order)
    ensures CriticalChainOf(tasks, out, p) <==> Critical(GraphOf(tasks), Durations(tasks), order, ProjectEnd(out), p)
  {
    if Chain(GraphOf(tasks), p) {
      assert p[|p| - 1] in GraphOf(tasks).deps;
      OrderedIffNotBehindCycle(GraphOf(tasks), order, Last(p));
    }
  }

  /** A reached task has no slack exactly when it lies on a chain as long as the project. */
  lemma {:induction false} ZeroSlackLaw(tasks: seq<PlanTask>, out: seq<ComputedTask>, i: nat)
    requires DistinctIds(tasks) && ScheduleOf(tasks, out) && i < |tasks| && Reached(tasks, i)
    ensures |out| == |tasks|
    ensures out[i].slack == 0.0 <==> exists p :: CriticalChainOf(tasks, out, p) && tasks[i].id in p
  {
    var order, t := PlanAndRow(tasks, out, i);
    forall p
      ensures CriticalChainOf(tasks, out, p) <==> Critical(GraphOf(tasks), Durations(tasks), order, ProjectEnd(out), p)
    {
      CriticalChainExplained(tasks, out, order, p);
    }
    ZeroSlackIffCritical(GraphOf(tasks), Durations(tasks), order, t, tasks[i].id);
  }

  /** As soon as one task is reached, some critical chain runs from a root to a sink of the reached tasks. */
  lemma {:induction false} CriticalChainExists(tasks: seq<PlanTask>, out: seq<ComputedTask>, i: nat)
    returns (p: seq<Id>)
    requires DistinctIds(tasks) && ScheduleOf(tasks, out) && i < |tasks| && Reached(tasks, i)
    ensures CriticalChainOf(tasks, out, p)
    ensures p[0] in GraphOf(tasks).deps && GraphOf(tasks).deps[p[0]] == []
    ensures forall j :: 0 <= j < |tasks| && Reached(tasks, j) ==> Last(p) !in tasks[j].dependsOn.GetOr([])
  {
    var g, dur := GraphOf(tasks), Durations(tasks);
    var order, t := PlanAndRow(tasks, out, i);
    var v := CriticalTaskExists(g, dur, order, t);
    p := CriticalChainThrough(g, dur, order, t, v);
    CriticalChainExplained(tasks, out, order, p);
    assert p[|p| - 1] in g.deps;
    forall j | 0 <= j < |tasks| && Reached(tasks, j)
      ensures Last(p) !in tasks[j].dependsOn.GetOr([])
    {
      GraphOfValid(tasks);
      assert TaskIds(tasks)[j] == tasks[j].id;
      OrderedIffNotBehindCycle(g, order, tasks[j].id);
      assert Last(p) in TaskIds(tasks);
    }
  }

  /** With all durations multiples of a quantum of at least 0.001 h, critical means no slack at all. */
  lemma {:induction false} CriticalMeansZeroSlack(tasks: seq<PlanTask>, out: seq<ComputedTask>, q: real, i: nat)
    requires DistinctIds(tasks) && ScheduleOf(tasks, out) && i < |tasks|
    requires q >= CRITICAL_SLACK && forall k :: 0 <= k < |tasks| ==> MultipleOf(q, Duration(tasks[k]))
    ensures |out| == |tasks|
    ensures out[i].isCritical <==> out[i].slack == 0.0
  {
    var order, t := Explained(tasks, out);
    RowExplained(tasks, out, order, t, i);
    if Reached(tasks, i) {
      forall u | u in Durations(tasks)
        ensures MultipleOf(q, Durations(tasks)[u])
      {
        assert u in GraphOf(tasks).nodes;
        var k := NodeIndex(tasks, u);
        RowExplained(tasks, out, order, t, k);
      }
      SlackOnGrid(GraphOf(tasks), Durations(tasks), order, t, q, tasks[i].id);
    }
  }

  /**
   * New hours for a reached task shorten the project exactly when they shorten the task (hours
   * under the minimum do not) and every critical chain runs through it; one of several is not enough.
   */
  lemma {:induction false} ShorteningLaw(tasks: seq<PlanTask>, i: nat, hours: real, out: seq<ComputedTask>,
      out': seq<ComputedTask>)
    requires DistinctIds(tasks) && i < |tasks| && Reached(tasks, i)
    requires DistinctIds(WithHours(tasks, i, hours))
    requires ScheduleOf(tasks, out) && ScheduleOf(WithHours(tasks, i, hours), out')
    ensures ProjectEnd(out') < ProjectEnd(out) <==>
      && NewDuration(tasks, i, hours) < Duration(tasks[i])
      && forall p :: CriticalChainOf(tasks, out, p) ==> tasks[i].id in p
  {
    if NewDuration(tasks, i, hours) < Duration(tasks[i]) {
      ShorterTask(tasks, i, hours, out, out');
    } else {
      LengtheningLaw(tasks, i, hours, out, out');
    }
  }

  lemma {:induction false} ShorterTask(tasks: seq<PlanTask>, i: nat, hours: real, out: seq<ComputedTask>,
      out': seq<ComputedTask>)
    requires DistinctIds(tasks) && i < |tasks| && Reached(tasks, i)
    requires NewDuration(tasks, i, hours) < Duration(tasks[i])
    requires DistinctIds(WithHours(tasks, i, hours))
    requires ScheduleOf(tasks, out) && ScheduleOf(WithHours(tasks, i, hours), out')
    ensures ProjectEnd(out') < ProjectEnd(out) <==> forall p :: CriticalChainOf(tasks, out, p) ==> tasks[i].id in p
  {
    var d := Duration(tasks[i]) - NewDuration(tasks, i, hours);
    var order, t := PlanAndRow(tasks, out, i);
    var dur', order', t' := ChangedPlan(tasks, i, hours, -d, out');
    assert LongerBy(dur', Durations(tasks), tasks[i].id, d);
    forall p
      ensures CriticalChainOf(tasks, out, p) <==> Critical(GraphOf(tasks), Durations(tasks), order, t.end, p)
    {
      CriticalChainExplained(tasks, out, order, p);
    }
    ShortenEnd(GraphOf(tasks), Durations(tasks), order, t, tasks[i].id, d, dur', order', t');
  }

  // ------------------------------------------------------------------
  // Two critical chains side by side
  // ------------------------------------------------------------------

  ghost predicate Independent(tasks: seq<PlanTask>) {
    forall k :: 0 <= k < |tasks| ==> tasks[k].dependsOn.GetOr([]) == []
  }

  lemma {:induction false} IndependentReached(tasks: seq<PlanTask>, i: nat)
    requires DistinctIds(tasks) && Independent(tasks) && i < |tasks|
    ensures tasks[i].id in GraphOf(tasks).deps && GraphOf(tasks).deps[tasks[i].id] == [] && Reached(tasks, i)
  {
    GraphOfValid(tasks);
    var g := GraphOf(tasks);
    assert TaskIds(tasks)[i] == tasks[i].id;
    forall v | v in g.deps
      ensures g.deps[v] == []
    {
      assert v in g.nodes;
      var k := NodeIndex(tasks, v);
      assert tasks[k].dependsOn.GetOr([]) == [];
    }
    forall c
      ensures !Cycle(g, c)
    {
      if |c| >= 2 && c[1] in g.deps {
        assert c[0] !in g.deps[c[1]];
      }
    }
  }

  lemma {:induction false} IndependentRow(tasks: seq<PlanTask>, out: seq<ComputedTask>, i: nat)
    requires DistinctIds(tasks) && ScheduleOf(tasks, out) && Independent(tasks) && i < |tasks|
    ensures |out| == |tasks| && out[i].earliestStart == 0.0 && out[i].earliestEnd == Duration(tasks[i])
    ensures 0.0 <= out[i].slack <= ProjectEnd(out) - Duration(tasks[i])
    ensures out[i].isCritical <==> out[i].slack < CRITICAL_SLACK
  {
    var order, t := Explained(tasks, out);
    ProjectEndExplained(tasks, out, order, t);
    IndependentReached(tasks, i);
    RowExplained(tasks, out, order, t, i);
    RowsInTime(tasks, out, order, t, i);
    assert StartsOnTime(GraphOf(tasks), Durations(tasks), t.es, tasks[i].id);
  }

  lemma {:induction false} EndOfPair(out: seq<ComputedTask>, a: real, b: real)
    requires |out| == 2 && out[0].earliestEnd == a && out[1].earliestEnd == b && 0.0 <= a <= b
    ensures ProjectEnd(out) == b
  {
    var ends := EarliestEnds(out);
    assert ends == [a, b];
    assert ends[1] in ends;
  }

  lemma {:induction false} PairEnd(tasks: seq<PlanTask>, out: seq<ComputedTask>, a: real, b: real)
    requires DistinctIds(tasks) && ScheduleOf(tasks, out) && Independent(tasks)
    requires |tasks| == 2 && Duration(tasks[0]) == a <= b == Duration(tasks[1])
    ensures |out| == 2 && ProjectEnd(out) == b
  {
    IndependentRow(tasks, out, 0);
    IndependentRow(tasks, out, 1);
    EndOfPair(out, a, b);
  }

  lemma {:induction false} HalvedPair(tasks: seq<PlanTask>)
    requires |tasks| == 2 && Independent(tasks) && tasks[0].hours == tasks[1].hours == Some(1.0)
    ensures var shorter := WithHours(tasks, 0, 0.5);
            && |shorter| == 2 && Independent(shorter)
            && Duration(shorter[0]) == 0.5 && Duration(shorter[1]) == 1.0
  {
    var shorter := WithHours(tasks, 0, 0.5);
    assert shorter[1] == tasks[1] && shorter[0].dependsOn == tasks[0].dependsOn;
  }

  /**
   * The promise that shortening any critical task shortens the project fails with two
   * tasks of one hour side by side: both are critical, and halving one changes nothing.
   */
  lemma {:induction false} ShorteningACriticalTaskCanFail(tasks: seq<PlanTask>, out: seq<ComputedTask>,
      out': seq<ComputedTask>)
    requires |tasks| == 2 && DistinctIds(tasks) && Independent(tasks)
    requires tasks[0].hours == tasks[1].hours == Some(1.0)
    requires DistinctIds(WithHours(tasks, 0, 0.5))
    requires ScheduleOf(tasks, out) && ScheduleOf(WithHours(tasks, 0, 0.5), out')
    ensures |out| == 2 && out[0].isCritical && ProjectEnd(out') == ProjectEnd(out) == 1.0
  {
    var shorter := WithHours(tasks, 0, 0.5);
    HalvedPair(tasks);
    PairEnd(shorter, out', 0.5, 1.0);
    PairEnd(tasks, out, 1.0, 1.0);
    IndependentRow(tasks, out, 0);
  }
}
