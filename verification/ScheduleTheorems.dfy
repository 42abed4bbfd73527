/**
 * What the rows of the Gantt chart mean: every statement is about a task list and
 * the rows computed from it.
 */
module ScheduleTheorems {
  import opened Prelude
  import opened PlanGraph
  import opened PlanGantt
  import opened CriticalPath
  import opened CriticalChain

  /** Task i neither lies on a cycle nor depends on one. */
  ghost predicate Reached(tasks: seq<PlanTask>, i: nat)
    requires i < |tasks|
  {
    !OnOrBehindCycle(GraphOf(tasks), tasks[i].id)
  }

  function EarliestEnds(out: seq<ComputedTask>): seq<real> {
    seq(|out|, i requires 0 <= i < |out| => out[i].earliestEnd)
  }

  /** The end the chart draws: the latest of 0 and all earliest ends. */
  function ProjectEnd(out: seq<ComputedTask>): real {
    MaxOrZero(EarliestEnds(out))
  }

  /** The rows come from one solution (order, t) of the equations, row by row. */
  ghost predicate ExplainedBy(tasks: seq<PlanTask>, out: seq<ComputedTask>, order: seq<Id>, t: Cpm)
    requires DistinctIds(tasks)
  {
    PlanOfValid(tasks);
    && CpmOf(GraphOf(tasks), Durations(tasks), order, t)
    && RowsOf(tasks, t, out)
  }

  lemma {:induction false} Explained(tasks: seq<PlanTask>, out: seq<ComputedTask>) returns (order: seq<Id>, t: Cpm)
    requires DistinctIds(tasks) && ScheduleOf(tasks, out)
    ensures ExplainedBy(tasks, out, order, t)
    ensures ValidPlan(GraphOf(tasks), Durations(tasks))
  {
    PlanOfValid(tasks);
    order, t :| CpmOf(GraphOf(tasks), Durations(tasks), order, t) && RowsOf(tasks, t, out);
  }

  /** One row, in terms of the solution. */
  lemma {:induction false} RowExplained(tasks: seq<PlanTask>, out: seq<ComputedTask>, order: seq<Id>, t: Cpm, i: nat)
    requires DistinctIds(tasks) && ExplainedBy(tasks, out, order, t) && i < |tasks|
    ensures ValidPlan(GraphOf(tasks), Durations(tasks))
    ensures tasks[i].id in GraphOf(tasks).deps && tasks[i].id in t.es
    ensures Durations(tasks)[tasks[i].id] == Duration(tasks[i])
    ensures Reached(tasks, i) <==> tasks[i].id in order
    ensures Reached(tasks, i) ==>
      && tasks[i].id in t.ls
      && out[i].earliestStart == t.es[tasks[i].id]
      && out[i].earliestEnd == t.es[tasks[i].id] + Duration(tasks[i])
      && out[i].latestStart == t.ls[tasks[i].id]
      && out[i].latestEnd == t.ls[tasks[i].id] + Duration(tasks[i])
      && out[i].slack == t.ls[tasks[i].id] - t.es[tasks[i].id]
    ensures !Reached(tasks, i) ==>
      out[i].earliestStart == out[i].earliestEnd == out[i].latestStart == out[i].latestEnd == out[i].slack == 0.0
  {
    PlanOfValid(tasks);
    var g, dur, v := GraphOf(tasks), Durations(tasks), tasks[i].id;
    assert v in dur && v in g.deps;
    OrderedIffNotBehindCycle(g, order, v);
    assert out[i] == RowOf(tasks[i], t);
    if v in order {
      SlackNonNegative(g, dur, order, t, v);
    } else {
      assert v !in Elements(order);
    }
  }

  lemma {:induction false} NodeIndex(tasks: seq<PlanTask>, v: Id) returns (i: nat)
    requires v in TaskIds(tasks)
    ensures i < |tasks| && tasks[i].id == v
  {
    i :| 0 <= i < |tasks| && TaskIds(tasks)[i] == v;
  }

  lemma {:induction false} RowEndsByProjectEnd(tasks: seq<PlanTask>, out: seq<ComputedTask>, order: seq<Id>, t: Cpm,
      i: nat)
    requires DistinctIds(tasks) && ExplainedBy(tasks, out, order, t) && i < |tasks|
    ensures out[i].earliestEnd <= t.end
  {
    RowExplained(tasks, out, order, t, i);
    if Reached(tasks, i) {
      EarliestIsSchedule(GraphOf(tasks), Durations(tasks), order, t);
      assert tasks[i].id in Elements(order);
    }
  }

  lemma {:induction false} SomeRowEndsTheProject(tasks: seq<PlanTask>, out: seq<ComputedTask>, order: seq<Id>, t: Cpm)
    returns (i: nat)
    requires DistinctIds(tasks) && ExplainedBy(tasks, out, order, t) && t.end != 0.0
    ensures i < |tasks| && out[i].earliestEnd == t.end
  {
    PlanOfValid(tasks);
    var dur := Durations(tasks);
    var u :| u in t.es && u in Elements(order) && t.es[u] + dur[u] == t.end;
    assert u in GraphOf(tasks).nodes;
    i := NodeIndex(tasks, u);
    RowExplained(tasks, out, order, t, i);
  }

  lemma {:induction false} EndsBounded(tasks: seq<PlanTask>, out: seq<ComputedTask>, order: seq<Id>, t: Cpm)
    requires DistinctIds(tasks) && |out| == |tasks| && ExplainedBy(tasks, out, order, t)
    ensures forall x :: x in EarliestEnds(out) ==> x <= t.end
  {
    var ends := EarliestEnds(out);
    forall x | x in ends
      ensures x <= t.end
    {
      var i :| 0 <= i < |ends| && ends[i] == x;
      RowEndsByProjectEnd(tasks, out, order, t, i);
    }
  }

  lemma {:induction false} ProjectEndAttained(tasks: seq<PlanTask>, out: seq<ComputedTask>, order: seq<Id>, t: Cpm)
    requires DistinctIds(tasks) && |out| == |tasks| && ExplainedBy(tasks, out, order, t)
    ensures t.end >= 0.0 && (t.end == 0.0 || t.end in EarliestEnds(out))
  {
    PlanOfValid(tasks);
    if t.end != 0.0 {
      var i := SomeRowEndsTheProject(tasks, out, order, t);
      assert EarliestEnds(out)[i] == t.end;
    }
  }

  lemma {:induction false} ProjectEndExplained(tasks: seq<PlanTask>, out: seq<ComputedTask>, order: seq<Id>, t: Cpm)
    requires DistinctIds(tasks) && ExplainedBy(tasks, out, order, t)
    ensures ProjectEnd(out) == t.end
  {
    EndsBounded(tasks, out, order, t);
    ProjectEndAttained(tasks, out, order, t);
  }

  /** What the rows of one plan say about its end and about one of its reached tasks. */
  lemma {:induction false} PlanAndRow(tasks: seq<PlanTask>, out: seq<ComputedTask>, i: nat)
    returns (order: seq<Id>, t: Cpm)
    requires DistinctIds(tasks) && ScheduleOf(tasks, out) && i < |tasks|
    ensures ValidPlan(GraphOf(tasks), Durations(tasks)) && CpmOf(GraphOf(tasks), Durations(tasks), order, t)
    ensures |out| == |tasks| && ProjectEnd(out) == t.end
    ensures tasks[i].id in GraphOf(tasks).deps && tasks[i].id in t.es
    ensures Durations(tasks)[tasks[i].id] == Duration(tasks[i])
    ensures Reached(tasks, i) <==> tasks[i].id in order
    ensures Reached(tasks, i) ==> out[i].earliestStart == t.es[tasks[i].id]
    ensures Reached(tasks, i) ==> tasks[i].id in t.ls && out[i].slack == t.ls[tasks[i].id] - t.es[tasks[i].id]
  {
    order, t := Explained(tasks, out);
    ProjectEndExplained(tasks, out, order, t);
    RowExplained(tasks, out, order, t, i);
  }

  // ------------------------------------------------------------------
  // One schedule, least and greatest
  // ------------------------------------------------------------------

  /** The rows are determined by the tasks. */
  lemma {:induction false} ScheduleDetermined(tasks: seq<PlanTask>, a: seq<ComputedTask>, b: seq<ComputedTask>)
    requires DistinctIds(tasks) && ScheduleOf(tasks, a) && ScheduleOf(tasks, b)
    ensures a == b
  {
    var orderA, t := Explained(tasks, a);
    var orderB, u := Explained(tasks, b);
    CpmUnique(GraphOf(tasks), Durations(tasks), orderA, t, orderB, u);
    assert RowsOf(tasks, t, a) && RowsOf(tasks, t, b);
  }

  ghost predicate DependsOn(tasks: seq<PlanTask>, i: nat, j: nat)
    requires i < |tasks| && j < |tasks|
  {
    tasks[j].id in tasks[i].dependsOn.GetOr([])
  }

  /** Start times that respect every known dependency of every reached task. */
  ghost predicate FeasibleStarts(tasks: seq<PlanTask>, s: seq<real>) {
    && |s| == |tasks|
    && (forall i :: 0 <= i < |tasks| && Reached(tasks, i) ==> s[i] >= 0.0)
    && (forall i, j :: 0 <= i < |tasks| && 0 <= j < |tasks| && Reached(tasks, i) && DependsOn(tasks, i, j) ==>
          s[j] + Duration(tasks[j]) <= s[i])
  }

  ghost predicate EndsBy(tasks: seq<PlanTask>, s: seq<real>, bound: real)
    requires |s| == |tasks|
  {
    forall i :: 0 <= i < |tasks| && Reached(tasks, i) ==> s[i] + Duration(tasks[i]) <= bound
  }

  ghost function StartsById(tasks: seq<PlanTask>, s: seq<real>): map<Id, real>
    requires |s| == |tasks|
  {
    map v | v in TaskIds(tasks) :: s[IndexIn(TaskIds(tasks), v)]
  }

  lemma {:induction false} StartsByIdAt(tasks: seq<PlanTask>, s: seq<real>, i: nat)
    requires |s| == |tasks| && DistinctIds(tasks) && i < |tasks|
    ensures tasks[i].id in StartsById(tasks, s) && StartsById(tasks, s)[tasks[i].id] == s[i]
  {
    assert TaskIds(tasks)[i] == tasks[i].id;
    IndexUnique(TaskIds(tasks), tasks[i].id, i);
  }

  lemma {:induction false} StartsRespect(tasks: seq<PlanTask>, out: seq<ComputedTask>, order: seq<Id>, t: Cpm,
      s: seq<real>)
    requires DistinctIds(tasks) && ExplainedBy(tasks, out, order, t) && FeasibleStarts(tasks, s)
    ensures ValidPlan(GraphOf(tasks), Durations(tasks))
    ensures Respects(GraphOf(tasks), Durations(tasks), Elements(order), StartsById(tasks, s))
    ensures NonNegative(Elements(order), StartsById(tasks, s))
  {
    PlanOfValid(tasks);
    GraphOfValid(tasks);
    var g, dur, m := GraphOf(tasks), Durations(tasks), StartsById(tasks, s);
    forall v | v in Elements(order)
      ensures v in m && m[v] >= 0.0
    {
      assert v in g.nodes;
      var i := NodeIndex(tasks, v);
      StartsByIdAt(tasks, s, i);
      RowExplained(tasks, out, order, t, i);
    }
    forall v, d | v in Elements(order) && v in g.deps && d in g.deps[v] && d in m
      ensures m[d] + dur[d] <= m[v]
    {
      var i := NodeIndex(tasks, v);
      var j := NodeIndex(tasks, d);
      StartsByIdAt(tasks, s, i);
      StartsByIdAt(tasks, s, j);
      RowExplained(tasks, out, order, t, i);
      RowExplained(tasks, out, order, t, j);
      assert DependsOn(tasks, i, j);
    }
  }

  function EarliestStarts(out: seq<ComputedTask>): seq<real> {
    seq(|out|, i requires 0 <= i < |out| => out[i].earliestStart)
  }

  function LatestStarts(out: seq<ComputedTask>): seq<real> {
    seq(|out|, i requires 0 <= i < |out| => out[i].latestStart)
  }

  lemma {:induction false} DependencyReached(tasks: seq<PlanTask>, out: seq<ComputedTask>, order: seq<Id>, t: Cpm,
      i: nat, j: nat)
    requires DistinctIds(tasks) && ExplainedBy(tasks, out, order, t)
    requires i < |tasks| && j < |tasks| && Reached(tasks, i) && DependsOn(tasks, i, j)
    ensures Reached(tasks, j) && tasks[i].id in GraphOf(tasks).deps
    ensures tasks[j].id in GraphOf(tasks).deps[tasks[i].id]
  {
    GraphOfValid(tasks);
    assert TaskIds(tasks)[j] == tasks[j].id;
    RowExplained(tasks, out, order, t, i);
    RowExplained(tasks, out, order, t, j);
    DepBefore(GraphOf(tasks), order, tasks[j].id, tasks[i].id);
  }

  lemma {:induction false} StartsFinish(tasks: seq<PlanTask>, out: seq<ComputedTask>, order: seq<Id>, t: Cpm,
      s: seq<real>)
    requires DistinctIds(tasks) && ExplainedBy(tasks, out, order, t)
    requires |s| == |tasks| && EndsBy(tasks, s, t.end)
    requires Elements(order) <= StartsById(tasks, s).Keys && Elements(order) <= Durations(tasks).Keys
    ensures FinishesBy(Durations(tasks), Elements(order), StartsById(tasks, s), t.end)
  {
    var dur, m := Durations(tasks), StartsById(tasks, s);
    forall v | v in Elements(order)
      ensures m[v] + dur[v] <= t.end
    {
      var i := NodeIndex(tasks, v);
      StartsByIdAt(tasks, s, i);
      RowExplained(tasks, out, order, t, i);
    }
  }

  lemma {:induction false} RowsRespect(tasks: seq<PlanTask>, out: seq<ComputedTask>, order: seq<Id>, t: Cpm, i: nat,
      j: nat)
    requires DistinctIds(tasks) && ExplainedBy(tasks, out, order, t)
    requires i < |tasks| && j < |tasks| && Reached(tasks, i) && DependsOn(tasks, i, j)
    ensures out[j].earliestStart + Duration(tasks[j]) <= out[i].earliestStart
    ensures out[j].latestStart + Duration(tasks[j]) <= out[i].latestStart
  {
    DependencyReached(tasks, out, order, t, i, j);
    RowExplained(tasks, out, order, t, i);
    RowExplained(tasks, out, order, t, j);
    EarliestIsSchedule(GraphOf(tasks), Durations(tasks), order, t);
    LatestIsSchedule(GraphOf(tasks), Durations(tasks), order, t);
  }

  lemma {:induction false} RowsInTime(tasks: seq<PlanTask>, out: seq<ComputedTask>, order: seq<Id>, t: Cpm, i: nat)
    requires DistinctIds(tasks) && ExplainedBy(tasks, out, order, t) && i < |tasks| && Reached(tasks, i)
    ensures 0.0 <= out[i].earliestStart <= out[i].latestStart
    ensures out[i].latestStart + Duration(tasks[i]) <= t.end
  {
    RowExplained(tasks, out, order, t, i);
    SlackNonNegative(GraphOf(tasks), Durations(tasks), order, t, tasks[i].id);
    LatestIsSchedule(GraphOf(tasks), Durations(tasks), order, t);
    assert tasks[i].id in Elements(order);
  }

  lemma {:induction false} EarliestFeasible(tasks: seq<PlanTask>, out: seq<ComputedTask>, order: seq<Id>, t: Cpm)
    requires DistinctIds(tasks) && |out| == |tasks| && ExplainedBy(tasks, out, order, t)
    ensures FeasibleStarts(tasks, EarliestStarts(out)) && EndsBy(tasks, EarliestStarts(out), t.end)
  {
    var s := EarliestStarts(out);
    forall i | 0 <= i < |tasks| && Reached(tasks, i)
      ensures 0.0 <= s[i] && s[i] + Duration(tasks[i]) <= t.end
    {
      RowsInTime(tasks, out, order, t, i);
    }
    forall i, j | 0 <= i < |tasks| && 0 <= j < |tasks| && Reached(tasks, i) && DependsOn(tasks, i, j)
      ensures s[j] + Duration(tasks[j]) <= s[i]
    {
      RowsRespect(tasks, out, order, t, i, j);
    }
  }

  lemma {:induction false} LatestFeasible(tasks: seq<PlanTask>, out: seq<ComputedTask>, order: seq<Id>, t: Cpm)
    requires DistinctIds(tasks) && |out| == |tasks| && ExplainedBy(tasks, out, order, t)
    ensures FeasibleStarts(tasks, LatestStarts(out)) && EndsBy(tasks, LatestStarts(out), t.end)
  {
    var s := LatestStarts(out);
    forall i | 0 <= i < |tasks| && Reached(tasks, i)
      ensures 0.0 <= s[i] && s[i] + Duration(tasks[i]) <= t.end
    {
      RowsInTime(tasks, out, order, t, i);
    }
    forall i, j | 0 <= i < |tasks| && 0 <= j < |tasks| && Reached(tasks, i) && DependsOn(tasks, i, j)
      ensures s[j] + Duration(tasks[j]) <= s[i]
    {
      RowsRespect(tasks, out, order, t, i, j);
    }
  }

  lemma {:induction false} NotBeforeEarliest(tasks: seq<PlanTask>, out: seq<ComputedTask>, order: seq<Id>, t: Cpm,
      s: seq<real>, i: nat)
    requires DistinctIds(tasks) && ExplainedBy(tasks, out, order, t)
    requires FeasibleStarts(tasks, s) && i < |tasks| && Reached(tasks, i)
    ensures out[i].earliestStart <= s[i]
  {
    StartsRespect(tasks, out, order, t, s);
    StartsByIdAt(tasks, s, i);
    RowExplained(tasks, out, order, t, i);
    EarliestLeast(GraphOf(tasks), Durations(tasks), order, t, StartsById(tasks, s), tasks[i].id);
  }

  lemma {:induction false} NotAfterLatest(tasks: seq<PlanTask>, out: seq<ComputedTask>, order: seq<Id>, t: Cpm,
      s: seq<real>, i: nat)
    requires DistinctIds(tasks) && ExplainedBy(tasks, out, order, t)
    requires FeasibleStarts(tasks, s) && EndsBy(tasks, s, t.end) && i < |tasks| && Reached(tasks, i)
    ensures s[i] <= out[i].latestStart
  {
    StartsRespect(tasks, out, order, t, s);
    DoneWithin(GraphOf(tasks), order);
    StartsFinish(tasks, out, order, t, s);
    StartsByIdAt(tasks, s, i);
    RowExplained(tasks, out, order, t, i);
    LatestGreatest(GraphOf(tasks), Durations(tasks), order, t, StartsById(tasks, s), t.end, tasks[i].id);
  }

  /** The earliest starts are a schedule that respects the dependencies, and no other one starts any task sooner. */
  lemma {:induction false} EarliestStartsAreLeast(tasks: seq<PlanTask>, out: seq<ComputedTask>)
    requires DistinctIds(tasks) && ScheduleOf(tasks, out)
    ensures |out| == |tasks|
    ensures FeasibleStarts(tasks, EarliestStarts(out)) && EndsBy(tasks, EarliestStarts(out), ProjectEnd(out))
    ensures forall s, i :: FeasibleStarts(tasks, s) && 0 <= i < |tasks| && Reached(tasks, i) ==>
        out[i].earliestStart <= s[i]
  {
    var order, t := Explained(tasks, out);
    ProjectEndExplained(tasks, out, order, t);
    EarliestFeasible(tasks, out, order, t);
    forall s, i | FeasibleStarts(tasks, s) && 0 <= i < |tasks| && Reached(tasks, i)
      ensures out[i].earliestStart <= s[i]
    {
      NotBeforeEarliest(tasks, out, order, t, s, i);
    }
  }

  /** The latest starts are a schedule that ends with the project, and no such schedule starts any task later. */
  lemma {:induction false} LatestStartsAreGreatest(tasks: seq<PlanTask>, out: seq<ComputedTask>)
    requires DistinctIds(tasks) && ScheduleOf(tasks, out)
    ensures |out| == |tasks|
    ensures FeasibleStarts(tasks, LatestStarts(out)) && EndsBy(tasks, LatestStarts(out), ProjectEnd(out))
    ensures forall s, i ::
        FeasibleStarts(tasks, s) && EndsBy(tasks, s, ProjectEnd(out)) && 0 <= i < |tasks| && Reached(tasks, i) ==>
        s[i] <= out[i].latestStart
  {
    var order, t := Explained(tasks, out);
    ProjectEndExplained(tasks, out, order, t);
    LatestFeasible(tasks, out, order, t);
    forall s, i | FeasibleStarts(tasks, s) && EndsBy(tasks, s, t.end) && 0 <= i < |tasks| && Reached(tasks, i)
      ensures s[i] <= out[i].latestStart
    {
      NotAfterLatest(tasks, out, order, t, s, i);
    }
  }

  /** Slack is never negative, so clamping it at 0 changes nothing. */
  lemma {:induction false} ClampNeverActs(tasks: seq<PlanTask>, out: seq<ComputedTask>, i: nat)
    requires DistinctIds(tasks) && ScheduleOf(tasks, out) && i < |tasks|
    ensures |out| == |tasks|
    ensures out[i].latestStart >= out[i].earliestStart >= 0.0
    ensures out[i].slack == out[i].latestStart - out[i].earliestStart
  {
    var order, t := Explained(tasks, out);
    RowExplained(tasks, out, order, t, i);
    if Reached(tasks, i) {
      SlackNonNegative(GraphOf(tasks), Durations(tasks), order, t, tasks[i].id);
    }
  }

  /**
   * What one row shows: an hour for a task that states none, else its hours or the minimum of
   * half an hour, whichever is more, between start and end of either pass; critical is less than
   * a thousandth of an hour between the two starts.
   */
  lemma {:induction false} RowShows(tasks: seq<PlanTask>, out: seq<ComputedTask>, i: nat)
    requires DistinctIds(tasks) && ScheduleOf(tasks, out) && i < |tasks|
    ensures |out| == |tasks| && out[i].id == tasks[i].id && out[i].title == tasks[i].title
    ensures tasks[i].hours == None ==> out[i].duration == 1.0
    ensures tasks[i].hours.Some? && tasks[i].hours.value >= 0.5 ==> out[i].duration == tasks[i].hours.value
    ensures tasks[i].hours.Some? && tasks[i].hours.value <= 0.5 ==> out[i].duration == 0.5
    ensures Reached(tasks, i) ==>
      out[i].duration == out[i].earliestEnd - out[i].earliestStart == out[i].latestEnd - out[i].latestStart
    ensures out[i].isCritical <==> out[i].latestStart - out[i].earliestStart < 0.001
  {
    var order, t := Explained(tasks, out);
    RowExplained(tasks, out, order, t, i);
    ClampNeverActs(tasks, out, i);
    assert out[i] == RowOf(tasks[i], t);
  }

  /** A task on or behind a cycle is not left out: it comes back with all times 0, and marked critical. */
  lemma {:induction false} UnreachedRow(tasks: seq<PlanTask>, out: seq<ComputedTask>, i: nat)
    requires DistinctIds(tasks) && ScheduleOf(tasks, out) && i < |tasks|
    requires OnOrBehindCycle(GraphOf(tasks), tasks[i].id)
    ensures |out| == |tasks|
    ensures out[i].earliestStart == out[i].earliestEnd == out[i].latestStart == out[i].latestEnd == 0.0
    ensures out[i].slack == 0.0 && out[i].isCritical
  {
    var order, t := Explained(tasks, out);
    RowExplained(tasks, out, order, t, i);
  }
}
