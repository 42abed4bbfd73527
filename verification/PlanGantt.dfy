/**
 * The Gantt schedule: forward pass in queue order, project end, backward pass
 * in reverse order, slack and criticality.
 */
module PlanGantt {
  import opened Prelude
  import opened PlanGraph
  import opened KahnQueue

  const DEFAULT_DURATION_HOURS := 1.0
  const MIN_DURATION_HOURS := 0.5
  const CRITICAL_SLACK := 0.001

  datatype ComputedTask = ComputedTask(
    id: Id, title: string, duration: real,
    earliestStart: real, earliestEnd: real, latestStart: real, latestEnd: real,
    slack: real, isCritical: bool)

  function Max(a: real, b: real): real {
    if a >= b then a else b
  }

  /** Math.max(0, ...xs) */
  function MaxOrZero(xs: seq<real>): (m: real)
    ensures m >= 0.0
    ensures forall x :: x in xs ==> x <= m
    ensures m == 0.0 || m in xs
  {
    assert xs != [] ==> xs == [xs[0]] + xs[1..];
    if xs == [] then 0.0 else Max(MaxOrZero(xs[1..]), xs[0])
  }

  /** Math.min(...xs) of at least one value */
  function MinOf(xs: seq<real>): (m: real)
    requires xs != []
    ensures forall x :: x in xs ==> m <= x
    ensures m in xs
  {
    assert xs == [xs[0]] + xs[1..];
    if |xs| == 1 then xs[0]
    else
      var rest := MinOf(xs[1..]);
      if rest <= xs[0] then rest else xs[0]
  }

  function Duration(task: PlanTask): real {
    Max(task.hours.GetOr(DEFAULT_DURATION_HOURS), MIN_DURATION_HOURS)
  }

  function Durations(tasks: seq<PlanTask>): (m: map<Id, real>)
    ensures m.Keys == Elements(TaskIds(tasks))
    ensures forall v :: v in m ==> m[v] >= MIN_DURATION_HOURS
  {
    if tasks == [] then map[]
    else
      var n := |tasks| - 1;
      TaskIdsSnoc(tasks);
      Durations(tasks[..n])[tasks[n].id := Duration(tasks[n])]
  }

  lemma {:induction false} DurationsAt(tasks: seq<PlanTask>, i: nat)
    requires i < |tasks| && DistinctIds(tasks)
    ensures tasks[i].id in Durations(tasks) && Durations(tasks)[tasks[i].id] == Duration(tasks[i])
  {
    if i < |tasks| - 1 {
      DurationsAt(tasks[..|tasks| - 1], i);
    }
  }

  ghost predicate ValidPlan(g: Graph, dur: map<Id, real>) {
    && Valid(g)
    && dur.Keys == g.deps.Keys
    && (forall v :: v in dur ==> dur[v] > 0.0)
  }

  lemma {:induction false} PlanOfValid(tasks: seq<PlanTask>)
    requires DistinctIds(tasks)
    ensures ValidPlan(GraphOf(tasks), Durations(tasks))
    ensures forall i :: 0 <= i < |tasks| ==>
      tasks[i].id in Durations(tasks) && Durations(tasks)[tasks[i].id] == Duration(tasks[i])
  {
    GraphOfValid(tasks);
    forall i | 0 <= i < |tasks|
      ensures tasks[i].id in Durations(tasks) && Durations(tasks)[tasks[i].id] == Duration(tasks[i])
    {
      DurationsAt(tasks, i);
    }
    assert forall v :: v in Durations(tasks) <==> v in GraphOf(tasks).deps;
  }

  // ------------------------------------------------------------------
  // The critical path method, as equations on the processed tasks
  // ------------------------------------------------------------------

  /** Earliest starts of every task, latest starts of the processed ones, project end. */
  datatype Cpm = Cpm(es: map<Id, real>, ls: map<Id, real>, end: real)

  /** es[v] is the latest of 0 and the ends of v's dependencies. */
  ghost predicate StartsOnTime(g: Graph, dur: map<Id, real>, es: map<Id, real>, v: Id)
    requires ValidPlan(g, dur) && es.Keys == g.deps.Keys && v in g.deps
  {
    && es[v] >= 0.0
    && (forall d :: d in g.deps[v] ==> es[d] + dur[d] <= es[v])
    && (es[v] == 0.0 || exists d :: d in g.deps[v] && es[d] + dur[d] == es[v])
  }

  ghost predicate ForwardPassOf(g: Graph, dur: map<Id, real>, done: set<Id>, es: map<Id, real>)
    requires ValidPlan(g, dur)
  {
    && es.Keys == g.deps.Keys
    && (forall v {:trigger StartsOnTime(g, dur, es, v)} :: v in g.deps && v in done ==> StartsOnTime(g, dur, es, v))
    && (forall v :: v in es && v !in done ==> es[v] == 0.0)
  }

  /** end is the latest of 0 and the ends of the processed tasks. */
  ghost predicate ProjectEndOf(g: Graph, dur: map<Id, real>, done: set<Id>, es: map<Id, real>, end: real)
    requires ValidPlan(g, dur) && es.Keys == g.deps.Keys
  {
    && end >= 0.0
    && (forall v :: v in es && v in done ==> es[v] + dur[v] <= end)
    && (end == 0.0 || exists v :: v in es && v in done && es[v] + dur[v] == end)
  }

  /** ls[v] + dur[v] is the earliest of the project end and the latest starts of v's scheduled successors. */
  ghost predicate EndsOnTime(g: Graph, dur: map<Id, real>, ls: map<Id, real>, end: real, v: Id)
    requires ValidPlan(g, dur) && v in g.deps && v in ls
  {
    && ls[v] + dur[v] <= end
    && (forall s :: s in ls && s in g.deps && v in g.deps[s] ==> ls[v] + dur[v] <= ls[s])
    && (ls[v] + dur[v] == end
        || exists s :: s in ls && s in g.deps && v in g.deps[s] && ls[v] + dur[v] == ls[s])
  }

  ghost predicate BackwardPassOf(g: Graph, dur: map<Id, real>, done: set<Id>, ls: map<Id, real>, end: real)
    requires ValidPlan(g, dur)
  {
    && ls.Keys == done
    && (forall v {:trigger EndsOnTime(g, dur, ls, end, v)} :: v in ls && v in g.deps ==> EndsOnTime(g, dur, ls, end, v))
  }

  ghost predicate CpmOf(g: Graph, dur: map<Id, real>, order: seq<Id>, t: Cpm)
    requires ValidPlan(g, dur)
  {
    && KahnOrder(g, order)
    && ForwardPassOf(g, dur, Elements(order), t.es)
    && ProjectEndOf(g, dur, Elements(order), t.es, t.end)
    && BackwardPassOf(g, dur, Elements(order), t.ls, t.end)
  }

  function At(m: map<Id, real>, v: Id, default: real): real {
    if v in m then m[v] else default
  }

  /** The row of one task: a task the queue never reached has all four times 0. */
  function RowOf(task: PlanTask, t: Cpm): ComputedTask {
    var es := At(t.es, task.id, 0.0);
    var reached := task.id in t.ls;
    var ls := At(t.ls, task.id, 0.0);
    var slack := Max(0.0, ls - es);
    ComputedTask(
      task.id, task.title, Duration(task),
      es, if reached then es + Duration(task) else 0.0,
      ls, if reached then ls + Duration(task) else 0.0,
      slack, slack < CRITICAL_SLACK)
  }

  /** out holds, in task order, the critical path times of the tasks. */
  ghost predicate ScheduleOf(tasks: seq<PlanTask>, out: seq<ComputedTask>)
    requires DistinctIds(tasks)
  {
    PlanOfValid(tasks);
    exists order, t :: CpmOf(GraphOf(tasks), Durations(tasks), order, t) && RowsOf(tasks, t, out)
  }

  ghost predicate RowsOf(tasks: seq<PlanTask>, t: Cpm, out: seq<ComputedTask>) {
    && |out| == |tasks|
    && forall i {:trigger out[i]} :: 0 <= i < |tasks| ==> out[i] == RowOf(tasks[i], t)
  }

  // ------------------------------------------------------------------
  // Forward pass
  // ------------------------------------------------------------------

  method ForwardPass(g: Graph, dur: map<Id, real>, succ: map<Id, seq<Id>>)
    returns (order: seq<Id>, es: map<Id, real>, ee: map<Id, real>)
    requires ValidPlan(g, dur) && SuccessorsOf(g, succ)
    ensures KahnOrder(g, order)
    ensures ForwardPassOf(g, dur, Elements(order), es)
    ensures EndsOf(g, dur, Elements(order), es, ee)
  {
    var indegree: map<Id, int> := map v | v in g.deps :: |g.deps[v]|;
    var queue := InitialQueue(g, indegree);
    es := map v | v in g.deps :: 0.0;
    ee := map v | v in g.deps :: 0.0;
    order := [];
    while queue != []
      invariant QueueState(g, order, queue, indegree)
      invariant ForwardPassOf(g, dur, Elements(order), es)
      invariant EndsOf(g, dur, Elements(order), es, ee)
      decreases |g.nodes| - |order|
    {
      RoundBegins(g, succ, order, queue, indegree);
      ghost var order0, queue0, indegree0 := order, queue, indegree;
      var id := queue[0];
      order := order + [id];
      var start := MaxOrZero(EndsAt(g.deps[id], ee));
      var finish := start + dur[id];
      ForwardStep(g, dur, order0, es, ee, id, start, finish);
      es := es[id := start];
      ee := ee[id := finish];
      queue, indegree := Release(queue[1..], indegree, succ[id]);
      RoundEnds(g, succ, order0, queue0, indegree0, queue, indegree);
      QueueBounded(g, order, queue, indegree);
    }
    QueueDone(g, order, indegree);
  }

  /** The inner loop of a round. */
  method Release(queue0: seq<Id>, indegree0: map<Id, int>, successors: seq<Id>)
    returns (queue: seq<Id>, indegree: map<Id, int>)
    requires Releasable(queue0, indegree0, successors)
    ensures Releasing(queue0, indegree0, successors, |successors|, queue, indegree)
  {
    queue, indegree := queue0, indegree0;
    for k := 0 to |successors|
      invariant Releasing(queue0, indegree0, successors, k, queue, indegree)
    {
      ReleaseOne(queue0, indegree0, successors, k, queue, indegree);
      var s := successors[k];
      indegree := indegree[s := indegree[s] - 1];
      if indegree[s] == 0 {
        queue := queue + [s];
      }
    }
  }

  /** ee holds the earliest ends: 0 for a task not yet processed. */
  ghost predicate EndsOf(g: Graph, dur: map<Id, real>, done: set<Id>, es: map<Id, real>, ee: map<Id, real>)
    requires ValidPlan(g, dur) && es.Keys == g.deps.Keys
  {
    && ee.Keys == g.deps.Keys
    && forall v :: v in ee ==> ee[v] == if v in done then es[v] + dur[v] else 0.0
  }

  function EndsAt(deps: seq<Id>, ee: map<Id, real>): seq<real> {
    seq(|deps|, i requires 0 <= i < |deps| => At(ee, deps[i], 0.0))
  }

  /** The start computed for id meets its equation. */
  lemma {:induction false} StartComputed(g: Graph, dur: map<Id, real>, done: set<Id>, es: map<Id, real>,
      ee: map<Id, real>, id: Id)
    requires ValidPlan(g, dur) && es.Keys == g.deps.Keys && EndsOf(g, dur, done, es, ee)
    requires id in g.deps && id !in done
    requires forall d :: d in g.deps[id] ==> d in done
    ensures StartsOnTime(g, dur, es[id := MaxOrZero(EndsAt(g.deps[id], ee))], id)
  {
    var deps := g.deps[id];
    var ends := EndsAt(deps, ee);
    var start := MaxOrZero(ends);
    forall d | d in deps
      ensures es[d] + dur[d] in ends
    {
      var i :| 0 <= i < |deps| && deps[i] == d;
      assert ends[i] == es[d] + dur[d];
    }
    if start != 0.0 {
      var i :| 0 <= i < |ends| && ends[i] == start;
      assert deps[i] in deps && es[deps[i]] + dur[deps[i]] == start;
    }
  }

  /** A start that no equation of v reads may change. */
  lemma {:induction false} StartUnaffected(g: Graph, dur: map<Id, real>, es: map<Id, real>, v: Id, id: Id, start: real)
    requires ValidPlan(g, dur) && es.Keys == g.deps.Keys && v in g.deps && id in g.deps
    requires StartsOnTime(g, dur, es, v) && id != v && id !in g.deps[v]
    ensures StartsOnTime(g, dur, es[id := start], v)
  {
    if es[v] != 0.0 {
      var d :| d in g.deps[v] && es[d] + dur[d] == es[v];
      assert es[id := start][d] + dur[d] == es[v];
    }
  }

  lemma {:induction false} EndEntered(g: Graph, dur: map<Id, real>, done: set<Id>, es: map<Id, real>,
      ee: map<Id, real>, id: Id, start: real, finish: real)
    requires ValidPlan(g, dur) && es.Keys == g.deps.Keys && EndsOf(g, dur, done, es, ee)
    requires id in g.deps && id !in done && finish == start + dur[id]
    ensures EndsOf(g, dur, done + {id}, es[id := start], ee[id := finish])
  {
    var es', ee' := es[id := start], ee[id := finish];
    forall v | v in ee'
      ensures ee'[v] == if v in done + {id} then es'[v] + dur[v] else 0.0
    {
      if v == id {
        assert ee'[v] == finish;
      } else {
        assert ee'[v] == ee[v] && es'[v] == es[v];
      }
    }
  }

  lemma {:induction false} ForwardStep(g: Graph, dur: map<Id, real>, order: seq<Id>, es: map<Id, real>,
      ee: map<Id, real>, id: Id, start: real, finish: real)
    requires ValidPlan(g, dur) && TopologicalPrefix(g, order)
    requires ForwardPassOf(g, dur, Elements(order), es) && EndsOf(g, dur, Elements(order), es, ee)
    requires id in g.deps && id !in order
    requires forall d :: d in g.deps[id] ==> d in order
    requires start == MaxOrZero(EndsAt(g.deps[id], ee)) && finish == start + dur[id]
    ensures ForwardPassOf(g, dur, Elements(order + [id]), es[id := start])
    ensures EndsOf(g, dur, Elements(order + [id]), es[id := start], ee[id := finish])
  {
    StartComputed(g, dur, Elements(order), es, ee, id);
    ElementsSnoc(order, id);
    forall v | v in Elements(order) && v in g.deps
      ensures StartsOnTime(g, dur, es[id := start], v)
    {
      DepsNotNew(g, order, v, id);
      StartUnaffected(g, dur, es, v, id, start);
    }
    EndEntered(g, dur, Elements(order), es, ee, id, start, finish);
  }

  lemma {:induction false} DepsNotNew(g: Graph, order: seq<Id>, v: Id, id: Id)
    requires Valid(g) && TopologicalPrefix(g, order) && v in order && v in g.deps && id !in order
    ensures id !in g.deps[v] && id != v
  {
    if id in g.deps[v] {
      DepBefore(g, order, id, v);
    }
  }

  // ------------------------------------------------------------------
  // Backward pass
  // ------------------------------------------------------------------

  function StartsAt(successors: seq<Id>, ls: map<Id, real>, end: real): seq<real> {
    seq(|successors|, i requires 0 <= i < |successors| => At(ls, successors[i], end))
  }

  function LatestEnd(successors: seq<Id>, ls: map<Id, real>, end: real): real {
    if successors == [] then end else MinOf(StartsAt(successors, ls, end))
  }

  method BackwardPass(g: Graph, dur: map<Id, real>, succ: map<Id, seq<Id>>, order: seq<Id>, end: real)
    returns (ls: map<Id, real>, le: map<Id, real>)
    requires ValidPlan(g, dur) && SuccessorsOf(g, succ) && KahnOrder(g, order)
    ensures BackwardPassOf(g, dur, Elements(order), ls, end)
    ensures LatestEndsOf(g, dur, ls, le)
  {
    ls, le := map[], map[];
    var i := |order|;
    while i > 0
      invariant 0 <= i <= |order|
      invariant BackwardPassOf(g, dur, Elements(order[i..]), ls, end)
      invariant LatestEndsOf(g, dur, ls, le)
    {
      i := i - 1;
      var id := order[i];
      var finish := LatestEnd(succ[id], ls, end);
      var begin := finish - dur[id];
      BackwardStep(g, dur, succ, order, i, ls, end, begin, finish);
      LatestEndEntered(g, dur, ls, le, id, begin, finish);
      le := le[id := finish];
      ls := ls[id := begin];
    }
    assert order[0..] == order;
  }

  ghost predicate LatestEndsOf(g: Graph, dur: map<Id, real>, ls: map<Id, real>, le: map<Id, real>)
    requires ValidPlan(g, dur)
  {
    && le.Keys == ls.Keys
    && forall v :: v in le && v in g.deps ==> le[v] == ls[v] + dur[v]
  }

  lemma {:induction false} LatestEndEntered(g: Graph, dur: map<Id, real>, ls: map<Id, real>, le: map<Id, real>,
      id: Id, begin: real, finish: real)
    requires ValidPlan(g, dur) && LatestEndsOf(g, dur, ls, le)
    requires id in g.deps && begin == finish - dur[id]
    ensures LatestEndsOf(g, dur, ls[id := begin], le[id := finish])
  {
  }

  /** The end computed for id is no later than the project end and every successor's latest start ... */
  lemma {:induction false} EndBounded(g: Graph, dur: map<Id, real>, succ: map<Id, seq<Id>>, ls: map<Id, real>,
      end: real, id: Id, s: Id)
    requires Valid(g) && SuccessorsOf(g, succ) && id in g.deps
    requires s in ls && s in g.deps && id in g.deps[s]
    ensures LatestEnd(succ[id], ls, end) <= ls[s]
  {
    SuccessorMembership(g, succ, id, s);
    var k :| 0 <= k < |succ[id]| && succ[id][k] == s;
    var starts := StartsAt(succ[id], ls, end);
    assert starts[k] == ls[s];
    assert ls[s] in starts;
  }

  /** ... and is one of them: a successor without a latest start reads as the project end. */
  lemma {:induction false} EndAttained(g: Graph, succ: map<Id, seq<Id>>, ls: map<Id, real>, end: real, id: Id)
    requires Valid(g) && SuccessorsOf(g, succ) && id in g.deps
    ensures var finish := LatestEnd(succ[id], ls, end);
      finish == end || exists s :: s in ls && s in g.deps && id in g.deps[s] && finish == ls[s]
  {
    var successors := succ[id];
    if successors != [] {
      var starts := StartsAt(successors, ls, end);
      var k :| 0 <= k < |starts| && starts[k] == MinOf(starts);
      SuccessorMembership(g, succ, id, successors[k]);
    }
  }

  lemma {:induction false} EndComputed(g: Graph, dur: map<Id, real>, succ: map<Id, seq<Id>>, ls: map<Id, real>,
      end: real, id: Id, begin: real, finish: real)
    requires ValidPlan(g, dur) && SuccessorsOf(g, succ)
    requires forall s :: s in ls ==> ls[s] <= end
    requires id in g.deps && id !in ls && id !in g.deps[id]
    requires finish == LatestEnd(succ[id], ls, end) && begin + dur[id] == finish
    ensures EndsOnTime(g, dur, ls[id := begin], end, id)
  {
    EndAttained(g, succ, ls, end, id);
    forall s | s in ls && s in g.deps && id in g.deps[s]
      ensures finish <= ls[s]
    {
      EndBounded(g, dur, succ, ls, end, id, s);
    }
    EndMeets(g, dur, ls, end, id, begin);
  }

  lemma {:induction false} EndMeets(g: Graph, dur: map<Id, real>, ls: map<Id, real>, end: real, id: Id, begin: real)
    requires ValidPlan(g, dur) && id in g.deps && id !in ls && id !in g.deps[id]
    requires forall s :: s in ls ==> ls[s] <= end
    requires forall s :: s in ls && s in g.deps && id in g.deps[s] ==> begin + dur[id] <= ls[s]
    requires begin + dur[id] == end
             || exists s :: s in ls && s in g.deps && id in g.deps[s] && begin + dur[id] == ls[s]
    ensures EndsOnTime(g, dur, ls[id := begin], end, id)
  {
    if begin + dur[id] != end {
      var s :| s in ls && s in g.deps && id in g.deps[s] && begin + dur[id] == ls[s];
      assert ls[id := begin][s] == ls[s];
    }
  }

  /** Entering the latest start of a task that does not depend on v keeps v's equation. */
  lemma {:induction false} EndUnaffected(g: Graph, dur: map<Id, real>, ls: map<Id, real>, end: real, v: Id, id: Id,
      begin: real)
    requires ValidPlan(g, dur) && v in g.deps && v in ls && id in g.deps && id !in ls
    requires EndsOnTime(g, dur, ls, end, v) && v !in g.deps[id]
    ensures EndsOnTime(g, dur, ls[id := begin], end, v)
  {
    if ls[v] + dur[v] != end {
      var s :| s in ls && s in g.deps && v in g.deps[s] && ls[v] + dur[v] == ls[s];
      assert ls[id := begin][s] == ls[s];
    }
  }

  /** What comes after a task in the order is not among its dependencies. */
  lemma {:induction false} TailIndependent(g: Graph, order: seq<Id>, i: nat)
    requires Valid(g) && TopologicalPrefix(g, order) && i < |order|
    ensures order[i] in g.deps && order[i] !in g.deps[order[i]] && order[i] !in order[i + 1..]
    ensures forall v :: v in order[i + 1..] ==> v in g.deps && v !in g.deps[order[i]]
    ensures Elements(order[i..]) == Elements(order[i + 1..]) + {order[i]}
  {
    var id := order[i];
    assert order[i..] == [id] + order[i + 1..];
    IndexUnique(order, id, i);
    if id in g.deps[id] {
      DepBefore(g, order, id, id);
    }
    forall v | v in order[i + 1..]
      ensures v in g.deps && v !in g.deps[id] && v != id
    {
      var j :| i < j < |order| && order[j] == v;
      IndexUnique(order, v, j);
      if v in g.deps[id] {
        DepBefore(g, order, v, id);
      }
    }
  }

  lemma {:induction false} BackwardStep(g: Graph, dur: map<Id, real>, succ: map<Id, seq<Id>>, order: seq<Id>, i: nat,
      ls: map<Id, real>, end: real, begin: real, finish: real)
    requires ValidPlan(g, dur) && SuccessorsOf(g, succ) && TopologicalPrefix(g, order) && i < |order|
    requires BackwardPassOf(g, dur, Elements(order[i + 1..]), ls, end)
    requires finish == LatestEnd(succ[order[i]], ls, end) && begin + dur[order[i]] == finish
    ensures BackwardPassOf(g, dur, Elements(order[i..]), ls[order[i] := begin], end)
  {
    TailIndependent(g, order, i);
    ScheduledEarly(g, dur, Elements(order[i + 1..]), ls, end);
    EndComputed(g, dur, succ, ls, end, order[i], begin, finish);
    LatestKept(g, dur, Elements(order[i + 1..]), ls, end, order[i], begin);
  }

  lemma {:induction false} ScheduledEarly(g: Graph, dur: map<Id, real>, done: set<Id>, ls: map<Id, real>, end: real)
    requires ValidPlan(g, dur) && BackwardPassOf(g, dur, done, ls, end) && done <= g.deps.Keys
    ensures forall s :: s in ls ==> ls[s] <= end
  {
    forall s | s in ls
      ensures ls[s] <= end
    {
      assert EndsOnTime(g, dur, ls, end, s);
    }
  }

  lemma {:induction false} LatestKept(g: Graph, dur: map<Id, real>, done: set<Id>, ls: map<Id, real>, end: real,
      id: Id, begin: real)
    requires ValidPlan(g, dur) && BackwardPassOf(g, dur, done, ls, end)
    requires id in g.deps && id !in done && forall v :: v in done ==> v !in g.deps[id]
    requires EndsOnTime(g, dur, ls[id := begin], end, id)
    ensures BackwardPassOf(g, dur, done + {id}, ls[id := begin], end)
  {
    forall v | v in ls && v in g.deps
      ensures EndsOnTime(g, dur, ls[id := begin], end, v)
    {
      EndUnaffected(g, dur, ls, end, v, id, begin);
    }
  }

  // ------------------------------------------------------------------
  // The schedule
  // ------------------------------------------------------------------

  /** The row the code builds from its four maps. */
  function ComputedRow(task: PlanTask, es: map<Id, real>, ee: map<Id, real>, ls: map<Id, real>,
      le: map<Id, real>): ComputedTask {
    var slack := Max(0.0, At(ls, task.id, 0.0) - At(es, task.id, 0.0));
    ComputedTask(
      task.id, task.title, Duration(task),
      At(es, task.id, 0.0), At(ee, task.id, 0.0), At(ls, task.id, 0.0), At(le, task.id, 0.0),
      slack, slack < CRITICAL_SLACK)
  }

  function ComputedRows(tasks: seq<PlanTask>, es: map<Id, real>, ee: map<Id, real>, ls: map<Id, real>,
      le: map<Id, real>): seq<ComputedTask> {
    seq(|tasks|, i requires 0 <= i < |tasks| => ComputedRow(tasks[i], es, ee, ls, le))
  }

  lemma {:induction false} RowComputed(g: Graph, dur: map<Id, real>, done: set<Id>, t: Cpm, ee: map<Id, real>,
      le: map<Id, real>, task: PlanTask)
    requires ValidPlan(g, dur) && task.id in g.deps && dur[task.id] == Duration(task)
    requires t.es.Keys == g.deps.Keys && t.ls.Keys == done
    requires EndsOf(g, dur, done, t.es, ee) && LatestEndsOf(g, dur, t.ls, le)
    ensures ComputedRow(task, t.es, ee, t.ls, le) == RowOf(task, t)
  {
    assert ee[task.id] == if task.id in done then t.es[task.id] + dur[task.id] else 0.0;
  }

  method ComputeSchedule(tasks: seq<PlanTask>) returns (out: seq<ComputedTask>)
    requires DistinctIds(tasks)
    ensures ScheduleOf(tasks, out)
  {
    PlanOfValid(tasks);
    var order, es, ee, end, ls, le := TwoPasses(GraphOf(tasks), Durations(tasks));
    RowsComputed(tasks, order, Cpm(es, ls, end), ee, le);
    out := ComputedRows(tasks, es, ee, ls, le);
  }

  method TwoPasses(g: Graph, dur: map<Id, real>)
    returns (order: seq<Id>, es: map<Id, real>, ee: map<Id, real>, end: real,
             ls: map<Id, real>, le: map<Id, real>)
    requires ValidPlan(g, dur)
    ensures CpmOf(g, dur, order, Cpm(es, ls, end))
    ensures es.Keys == g.deps.Keys && EndsOf(g, dur, Elements(order), es, ee) && LatestEndsOf(g, dur, ls, le)
  {
    var succ := BuildSuccessors(g);
    order, es, ee := ForwardPass(g, dur, succ);
    end := MaxOrZero(EndsAt(g.nodes, ee));
    ProjectEndComputed(g, dur, order, es, ee, end);
    ls, le := BackwardPass(g, dur, succ, order, end);
  }

  lemma {:induction false} RowsComputed(tasks: seq<PlanTask>, order: seq<Id>, t: Cpm, ee: map<Id, real>,
      le: map<Id, real>)
    requires DistinctIds(tasks) && ValidPlan(GraphOf(tasks), Durations(tasks))
    requires CpmOf(GraphOf(tasks), Durations(tasks), order, t)
    requires EndsOf(GraphOf(tasks), Durations(tasks), Elements(order), t.es, ee)
    requires LatestEndsOf(GraphOf(tasks), Durations(tasks), t.ls, le)
    ensures ScheduleOf(tasks, ComputedRows(tasks, t.es, ee, t.ls, le))
  {
    PlanOfValid(tasks);
    var out := ComputedRows(tasks, t.es, ee, t.ls, le);
    forall i | 0 <= i < |tasks|
      ensures out[i] == RowOf(tasks[i], t)
    {
      RowComputed(GraphOf(tasks), Durations(tasks), Elements(order), t, ee, le, tasks[i]);
    }
    assert RowsOf(tasks, t, out);
  }

  lemma {:induction false} ProjectEndComputed(g: Graph, dur: map<Id, real>, order: seq<Id>, es: map<Id, real>,
      ee: map<Id, real>, end: real)
    requires ValidPlan(g, dur) && ForwardPassOf(g, dur, Elements(order), es) && EndsOf(g, dur, Elements(order), es, ee)
    requires end == MaxOrZero(EndsAt(g.nodes, ee))
    ensures ProjectEndOf(g, dur, Elements(order), es, end)
  {
    var ends := EndsAt(g.nodes, ee);
    forall v | v in es && v in order
      ensures es[v] + dur[v] in ends
    {
      var k :| 0 <= k < |g.nodes| && g.nodes[k] == v;
      assert ends[k] == ee[v] && ee[v] == es[v] + dur[v];
    }
    if end != 0.0 {
      var k :| 0 <= k < |ends| && ends[k] == end;
      var v := g.nodes[k];
      assert v in es && ee[v] == end && v in Elements(order);
    }
  }
}
