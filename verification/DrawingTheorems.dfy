/** What a reader of the DAG drawing may rely on, and where it meets the Gantt chart. */
module DrawingTheorems {
  import opened Prelude
  import opened PlanGraph
  import opened PlanDag
  import opened SortedIds
  import opened DagLayout
  import PlanGantt
  import ScheduleTheorems

  // ------------------------------------------------------------------
  // One node per task
  // ------------------------------------------------------------------

  lemma {:induction false} NodeOfCell(tasks: seq<PlanTask>, depth: map<Id, nat>, sz: Sizes, n: LayoutNode)
    requires DistinctIds(tasks) && InCell(tasks, depth, sz, n)
    ensures n.id in TaskIds(tasks) && n.col == DepthOf(depth, n.id)
    ensures n.title == TitleOf(tasks, n.id)
  {
    var column := ColumnIds(tasks, depth, n.col);
    ColumnMembers(tasks, depth, n.col);
    assert n.id in multiset(SortIds(column));
    assert n.id in column;
  }

  lemma {:induction false} TitleIs(tasks: seq<PlanTask>, i: nat)
    requires DistinctIds(tasks) && i < |tasks|
    ensures TitleOf(tasks, tasks[i].id) == tasks[i].title
  {
    if i < |tasks| - 1 {
      TitleIs(tasks[..|tasks| - 1], i);
    }
  }

  lemma {:induction false} SortedColumnDistinct(tasks: seq<PlanTask>, depth: map<Id, nat>, c: nat)
    requires DistinctIds(tasks)
    ensures NoDuplicates(SortIds(ColumnIds(tasks, depth, c)))
  {
    var column := ColumnIds(tasks, depth, c);
    var sorted := SortIds(column);
    ColumnMembers(tasks, depth, c);
    forall i, j | 0 <= i < j < |sorted|
      ensures sorted[i] != sorted[j]
    {
      AtMostOnce(column, sorted[i]);
      if sorted[i] == sorted[j] {
        TwiceCounted(sorted, i, j);
      }
    }
  }

  lemma {:induction false} AtMostOnce(s: seq<Id>, x: Id)
    requires NoDuplicates(s)
    ensures multiset(s)[x] <= 1
  {
    if s != [] {
      AtMostOnce(s[..|s| - 1], x);
      assert s == s[..|s| - 1] + [s[|s| - 1]];
    }
  }

  lemma {:induction false} TwiceCounted(s: seq<Id>, i: nat, j: nat)
    requires i < j < |s| && s[i] == s[j]
    ensures multiset(s)[s[i]] >= 2
  {
    assert s == s[..i] + [s[i]] + s[i + 1..j] + [s[j]] + s[j + 1..];
  }

  ghost predicate Drawn(nodes: seq<LayoutNode>, task: PlanTask, col: nat) {
    exists k :: 0 <= k < |nodes| && nodes[k].id == task.id && nodes[k].title == task.title && nodes[k].col == col
  }

  /** Every task is drawn exactly once, with its title, in the column of its depth. */
  lemma {:induction false} EveryTaskDrawnOnce(tasks: seq<PlanTask>, depth: map<Id, nat>, sz: Sizes,
      nodes: seq<LayoutNode>)
    requires DistinctIds(tasks) && CompleteGrid(tasks, depth, sz, nodes)
    ensures forall i :: 0 <= i < |tasks| ==> Drawn(nodes, tasks[i], DepthOf(depth, tasks[i].id))
    ensures forall k, l :: 0 <= k < l < |nodes| ==> nodes[k].id != nodes[l].id
    ensures |nodes| == |tasks|
  {
    forall i | 0 <= i < |tasks|
      ensures Drawn(nodes, tasks[i], DepthOf(depth, tasks[i].id))
    {
      var k := NodeOf(tasks, depth, sz, nodes, i);
    }
    forall k, l | 0 <= k < l < |nodes|
      ensures nodes[k].id != nodes[l].id
    {
      SameIdSameCell(tasks, depth, sz, nodes[k], nodes[l]);
    }
    NodeCount(tasks, depth, sz, nodes);
  }

  lemma {:induction false} NodeOf(tasks: seq<PlanTask>, depth: map<Id, nat>, sz: Sizes, nodes: seq<LayoutNode>, i: nat)
    returns (k: nat)
    requires DistinctIds(tasks) && CompleteGrid(tasks, depth, sz, nodes) && i < |tasks|
    ensures k < |nodes| && nodes[k].id == tasks[i].id && nodes[k].title == tasks[i].title
    ensures nodes[k].col == DepthOf(depth, tasks[i].id)
  {
    var c := DepthOf(depth, tasks[i].id);
    var sorted := SortIds(ColumnIds(tasks, depth, c));
    ColumnMembers(tasks, depth, c);
    assert TaskIds(tasks)[i] == tasks[i].id;
    assert tasks[i].id in multiset(sorted);
    var row :| 0 <= row < |sorted| && sorted[row] == tasks[i].id;
    assert Filled(nodes, c, row);
    k :| 0 <= k < |nodes| && nodes[k].col == c && nodes[k].row == row;
    assert InCell(tasks, depth, sz, nodes[k]);
    TitleIs(tasks, i);
  }

  lemma {:induction false} SameIdSameCell(tasks: seq<PlanTask>, depth: map<Id, nat>, sz: Sizes, m: LayoutNode,
      n: LayoutNode)
    requires DistinctIds(tasks) && InCell(tasks, depth, sz, m) && InCell(tasks, depth, sz, n)
    ensures m.id == n.id ==> m.col == n.col && m.row == n.row
  {
    NodeOfCell(tasks, depth, sz, m);
    NodeOfCell(tasks, depth, sz, n);
    SortedColumnDistinct(tasks, depth, m.col);
  }

  function NodeIds(nodes: seq<LayoutNode>): seq<Id> {
    seq(|nodes|, k requires 0 <= k < |nodes| => nodes[k].id)
  }

  lemma {:induction false} NodeCount(tasks: seq<PlanTask>, depth: map<Id, nat>, sz: Sizes, nodes: seq<LayoutNode>)
    requires DistinctIds(tasks) && CompleteGrid(tasks, depth, sz, nodes)
    requires forall k, l :: 0 <= k < l < |nodes| ==> nodes[k].id != nodes[l].id
    ensures |nodes| == |tasks|
  {
    var a, b := NodeIds(nodes), TaskIds(tasks);
    forall x | x in a ensures x in b {
      var k :| 0 <= k < |a| && a[k] == x;
      NodeOfCell(tasks, depth, sz, nodes[k]);
    }
    Pigeonhole(a, b);
    forall x | x in b ensures x in a {
      var i :| 0 <= i < |b| && b[i] == x;
      var k := NodeOf(tasks, depth, sz, nodes, i);
      assert a[k] == x;
    }
    Pigeonhole(b, a);
  }

  /**
   * Within a column, the upper of two nodes has the smaller id: it is the beginning of the
   * other, or the smaller one where they first differ.
   */
  lemma {:induction false} RowsFollowIds(tasks: seq<PlanTask>, depth: map<Id, nat>, sz: Sizes, m: LayoutNode,
      n: LayoutNode)
    requires DistinctIds(tasks) && InCell(tasks, depth, sz, m) && InCell(tasks, depth, sz, n)
    requires m.col == n.col && m.row < n.row
    ensures m.id < n.id || exists k :: FirstDifference(m.id, n.id, k) && m.id[k] < n.id[k]
  {
    SortIdsSorted(ColumnIds(tasks, depth, m.col));
    SortedColumnDistinct(tasks, depth, m.col);
    LexOrder(m.id, n.id);
    assert m.id != n.id;
  }

  // ------------------------------------------------------------------
  // Geometry
  // ------------------------------------------------------------------

  ghost predicate PositiveSizes(sz: Sizes) {
    sz.nodeWidth > 0.0 && sz.nodeHeight > 0.0 && sz.colGap >= 0.0 && sz.rowGap >= 0.0
  }

  /** The two rectangles share an inner point. */
  ghost predicate Overlap(m: LayoutNode, n: LayoutNode, sz: Sizes) {
    && m.x < n.x + sz.nodeWidth && n.x < m.x + sz.nodeWidth
    && m.y < n.y + sz.nodeHeight && n.y < m.y + sz.nodeHeight
  }

  lemma {:induction false} Spaced(a: nat, b: nat, pitch: real)
    requires pitch > 0.0
    ensures Offset(a, pitch) >= 0.0
    ensures a < b ==> Offset(a, pitch) + pitch <= Offset(b, pitch)
  {
    assert a as real * pitch >= 0.0;
    if a < b {
      assert (b - a - 1) as real * pitch >= 0.0;
      assert b as real == a as real + 1.0 + (b - a - 1) as real;
    }
  }

  /** No two nodes overlap. */
  lemma {:induction false} NodesDisjoint(tasks: seq<PlanTask>, depth: map<Id, nat>, sz: Sizes, nodes: seq<LayoutNode>,
      k: nat, l: nat)
    requires CompleteGrid(tasks, depth, sz, nodes) && PositiveSizes(sz) && k < l < |nodes|
    ensures !Overlap(nodes[k], nodes[l], sz)
  {
    var m, n := nodes[k], nodes[l];
    assert InCell(tasks, depth, sz, m) && InCell(tasks, depth, sz, n);
    CellsApart(tasks, depth, sz, m, n);
  }

  lemma {:induction false} CellsApart(tasks: seq<PlanTask>, depth: map<Id, nat>, sz: Sizes, m: LayoutNode,
      n: LayoutNode)
    requires InCell(tasks, depth, sz, m) && InCell(tasks, depth, sz, n) && PositiveSizes(sz)
    requires m.col != n.col || m.row != n.row
    ensures !Overlap(m, n, sz)
  {
    Spaced(m.col, n.col, sz.nodeWidth + sz.colGap);
    Spaced(n.col, m.col, sz.nodeWidth + sz.colGap);
    Spaced(m.row, n.row, sz.nodeHeight + sz.rowGap);
    Spaced(n.row, m.row, sz.nodeHeight + sz.rowGap);
  }

  /** Neighbouring columns and rows are a gap apart, the first ones lie at the edge. */
  lemma {:induction false} GridSpacing(tasks: seq<PlanTask>, depth: map<Id, nat>, sz: Sizes, m: LayoutNode,
      n: LayoutNode)
    requires InCell(tasks, depth, sz, m) && InCell(tasks, depth, sz, n)
    ensures m.col == 0 ==> m.x == 0.0
    ensures m.row == 0 ==> m.y == 0.0
    ensures n.col == m.col + 1 ==> n.x == m.x + sz.nodeWidth + sz.colGap
    ensures n.row == m.row + 1 ==> n.y == m.y + sz.nodeHeight + sz.rowGap
  {
    CellCorner(tasks, depth, sz, m);
    CellCorner(tasks, depth, sz, n);
    PlaceSteps(m.col, n.col, m.x, n.x, sz.nodeWidth, sz.colGap);
    PlaceSteps(m.row, n.row, m.y, n.y, sz.nodeHeight, sz.rowGap);
  }

  /** Where the index-th of a row of equal sizes with equal gaps begins. */
  ghost predicate PlacedAt(index: nat, x: real, size: real, gap: real) {
    x == Offset(index, size + gap)
  }

  lemma {:induction false} CellCorner(tasks: seq<PlanTask>, depth: map<Id, nat>, sz: Sizes, n: LayoutNode)
    requires InCell(tasks, depth, sz, n)
    ensures PlacedAt(n.col, n.x, sz.nodeWidth, sz.colGap) && PlacedAt(n.row, n.y, sz.nodeHeight, sz.rowGap)
  {
  }

  lemma {:induction false} PlaceSteps(a: nat, b: nat, x: real, y: real, size: real, gap: real)
    requires PlacedAt(a, x, size, gap) && PlacedAt(b, y, size, gap)
    ensures a == 0 ==> x == 0.0
    ensures b == a + 1 ==> y == x + size + gap
  {
    OffsetSteps(a, b, size + gap);
  }

  lemma {:induction false} OffsetSteps(a: nat, b: nat, pitch: real)
    ensures a == 0 ==> Offset(a, pitch) == 0.0
    ensures b == a + 1 ==> Offset(b, pitch) == Offset(a, pitch) + pitch
  {
  }

  /** The box ends a gap after its last column and its lowest row. */
  lemma {:induction false} BoxEndsAfterLast(tasks: seq<PlanTask>, depth: map<Id, nat>, sz: Sizes,
      nodes: seq<LayoutNode>, width: real, height: real)
    returns (a: nat, b: nat)
    requires CompleteGrid(tasks, depth, sz, nodes) && TightBox(nodes, sz, width, height)
    ensures a < |nodes| && width == nodes[a].x + sz.nodeWidth + sz.colGap
    ensures b < |nodes| && height == nodes[b].y + sz.nodeHeight + sz.rowGap
    ensures forall k :: 0 <= k < |nodes| ==> nodes[k].col <= nodes[a].col && nodes[k].row <= nodes[b].row
  {
    var maxCol, maxRow := BoxLast(nodes, sz, width, height);
    a, b := LastOnes(nodes, maxCol, maxRow);
    CellCorner(tasks, depth, sz, nodes[a]);
    CellCorner(tasks, depth, sz, nodes[b]);
    EndsAfter(maxCol, nodes[a].x, width, sz.nodeWidth, sz.colGap);
    EndsAfter(maxRow, nodes[b].y, height, sz.nodeHeight, sz.rowGap);
  }

  lemma {:induction false} EndsAfter(last: nat, x: real, end: real, size: real, gap: real)
    requires PlacedAt(last, x, size, gap) && PlacedAt(last + 1, end, size, gap)
    ensures end == x + size + gap
  {
    PlaceSteps(last, last + 1, x, end, size, gap);
  }

  lemma {:induction false} BoxLast(nodes: seq<LayoutNode>, sz: Sizes, width: real, height: real)
    returns (maxCol: nat, maxRow: nat)
    requires TightBox(nodes, sz, width, height)
    ensures UsedUpTo(nodes, maxCol, maxRow)
    ensures PlacedAt(maxCol + 1, width, sz.nodeWidth, sz.colGap)
    ensures PlacedAt(maxRow + 1, height, sz.nodeHeight, sz.rowGap)
  {
    maxCol, maxRow :| UsedUpTo(nodes, maxCol, maxRow) && BoxFor(sz, maxCol, maxRow, width, height);
  }

  lemma {:induction false} LastOnes(nodes: seq<LayoutNode>, maxCol: nat, maxRow: nat) returns (a: nat, b: nat)
    requires UsedUpTo(nodes, maxCol, maxRow)
    ensures a < |nodes| && nodes[a].col == maxCol && b < |nodes| && nodes[b].row == maxRow
  {
    a :| a < |nodes| && nodes[a].col == maxCol;
    b :| b < |nodes| && nodes[b].row == maxRow;
  }

  /** Every node lies within the box. */
  lemma {:induction false} NodesInBox(tasks: seq<PlanTask>, depth: map<Id, nat>, sz: Sizes, nodes: seq<LayoutNode>,
      width: real, height: real, k: nat)
    requires CompleteGrid(tasks, depth, sz, nodes) && TightBox(nodes, sz, width, height) && PositiveSizes(sz)
        && k < |nodes|
    ensures 0.0 <= nodes[k].x && nodes[k].x + sz.nodeWidth <= width
    ensures 0.0 <= nodes[k].y && nodes[k].y + sz.nodeHeight <= height
  {
    var maxCol, maxRow :| UsedUpTo(nodes, maxCol, maxRow) && BoxFor(sz, maxCol, maxRow, width, height);
    assert InCell(tasks, depth, sz, nodes[k]);
    CellInBox(tasks, depth, sz, nodes[k], maxCol, maxRow, width, height);
  }

  lemma {:induction false} CellInBox(tasks: seq<PlanTask>, depth: map<Id, nat>, sz: Sizes, n: LayoutNode, maxCol: nat,
      maxRow: nat, width: real, height: real)
    requires InCell(tasks, depth, sz, n) && n.col <= maxCol && n.row <= maxRow
    requires BoxFor(sz, maxCol, maxRow, width, height) && PositiveSizes(sz)
    ensures 0.0 <= n.x && n.x + sz.nodeWidth <= width
    ensures 0.0 <= n.y && n.y + sz.nodeHeight <= height
  {
    WithinExtent(n.col, maxCol, sz.nodeWidth + sz.colGap, sz.nodeWidth);
    WithinExtent(n.row, maxRow, sz.nodeHeight + sz.rowGap, sz.nodeHeight);
  }

  lemma {:induction false} WithinExtent(index: nat, last: nat, pitch: real, size: real)
    requires 0.0 < size <= pitch && index <= last
    ensures 0.0 <= Offset(index, pitch) && Offset(index, pitch) + size <= Offset(last + 1, pitch)
  {
    Spaced(index, last + 1, pitch);
  }

  /** No column is empty up to the last one in use, even when the plan has cycles. */
  lemma {:induction false} ColumnsInhabited(tasks: seq<PlanTask>, order: seq<Id>, depth: map<Id, nat>, sz: Sizes,
      nodes: seq<LayoutNode>, k: nat, c: nat)
    requires DistinctIds(tasks) && DepthsOf(GraphOf(tasks), Elements(order), depth)
    requires CompleteGrid(tasks, depth, sz, nodes) && k < |nodes| && c <= nodes[k].col
    ensures exists l :: 0 <= l < |nodes| && nodes[l].col == c
  {
    GraphOfValid(tasks);
    NodeOfCell(tasks, depth, sz, nodes[k]);
    var u := DepthsWithoutGap(GraphOf(tasks), Elements(order), depth, nodes[k].id, c);
    assert u in TaskIds(tasks);
    var i := ScheduleTheorems.NodeIndex(tasks, u);
    var l := NodeOf(tasks, depth, sz, nodes, i);
  }

  /** An edge out of a reached task leads to a later column. */
  lemma {:induction false} EdgesPointRight(tasks: seq<PlanTask>, order: seq<Id>, depth: map<Id, nat>, sz: Sizes,
      nodes: seq<LayoutNode>, e: LayoutEdge, k: nat, l: nat)
    requires DistinctIds(tasks) && KahnOrder(GraphOf(tasks), order) && DepthsOf(GraphOf(tasks), Elements(order), depth)
    requires CompleteGrid(tasks, depth, sz, nodes) && DrawnEdge(tasks, e) && !OnOrBehindCycle(GraphOf(tasks), e.from)
    requires k < |nodes| && nodes[k].id == e.from && l < |nodes| && nodes[l].id == e.to
    ensures nodes[k].col < nodes[l].col
  {
    GraphOfValid(tasks);
    NodeOfCell(tasks, depth, sz, nodes[k]);
    NodeOfCell(tasks, depth, sz, nodes[l]);
    EdgeInGraph(tasks, e);
    EdgeDeepens(GraphOf(tasks), order, depth, e.from, e.to);
  }

  lemma {:induction false} EdgeInGraph(tasks: seq<PlanTask>, e: LayoutEdge)
    requires DistinctIds(tasks) && DrawnEdge(tasks, e)
    ensures e.to in GraphOf(tasks).deps && e.from in GraphOf(tasks).deps && e.from in GraphOf(tasks).deps[e.to]
  {
    GraphOfValid(tasks);
    var i :| 0 <= i < |tasks| && tasks[i].id == e.to && e.from in tasks[i].dependsOn.GetOr([]);
    DepsFromAt(TaskIds(tasks), tasks, i);
    assert e.from in GraphOf(tasks).nodes;
  }

  lemma {:induction false} EdgeDeepens(g: Graph, order: seq<Id>, depth: map<Id, nat>, d: Id, v: Id)
    requires Valid(g) && KahnOrder(g, order) && DepthsOf(g, Elements(order), depth)
    requires v in g.deps && d in g.deps && d in g.deps[v] && !OnOrBehindCycle(g, d)
    ensures DepthOf(depth, d) < DepthOf(depth, v)
  {
    OrderedIffNotBehindCycle(g, order, d);
    assert DeepEnough(g, Elements(order), depth, v);
  }

  // ------------------------------------------------------------------
  // The two views agree
  // ------------------------------------------------------------------

  lemma {:induction false} EarliestIsDepth(g: Graph, dur: map<Id, real>, order: seq<Id>, t: PlanGantt.Cpm,
      order': seq<Id>, depth: map<Id, nat>, v: Id)
    requires PlanGantt.ValidPlan(g, dur) && PlanGantt.CpmOf(g, dur, order, t)
    requires KahnOrder(g, order') && DepthsOf(g, Elements(order'), depth) && Elements(order) == Elements(order')
    requires forall u :: u in dur ==> dur[u] == 1.0
    requires v in order && v in g.deps
    ensures t.es[v] == DepthOf(depth, v) as real
    decreases IndexIn(order, v)
  {
    assert PlanGantt.StartsOnTime(g, dur, t.es, v);
    assert DeepEnough(g, Elements(order'), depth, v);
    if t.es[v] != 0.0 {
      var d :| d in g.deps[v] && t.es[d] + dur[d] == t.es[v];
      DepBefore(g, order, d, v);
      EarliestIsDepth(g, dur, order, t, order', depth, d);
    }
    if DepthOf(depth, v) != 0 {
      var d :| d in g.deps[v] && d in Elements(order') && DepthOf(depth, d) + 1 == DepthOf(depth, v);
      DepBefore(g, order, d, v);
      EarliestIsDepth(g, dur, order, t, order', depth, d);
    }
    DepthAndStart(g, dur, order, t.es, depth, v);
  }

  lemma {:induction false} DepthAndStart(g: Graph, dur: map<Id, real>, order: seq<Id>, es: map<Id, real>,
      depth: map<Id, nat>, v: Id)
    requires PlanGantt.ValidPlan(g, dur) && es.Keys == g.deps.Keys && v in g.deps
    requires PlanGantt.StartsOnTime(g, dur, es, v) && DeepEnough(g, Elements(order), depth, v)
    requires forall u :: u in dur ==> dur[u] == 1.0
    requires es[v] == 0.0 || exists d ::
        d in g.deps[v] && d in Elements(order) && es[d] + 1.0 == es[v] && es[d] == DepthOf(depth, d) as real
    requires DepthOf(depth, v) == 0 || exists d ::
        d in g.deps[v] && DepthOf(depth, d) + 1 == DepthOf(depth, v) && es[d] == DepthOf(depth, d) as real
    ensures es[v] == DepthOf(depth, v) as real
  {
    if es[v] != 0.0 {
      var d :| d in g.deps[v] && d in Elements(order) && es[d] + 1.0 == es[v] && es[d] == DepthOf(depth, d) as real;
      assert es[v] <= DepthOf(depth, v) as real;
    }
    if DepthOf(depth, v) != 0 {
      var d :| d in g.deps[v] && DepthOf(depth, d) + 1 == DepthOf(depth, v) && es[d] == DepthOf(depth, d) as real;
      assert es[d] + dur[d] <= es[v];
    }
  }

  lemma {:induction false} DepthIsEarliest(g: Graph, dur: map<Id, real>, order: seq<Id>, t: PlanGantt.Cpm,
      order': seq<Id>, depth: map<Id, nat>, v: Id)
    requires PlanGantt.ValidPlan(g, dur) && PlanGantt.CpmOf(g, dur, order, t)
    requires KahnOrder(g, order') && DepthsOf(g, Elements(order'), depth)
    requires forall u :: u in dur ==> dur[u] == 1.0
    requires v in order && v in g.deps
    ensures t.es[v] == DepthOf(depth, v) as real
  {
    OrdersAgree(g, order, order');
    assert Elements(order) == Elements(order');
    EarliestIsDepth(g, dur, order, t, order', depth, v);
  }

  lemma {:induction false} UnitDurations(tasks: seq<PlanTask>)
    requires DistinctIds(tasks) && forall k :: 0 <= k < |tasks| ==> tasks[k].hours == None
    ensures forall u :: u in PlanGantt.Durations(tasks) ==> PlanGantt.Durations(tasks)[u] == 1.0
  {
    forall u | u in PlanGantt.Durations(tasks)
      ensures PlanGantt.Durations(tasks)[u] == 1.0
    {
      var k :| 0 <= k < |tasks| && tasks[k].id == u;
      PlanGantt.DurationsAt(tasks, k);
    }
  }

  /** Without hours, the Gantt chart starts every reached task at the column the drawing gives it. */
  lemma {:induction false} ViewsAgree(tasks: seq<PlanTask>, out: seq<PlanGantt.ComputedTask>, order': seq<Id>,
      depth: map<Id, nat>, i: nat)
    requires DistinctIds(tasks) && PlanGantt.ScheduleOf(tasks, out)
    requires forall k :: 0 <= k < |tasks| ==> tasks[k].hours == None
    requires KahnOrder(GraphOf(tasks), order') && DepthsOf(GraphOf(tasks), Elements(order'), depth)
    requires i < |tasks| && ScheduleTheorems.Reached(tasks, i)
    ensures |out| == |tasks| && out[i].earliestStart == DepthOf(depth, tasks[i].id) as real
  {
    var order, t := ScheduleTheorems.PlanAndRow(tasks, out, i);
    UnitDurations(tasks);
    DepthIsEarliest(GraphOf(tasks), PlanGantt.Durations(tasks), order, t, order', depth, tasks[i].id);
  }
}
