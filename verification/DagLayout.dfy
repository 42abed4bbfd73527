/** The grid of the DAG drawing: columns by depth, rows by sorted id, and the box around it all. */
module DagLayout {
  import opened Prelude
  import opened PlanGraph
  import opened PlanDag
  import opened SortedIds

  datatype Sizes = Sizes(nodeWidth: real, nodeHeight: real, colGap: real, rowGap: real)
  datatype LayoutNode = LayoutNode(id: Id, title: string, x: real, y: real, col: nat, row: nat)
  datatype LayoutEdge = LayoutEdge(from: Id, to: Id)

  // ------------------------------------------------------------------
  // Grouping by column
  // ------------------------------------------------------------------

  /** The ids of the tasks at depth c, in task order. */
  ghost function ColumnIds(tasks: seq<PlanTask>, depth: map<Id, nat>, c: nat): seq<Id> {
    if tasks == [] then []
    else
      var n := |tasks| - 1;
      ColumnIds(tasks[..n], depth, c) + (if DepthOf(depth, tasks[n].id) == c then [tasks[n].id] else [])
  }

  lemma {:induction false} ColumnMembers(tasks: seq<PlanTask>, depth: map<Id, nat>, c: nat)
    requires DistinctIds(tasks)
    ensures forall v :: v in ColumnIds(tasks, depth, c) <==> v in TaskIds(tasks) && DepthOf(depth, v) == c
    ensures NoDuplicates(ColumnIds(tasks, depth, c))
  {
    if tasks != [] {
      var n := |tasks| - 1;
      ColumnMembers(tasks[..n], depth, c);
      assert TaskIds(tasks) == TaskIds(tasks[..n]) + [tasks[n].id];
      forall k | 0 <= k < |ColumnIds(tasks[..n], depth, c)|
        ensures ColumnIds(tasks[..n], depth, c)[k] != tasks[n].id
      {
        assert ColumnIds(tasks[..n], depth, c)[k] in TaskIds(tasks[..n]);
        var i :| 0 <= i < n && TaskIds(tasks[..n])[i] == ColumnIds(tasks[..n], depth, c)[k];
        assert tasks[i].id != tasks[n].id;
      }
    }
  }

  function Bucket(byCol: map<nat, seq<Id>>, c: nat): seq<Id> {
    if c in byCol then byCol[c] else []
  }

  /** The columns in the order in which the tasks first use them. */
  ghost function FirstUses(tasks: seq<PlanTask>, depth: map<Id, nat>): seq<nat> {
    if tasks == [] then []
    else
      var n := |tasks| - 1;
      var before := FirstUses(tasks[..n], depth);
      var c := DepthOf(depth, tasks[n].id);
      before + if c in before then [] else [c]
  }

  /** byCol holds the columns that have tasks, cols their numbers in order of first use. */
  ghost predicate Grouped(tasks: seq<PlanTask>, depth: map<Id, nat>, byCol: map<nat, seq<Id>>, cols: seq<nat>) {
    && NoDuplicates(cols) && cols == FirstUses(tasks, depth)
    && (forall c :: c in cols <==> c in byCol)
    && Filed(tasks, depth, byCol)
  }

  ghost predicate Filed(tasks: seq<PlanTask>, depth: map<Id, nat>, byCol: map<nat, seq<Id>>) {
    && (forall c :: Bucket(byCol, c) == ColumnIds(tasks, depth, c))
    && (forall c :: c in byCol ==> byCol[c] != [])
  }

  method GroupByColumn(tasks: seq<PlanTask>, depth: map<Id, nat>) returns (byCol: map<nat, seq<Id>>, cols: seq<nat>)
    ensures Grouped(tasks, depth, byCol, cols)
  {
    byCol, cols := map[], [];
    for i := 0 to |tasks|
      invariant Grouped(tasks[..i], depth, byCol, cols)
    {
      var c := DepthOf(depth, tasks[i].id);
      GroupOne(tasks, depth, byCol, cols, i);
      if c !in byCol {
        cols := cols + [c];
      }
      byCol := byCol[c := Bucket(byCol, c) + [tasks[i].id]];
    }
    assert tasks[..|tasks|] == tasks;
  }

  lemma {:induction false} GroupOne(tasks: seq<PlanTask>, depth: map<Id, nat>, byCol: map<nat, seq<Id>>,
      cols: seq<nat>, i: nat)
    requires i < |tasks| && Grouped(tasks[..i], depth, byCol, cols)
    ensures var c := DepthOf(depth, tasks[i].id);
      Grouped(tasks[..i + 1], depth, byCol[c := Bucket(byCol, c) + [tasks[i].id]],
              if c in byCol then cols else cols + [c])
  {
    FileOne(tasks, depth, byCol, i);
    UsesNext(tasks, depth, i);
    OnceMore(cols, DepthOf(depth, tasks[i].id));
  }

  lemma {:induction false} UsesNext(tasks: seq<PlanTask>, depth: map<Id, nat>, i: nat)
    requires i < |tasks|
    ensures var before := FirstUses(tasks[..i], depth);
      var c := DepthOf(depth, tasks[i].id);
      FirstUses(tasks[..i + 1], depth) == if c in before then before else before + [c]
  {
    assert tasks[..i + 1][..i] == tasks[..i] && tasks[..i + 1][i] == tasks[i];
  }

  lemma {:induction false} OnceMore(cols: seq<nat>, c: nat)
    ensures NoDuplicates(cols) && c !in cols ==> NoDuplicates(cols + [c])
  {
  }

  lemma {:induction false} FileOne(tasks: seq<PlanTask>, depth: map<Id, nat>, byCol: map<nat, seq<Id>>, i: nat)
    requires i < |tasks| && Filed(tasks[..i], depth, byCol)
    ensures var c := DepthOf(depth, tasks[i].id);
      Filed(tasks[..i + 1], depth, byCol[c := Bucket(byCol, c) + [tasks[i].id]])
  {
    var c := DepthOf(depth, tasks[i].id);
    var byCol' := byCol[c := Bucket(byCol, c) + [tasks[i].id]];
    assert tasks[..i + 1][..i] == tasks[..i] && tasks[..i + 1][i] == tasks[i];
    forall k: nat
      ensures Bucket(byCol', k) == ColumnIds(tasks[..i + 1], depth, k)
    {
      assert Bucket(byCol, k) == ColumnIds(tasks[..i], depth, k);
    }
  }

  // ------------------------------------------------------------------
  // Placing
  // ------------------------------------------------------------------

  /** Where the cell of that index begins, in steps of one node and one gap. */
  function Offset(index: nat, pitch: real): real {
    index as real * pitch
  }

  function PlaceNode(tasks: seq<PlanTask>, sz: Sizes, col: nat, row: nat, id: Id): LayoutNode {
    LayoutNode(id, TitleOf(tasks, id), Offset(col, sz.nodeWidth + sz.colGap), Offset(row, sz.nodeHeight + sz.rowGap),
      col, row)
  }

  /** titleById.get(id) ?? id */
  function TitleOf(tasks: seq<PlanTask>, id: Id): string {
    if tasks == [] then id
    else if tasks[|tasks| - 1].id == id then tasks[|tasks| - 1].title
    else TitleOf(tasks[..|tasks| - 1], id)
  }

  /** The cell of a node: its place in the sorted column decides its row. */
  ghost predicate InCell(tasks: seq<PlanTask>, depth: map<Id, nat>, sz: Sizes, n: LayoutNode) {
    var ids := SortIds(ColumnIds(tasks, depth, n.col));
    n.row < |ids| && n == PlaceNode(tasks, sz, n.col, n.row, ids[n.row])
  }

  /** All nodes are in their cells, no cell is used twice, and the first cols columns (and rows of
   *  the next) are full. */
  ghost predicate PlacedUpTo(tasks: seq<PlanTask>, depth: map<Id, nat>, sz: Sizes, cols: seq<nat>, j: nat, r: nat,
      nodes: seq<LayoutNode>)
    requires j <= |cols|
  {
    && (forall k :: 0 <= k < |nodes| ==> InCell(tasks, depth, sz, nodes[k]))
    && (forall k, l :: 0 <= k < l < |nodes| ==> nodes[k].col != nodes[l].col || nodes[k].row != nodes[l].row)
    && (forall k :: 0 <= k < |nodes| ==>
          nodes[k].col in cols[..j] || (j < |cols| && nodes[k].col == cols[j] && nodes[k].row < r))
    && FilledUpTo(tasks, depth, cols, j, r, nodes)
  }

  ghost predicate FilledUpTo(tasks: seq<PlanTask>, depth: map<Id, nat>, cols: seq<nat>, j: nat, r: nat,
      nodes: seq<LayoutNode>)
    requires j <= |cols|
  {
    && (forall c, row :: c in cols[..j] && 0 <= row < |ColumnIds(tasks, depth, c)| ==> Filled(nodes, c, row))
    && (j < |cols| ==> forall row :: 0 <= row < r ==> Filled(nodes, cols[j], row))
  }

  ghost predicate Filled(nodes: seq<LayoutNode>, c: nat, row: nat) {
    exists k :: 0 <= k < |nodes| && nodes[k].col == c && nodes[k].row == row
  }

  /** The first r nodes of a column, row by row. */
  ghost function CellsOf(tasks: seq<PlanTask>, depth: map<Id, nat>, sz: Sizes, c: nat, r: nat): seq<LayoutNode>
    requires r <= |ColumnIds(tasks, depth, c)|
  {
    if r == 0 then []
    else
      CellsOf(tasks, depth, sz, c, r - 1) + [PlaceNode(tasks, sz, c, r - 1, SortIds(ColumnIds(tasks, depth, c))[r - 1])]
  }

  /** The nodes of the given columns, one column after the other. */
  ghost function NodesOf(tasks: seq<PlanTask>, depth: map<Id, nat>, sz: Sizes, cols: seq<nat>): seq<LayoutNode> {
    if cols == [] then []
    else
      var n := |cols| - 1;
      NodesOf(tasks, depth, sz, cols[..n]) + CellsOf(tasks, depth, sz, cols[n], |ColumnIds(tasks, depth, cols[n])|)
  }

  method PlaceColumn(tasks: seq<PlanTask>, ghost depth: map<Id, nat>, sz: Sizes, col: nat, ids: seq<Id>)
    returns (nodes: seq<LayoutNode>)
    requires ids == SortIds(ColumnIds(tasks, depth, col))
    ensures nodes == CellsOf(tasks, depth, sz, col, |ids|)
  {
    nodes := [];
    for row := 0 to |ids|
      invariant nodes == CellsOf(tasks, depth, sz, col, row)
    {
      var node := PlaceNode(tasks, sz, col, row, ids[row]);
      CellsSnoc(tasks, depth, sz, col, row, ids, node);
      nodes := nodes + [node];
    }
  }

  lemma {:induction false} CellsSnoc(tasks: seq<PlanTask>, depth: map<Id, nat>, sz: Sizes, c: nat, r: nat,
      ids: seq<Id>, node: LayoutNode)
    requires ids == SortIds(ColumnIds(tasks, depth, c)) && r < |ids|
    requires node == PlaceNode(tasks, sz, c, r, ids[r])
    ensures CellsOf(tasks, depth, sz, c, r + 1) == CellsOf(tasks, depth, sz, c, r) + [node]
  {
  }

  /** The nodes of the first columns are in their cells and fill them. */
  lemma {:induction false} NodesPlaced(tasks: seq<PlanTask>, depth: map<Id, nat>, sz: Sizes, cols: seq<nat>, j: nat)
    requires j <= |cols| && NoDuplicates(cols)
    ensures PlacedUpTo(tasks, depth, sz, cols, j, 0, NodesOf(tasks, depth, sz, cols[..j]))
  {
    if j > 0 {
      assert cols[..j][..j - 1] == cols[..j - 1];
      NodesPlaced(tasks, depth, sz, cols, j - 1);
      var rows := |ColumnIds(tasks, depth, cols[j - 1])|;
      CellsPlaced(tasks, depth, sz, cols, j - 1, rows, NodesOf(tasks, depth, sz, cols[..j - 1]));
      ColumnFull(tasks, depth, sz, cols, j - 1, NodesOf(tasks, depth, sz, cols[..j]));
    }
  }

  lemma {:induction false} CellsPlaced(tasks: seq<PlanTask>, depth: map<Id, nat>, sz: Sizes, cols: seq<nat>, j: nat,
      r: nat, nodes: seq<LayoutNode>)
    requires j < |cols| && NoDuplicates(cols) && r <= |ColumnIds(tasks, depth, cols[j])|
    requires PlacedUpTo(tasks, depth, sz, cols, j, 0, nodes)
    ensures PlacedUpTo(tasks, depth, sz, cols, j, r, nodes + CellsOf(tasks, depth, sz, cols[j], r))
  {
    var c := cols[j];
    if r == 0 {
      assert nodes + [] == nodes;
    } else {
      var before := CellsOf(tasks, depth, sz, c, r - 1);
      var n := PlaceNode(tasks, sz, c, r - 1, SortIds(ColumnIds(tasks, depth, c))[r - 1]);
      CellsPlaced(tasks, depth, sz, cols, j, r - 1, nodes);
      PlaceOne(tasks, depth, sz, cols, j, r - 1, nodes + before, n);
      Associative(nodes, before, [n]);
    }
  }

  lemma {:induction false} FilledSnoc(nodes: seq<LayoutNode>, n: LayoutNode, c: nat, row: nat)
    ensures Filled(nodes + [n], c, row) <==> Filled(nodes, c, row) || (n.col == c && n.row == row)
  {
    var more := nodes + [n];
    if Filled(nodes, c, row) {
      var k :| 0 <= k < |nodes| && nodes[k].col == c && nodes[k].row == row;
      assert more[k] == nodes[k];
    }
    if n.col == c && n.row == row {
      assert more[|nodes|] == n;
    }
  }

  lemma {:induction false} PlaceOne(tasks: seq<PlanTask>, depth: map<Id, nat>, sz: Sizes, cols: seq<nat>, j: nat,
      row: nat, nodes: seq<LayoutNode>, n: LayoutNode)
    requires j < |cols| && NoDuplicates(cols)
    requires PlacedUpTo(tasks, depth, sz, cols, j, row, nodes)
    requires InCell(tasks, depth, sz, n) && n.col == cols[j] && n.row == row
    ensures PlacedUpTo(tasks, depth, sz, cols, j, row + 1, nodes + [n])
  {
    assert cols[j] !in cols[..j];
    CellUnused(tasks, depth, sz, cols, j, row, nodes, n);
    OneMoreFilled(tasks, depth, cols, j, row, nodes, n);
    var more := nodes + [n];
    forall k | 0 <= k < |more|
      ensures InCell(tasks, depth, sz, more[k])
      ensures more[k].col in cols[..j] || (more[k].col == cols[j] && more[k].row < row + 1)
      ensures forall l :: 0 <= l < k ==> more[l].col != more[k].col || more[l].row != more[k].row
    {
      assert k < |nodes| ==> more[k] == nodes[k];
    }
  }

  lemma {:induction false} OneMoreFilled(tasks: seq<PlanTask>, depth: map<Id, nat>, cols: seq<nat>, j: nat,
      row: nat, nodes: seq<LayoutNode>, n: LayoutNode)
    requires j < |cols| && FilledUpTo(tasks, depth, cols, j, row, nodes) && n.col == cols[j] && n.row == row
    ensures FilledUpTo(tasks, depth, cols, j, row + 1, nodes + [n])
  {
    forall c, r
      ensures Filled(nodes + [n], c, r) <==> Filled(nodes, c, r) || (n.col == c && n.row == r)
    {
      FilledSnoc(nodes, n, c, r);
    }
  }

  lemma {:induction false} CellUnused(tasks: seq<PlanTask>, depth: map<Id, nat>, sz: Sizes, cols: seq<nat>, j: nat,
      row: nat, nodes: seq<LayoutNode>, n: LayoutNode)
    requires j < |cols| && cols[j] !in cols[..j]
    requires PlacedUpTo(tasks, depth, sz, cols, j, row, nodes) && n.col == cols[j] && n.row == row
    ensures forall k :: 0 <= k < |nodes| ==> nodes[k].col != n.col || nodes[k].row != n.row
  {
  }

  lemma {:induction false} ColumnFull(tasks: seq<PlanTask>, depth: map<Id, nat>, sz: Sizes, cols: seq<nat>, j: nat,
      nodes: seq<LayoutNode>)
    requires j < |cols| && PlacedUpTo(tasks, depth, sz, cols, j, |ColumnIds(tasks, depth, cols[j])|, nodes)
    ensures PlacedUpTo(tasks, depth, sz, cols, j + 1, 0, nodes)
  {
    assert cols[..j + 1] == cols[..j] + [cols[j]];
  }

  /** A dependency drawn: from and to are tasks of the plan, and to names from. */
  ghost predicate DrawnEdge(tasks: seq<PlanTask>, e: LayoutEdge) {
    e.from in TaskIds(tasks) && Declared(tasks, e)
  }

  ghost function EdgesTo(from: seq<Id>, to: Id): seq<LayoutEdge> {
    if from == [] then [] else EdgesTo(from[..|from| - 1], to) + [LayoutEdge(from[|from| - 1], to)]
  }

  /** Task by task, an edge from each of its known dependencies, as often as it is declared. */
  ghost function EdgesOf(ids: seq<Id>, tasks: seq<PlanTask>): seq<LayoutEdge> {
    if tasks == [] then []
    else
      var n := |tasks| - 1;
      EdgesOf(ids, tasks[..n]) + EdgesTo(KnownDeps(ids, tasks[n].dependsOn.GetOr([])), tasks[n].id)
  }

  method DrawEdges(tasks: seq<PlanTask>) returns (edges: seq<LayoutEdge>)
    ensures edges == EdgesOf(TaskIds(tasks), tasks)
  {
    var ids := TaskIds(tasks);
    edges := [];
    for i := 0 to |tasks|
      invariant edges == EdgesOf(ids, tasks[..i])
    {
      var more := DrawEdgesTo(ids, tasks[i].dependsOn.GetOr([]), tasks[i].id);
      assert tasks[..i + 1][..i] == tasks[..i] && tasks[..i + 1][i] == tasks[i];
      edges := edges + more;
    }
    assert tasks[..|tasks|] == tasks;
  }

  method DrawEdgesTo(ids: seq<Id>, deps: seq<Id>, to: Id) returns (edges: seq<LayoutEdge>)
    ensures edges == EdgesTo(KnownDeps(ids, deps), to)
  {
    edges := [];
    for k := 0 to |deps|
      invariant edges == EdgesTo(KnownDeps(ids, deps[..k]), to)
    {
      KnownDepsSnoc(ids, deps[..k], deps[k]);
      assert deps[..k + 1] == deps[..k] + [deps[k]];
      if deps[k] in ids {
        EdgesToSnoc(KnownDeps(ids, deps[..k]), deps[k], to);
        edges := edges + [LayoutEdge(deps[k], to)];
      } else {
        assert KnownDeps(ids, deps[..k]) + [] == KnownDeps(ids, deps[..k]);
      }
    }
    assert deps[..|deps|] == deps;
  }

  lemma {:induction false} EdgesToSnoc(from: seq<Id>, d: Id, to: Id)
    ensures EdgesTo(from + [d], to) == EdgesTo(from, to) + [LayoutEdge(d, to)]
  {
    assert (from + [d])[..|from|] == from;
  }

  lemma {:induction false} EdgesToMembers(from: seq<Id>, to: Id, e: LayoutEdge)
    ensures e in EdgesTo(from, to) <==> e.to == to && e.from in from
  {
    if from != [] {
      EdgesToMembers(from[..|from| - 1], to, e);
      FrontLast(from);
    }
  }

  /** Some task of that id declares the dependency. */
  ghost predicate Declared(tasks: seq<PlanTask>, e: LayoutEdge) {
    exists i :: 0 <= i < |tasks| && tasks[i].id == e.to && e.from in tasks[i].dependsOn.GetOr([])
  }

  lemma {:induction false} DeclaredSnoc(tasks: seq<PlanTask>, e: LayoutEdge)
    requires tasks != []
    ensures var n := |tasks| - 1;
      Declared(tasks, e) <==> Declared(tasks[..n], e) || (tasks[n].id == e.to && e.from in tasks[n].dependsOn.GetOr([]))
  {
    var n := |tasks| - 1;
    if i :| 0 <= i < |tasks| && tasks[i].id == e.to && e.from in tasks[i].dependsOn.GetOr([]) {
      assert i < n ==> tasks[..n][i] == tasks[i];
    }
    if i :| 0 <= i < n && tasks[..n][i].id == e.to && e.from in tasks[..n][i].dependsOn.GetOr([]) {
      assert tasks[i] == tasks[..n][i];
    }
  }

  lemma {:induction false} EdgesMembers(ids: seq<Id>, tasks: seq<PlanTask>, e: LayoutEdge)
    ensures e in EdgesOf(ids, tasks) <==> e.from in ids && Declared(tasks, e)
  {
    if tasks != [] {
      var n := |tasks| - 1;
      EdgesMembers(ids, tasks[..n], e);
      EdgesToMembers(KnownDeps(ids, tasks[n].dependsOn.GetOr([])), tasks[n].id, e);
      DeclaredSnoc(tasks, e);
    }
  }

  datatype Layout = Layout(nodes: seq<LayoutNode>, edges: seq<LayoutEdge>, width: real, height: real)

  method BoundColumns(tasks: seq<PlanTask>, ghost depth: map<Id, nat>, byCol: map<nat, seq<Id>>, cols: seq<nat>)
    returns (maxCol: nat, maxRows: nat)
    requires Grouped(tasks, depth, byCol, cols) && cols != []
    ensures maxCol in cols && forall c :: c in cols ==> c <= maxCol && |byCol[c]| <= maxRows
    ensures exists c :: c in cols && |byCol[c]| == maxRows
  {
    maxCol, maxRows := 0, 0;
    ghost var widest := cols[0];
    for j := 0 to |cols|
      invariant j == 0 ==> maxCol == 0 && maxRows == 0
      invariant j > 0 ==> (maxCol in cols[..j] && widest in cols && |byCol[widest]| == maxRows)
      invariant forall c :: c in cols[..j] ==> c in byCol && c <= maxCol && |byCol[c]| <= maxRows
    {
      assert cols[..j + 1] == cols[..j] + [cols[j]];
      assert cols[j] in byCol;
      if cols[j] > maxCol { maxCol := cols[j]; }
      if |byCol[cols[j]]| > maxRows { maxRows := |byCol[cols[j]]|; widest := cols[j]; }
    }
    assert cols[..|cols|] == cols;
  }

  /** The node list is complete: every cell of every used column is filled once, and nothing else. */
  ghost predicate CompleteGrid(tasks: seq<PlanTask>, depth: map<Id, nat>, sz: Sizes, nodes: seq<LayoutNode>) {
    && (forall k :: 0 <= k < |nodes| ==> InCell(tasks, depth, sz, nodes[k]))
    && (forall k, l :: 0 <= k < l < |nodes| ==> nodes[k].col != nodes[l].col || nodes[k].row != nodes[l].row)
    && (forall c, row :: 0 <= row < |ColumnIds(tasks, depth, c)| ==> Filled(nodes, c, row))
  }

  /** The box is as wide as the last used column and as high as the fullest one ask for. */
  ghost predicate TightBox(nodes: seq<LayoutNode>, sz: Sizes, width: real, height: real) {
    exists maxCol, maxRow :: UsedUpTo(nodes, maxCol, maxRow) && BoxFor(sz, maxCol, maxRow, width, height)
  }

  /** maxCol and maxRow are the largest column and row in use. */
  ghost predicate UsedUpTo(nodes: seq<LayoutNode>, maxCol: nat, maxRow: nat) {
    && (forall k :: 0 <= k < |nodes| ==> nodes[k].col <= maxCol && nodes[k].row <= maxRow)
    && (exists a :: 0 <= a < |nodes| && nodes[a].col == maxCol)
    && (exists b :: 0 <= b < |nodes| && nodes[b].row == maxRow)
  }

  ghost predicate BoxFor(sz: Sizes, maxCol: nat, maxRow: nat, width: real, height: real) {
    && width == Offset(maxCol + 1, sz.nodeWidth + sz.colGap)
    && height == Offset(maxRow + 1, sz.nodeHeight + sz.rowGap)
  }

  method ComputeLayout(tasks: seq<PlanTask>, sz: Sizes)
    returns (layout: Layout, ghost depth: map<Id, nat>, ghost order: seq<Id>)
    requires DistinctIds(tasks)
    ensures KahnOrder(GraphOf(tasks), order) && DepthsOf(GraphOf(tasks), Elements(order), depth)
    ensures CompleteGrid(tasks, depth, sz, layout.nodes)
    ensures tasks == [] ==> layout == Layout([], [], 0.0, 0.0)
    ensures tasks != [] ==> TightBox(layout.nodes, sz, layout.width, layout.height)
    ensures layout.nodes == NodesOf(tasks, depth, sz, FirstUses(tasks, depth))
    ensures layout.edges == EdgesOf(TaskIds(tasks), tasks)
    ensures forall e :: e in layout.edges <==> DrawnEdge(tasks, e)
  {
    var depths, queueOrder := ComputeDepths(tasks);
    depth, order := depths, queueOrder;
    if |tasks| == 0 {
      layout := Layout([], [], 0.0, 0.0);
      EmptyGrid(tasks, depth, sz);
      return;
    }
    var byCol, cols := GroupByColumn(tasks, depths);
    var nodes := PlaceColumns(tasks, depths, sz, byCol, cols);
    NodesComplete(tasks, depth, sz, byCol, cols);
    SomeColumn(tasks, depth, byCol, cols);
    var maxCol, maxRows := BoundColumns(tasks, depth, byCol, cols);
    var edges := DrawEdges(tasks);
    GridUsed(tasks, depth, sz, byCol, cols, nodes, maxCol, maxRows);
    var width := Offset(maxCol + 1, sz.nodeWidth + sz.colGap);
    var height := Offset(maxRows, sz.nodeHeight + sz.rowGap);
    assert BoxFor(sz, maxCol, maxRows - 1, width, height);
    forall e ensures e in edges <==> DrawnEdge(tasks, e) {
      EdgesMembers(TaskIds(tasks), tasks, e);
    }
    layout := Layout(nodes, edges, width, height);
  }

  lemma {:induction false} EmptyGrid(tasks: seq<PlanTask>, depth: map<Id, nat>, sz: Sizes)
    requires tasks == []
    ensures CompleteGrid(tasks, depth, sz, [])
    ensures forall e :: !DrawnEdge(tasks, e)
  {
  }

  lemma {:induction false} SomeColumn(tasks: seq<PlanTask>, depth: map<Id, nat>, byCol: map<nat, seq<Id>>,
      cols: seq<nat>)
    requires tasks != [] && Grouped(tasks, depth, byCol, cols)
    ensures cols != []
  {
    var n := |tasks| - 1;
    var c := DepthOf(depth, tasks[n].id);
    assert |ColumnIds(tasks, depth, c)| > 0;
    assert Bucket(byCol, c) != [];
  }

  method PlaceColumns(tasks: seq<PlanTask>, ghost depth: map<Id, nat>, sz: Sizes, byCol: map<nat, seq<Id>>,
      cols: seq<nat>)
    returns (nodes: seq<LayoutNode>)
    requires Grouped(tasks, depth, byCol, cols)
    ensures nodes == NodesOf(tasks, depth, sz, cols)
  {
    nodes := [];
    for j := 0 to |cols|
      invariant nodes == NodesOf(tasks, depth, sz, cols[..j])
    {
      assert cols[j] in byCol;
      assert Bucket(byCol, cols[j]) == ColumnIds(tasks, depth, cols[j]);
      var column := PlaceColumn(tasks, depth, sz, cols[j], SortIds(byCol[cols[j]]));
      NodesSnoc(tasks, depth, sz, cols, j);
      nodes := nodes + column;
    }
    assert cols[..|cols|] == cols;
  }

  lemma {:induction false} NodesSnoc(tasks: seq<PlanTask>, depth: map<Id, nat>, sz: Sizes, cols: seq<nat>, j: nat)
    requires j < |cols|
    ensures NodesOf(tasks, depth, sz, cols[..j + 1])
         == NodesOf(tasks, depth, sz, cols[..j])
           + CellsOf(tasks, depth, sz, cols[j], |ColumnIds(tasks, depth, cols[j])|)
  {
    assert cols[..j + 1][..j] == cols[..j] && cols[..j + 1][j] == cols[j];
  }

  lemma {:induction false} NodesComplete(tasks: seq<PlanTask>, depth: map<Id, nat>, sz: Sizes,
      byCol: map<nat, seq<Id>>, cols: seq<nat>)
    requires Grouped(tasks, depth, byCol, cols)
    ensures CompleteGrid(tasks, depth, sz, NodesOf(tasks, depth, sz, cols))
  {
    NodesPlaced(tasks, depth, sz, cols, |cols|);
    assert cols[..|cols|] == cols;
    GridComplete(tasks, depth, sz, byCol, cols, NodesOf(tasks, depth, sz, cols));
  }

  lemma {:induction false} GridComplete(tasks: seq<PlanTask>, depth: map<Id, nat>, sz: Sizes,
      byCol: map<nat, seq<Id>>, cols: seq<nat>, nodes: seq<LayoutNode>)
    requires Grouped(tasks, depth, byCol, cols) && PlacedUpTo(tasks, depth, sz, cols, |cols|, 0, nodes)
    ensures CompleteGrid(tasks, depth, sz, nodes)
  {
    assert cols[..|cols|] == cols;
    forall c, row | 0 <= row < |ColumnIds(tasks, depth, c)|
      ensures Filled(nodes, c, row)
    {
      assert Bucket(byCol, c) == ColumnIds(tasks, depth, c);
    }
  }

  lemma {:induction false} GridUsed(tasks: seq<PlanTask>, depth: map<Id, nat>, sz: Sizes, byCol: map<nat, seq<Id>>,
      cols: seq<nat>, nodes: seq<LayoutNode>, maxCol: nat, maxRows: nat)
    requires Grouped(tasks, depth, byCol, cols) && CompleteGrid(tasks, depth, sz, nodes)
    requires maxCol in cols && forall c :: c in cols ==> c <= maxCol && |byCol[c]| <= maxRows
    requires exists c :: c in cols && |byCol[c]| == maxRows
    ensures maxRows > 0 && UsedUpTo(nodes, maxCol, maxRows - 1)
  {
    assert Bucket(byCol, maxCol) == ColumnIds(tasks, depth, maxCol);
    assert Filled(nodes, maxCol, 0);
    var c :| c in cols && |byCol[c]| == maxRows;
    assert Bucket(byCol, c) == ColumnIds(tasks, depth, c);
    assert Filled(nodes, c, maxRows - 1);
    forall k | 0 <= k < |nodes|
      ensures nodes[k].col <= maxCol && nodes[k].row <= maxRows - 1
    {
      NodeInColumn(tasks, depth, sz, byCol, cols, nodes[k]);
    }
  }

  lemma {:induction false} NodeInColumn(tasks: seq<PlanTask>, depth: map<Id, nat>, sz: Sizes,
      byCol: map<nat, seq<Id>>, cols: seq<nat>, n: LayoutNode)
    requires Grouped(tasks, depth, byCol, cols) && InCell(tasks, depth, sz, n)
    ensures n.col in cols && n.col in byCol && n.row < |byCol[n.col]|
  {
    assert Bucket(byCol, n.col) == ColumnIds(tasks, depth, n.col);
  }
}
