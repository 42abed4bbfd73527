/**
 * Whole editing sessions: what every sequence of removals, additions, clicks on
 * dependencies, new ids and text edits keeps, and that the schedule of the result orders every task.
 */
module EditorRuns {
  import opened Prelude
  import opened Text
  import opened AcceptanceCriteria
  import opened GraphChanges
  import opened PlanGraph
  import opened PlanSpecEdit

  /** The rows, and the key the next new row will get. */
  datatype Session = Session(drafts: seq<TaskDraft>, keyer: nat)

  /** The tasks the views would draw for these rows. */
  function PlanOf(drafts: seq<TaskDraft>): seq<PlanTask> {
    seq(|drafts|, i requires 0 <= i < |drafts| =>
      PlanTask(Trim(drafts[i].id), drafts[i].title, None, Some(drafts[i].dependsOn)))
  }

  ghost predicate DistinctRows(drafts: seq<TaskDraft>) {
    forall i, j :: 0 <= i < j < |drafts| ==> Trim(drafts[i].id) != Trim(drafts[j].id) && drafts[i].key != drafts[j].key
  }

  ghost predicate TrimmedIds(drafts: seq<TaskDraft>) {
    forall i :: 0 <= i < |drafts| ==> Trim(drafts[i].id) == drafts[i].id
  }

  /** Some row is saved under that id. */
  ghost predicate Names(drafts: seq<TaskDraft>, id: string) {
    exists k :: 0 <= k < |drafts| && Trim(drafts[k].id) == id
  }

  /** Every dependency names the id some row is saved under. */
  ghost predicate Closed(drafts: seq<TaskDraft>) {
    forall i, d :: 0 <= i < |drafts| && d in drafts[i].dependsOn ==> Names(drafts, d)
  }

  ghost predicate KeysBelow(drafts: seq<TaskDraft>, keyer: nat) {
    forall i :: 0 <= i < |drafts| ==> drafts[i].key < keyer
  }

  ghost predicate Good(s: Session) {
    && DistinctRows(s.drafts) && TrimmedIds(s.drafts) && Closed(s.drafts) && KeysBelow(s.drafts, s.keyer)
    && Acyclic(GraphOf(PlanOf(s.drafts)))
  }

  // ------------------------------------------------------------------
  // Removing a row
  // ------------------------------------------------------------------

  /** after holds the rows of before but row r, in order, each without the dependency on its id. */
  ghost predicate RemovedRow(before: seq<TaskDraft>, r: nat, after: seq<TaskDraft>) {
    && r < |before| && |after| == |before| - 1
    && (forall i :: 0 <= i < r ==> after[i] == Prune(before[i], before[r].id))
    && (forall i :: r < i < |before| ==> after[i - 1] == Prune(before[i], before[r].id))
  }

  lemma {:induction false} KeepOthersAll(drafts: seq<TaskDraft>, key: nat, id: string)
    requires forall i :: 0 <= i < |drafts| ==> drafts[i].key != key
    ensures |KeepOthers(drafts, key, id)| == |drafts|
    ensures forall i :: 0 <= i < |drafts| ==> KeepOthers(drafts, key, id)[i] == Prune(drafts[i], id)
  {
    if drafts != [] {
      KeepOthersAll(drafts[1..], key, id);
    }
  }

  lemma {:induction false} KeepOthersRemoves(drafts: seq<TaskDraft>, r: nat, key: nat, id: string)
    requires r < |drafts| && drafts[r].key == key && drafts[r].id == id
    requires forall i :: 0 <= i < |drafts| && i != r ==> drafts[i].key != key
    ensures RemovedRow(drafts, r, KeepOthers(drafts, key, id))
  {
    if r == 0 {
      KeepOthersAll(drafts[1..], key, id);
    } else {
      KeepOthersRemoves(drafts[1..], r - 1, key, id);
      var rest := KeepOthers(drafts[1..], key, id);
      var after := KeepOthers(drafts, key, id);
      assert after == [Prune(drafts[0], id)] + rest;
      forall i | 0 <= i < r ensures after[i] == Prune(drafts[i], id) {
        if i > 0 {
          assert rest[i - 1] == Prune(drafts[1..][i - 1], id);
        }
      }
      forall i | r < i < |drafts| ensures after[i - 1] == Prune(drafts[i], id) {
        assert rest[i - 2] == Prune(drafts[1..][i - 1], id);
      }
    }
  }

  /** removeTask either changes nothing, for a key no row has, or removes one row and every mention of its id. */
  lemma {:induction false} RemoveTaskRemoves(drafts: seq<TaskDraft>, key: nat)
    requires DistinctRows(drafts)
    ensures (forall i :: 0 <= i < |drafts| ==> drafts[i].key != key) ==> RemoveTask(drafts, key) == drafts
    ensures forall r :: 0 <= r < |drafts| && drafts[r].key == key ==> RemovedRow(drafts, r, RemoveTask(drafts, key))
  {
    forall r | 0 <= r < |drafts| && drafts[r].key == key
      ensures RemovedRow(drafts, r, RemoveTask(drafts, key))
    {
      var found := FindKey(drafts, key);
      assert drafts[r] in drafts;
      var f :| 0 <= f < |drafts| && drafts[f] == found.value;
      assert f == r;
      KeepOthersRemoves(drafts, r, key, drafts[r].id);
    }
  }

  /** The row of before that row i of after came from. */
  function Source(r: nat, i: nat): nat {
    if i < r then i else i + 1
  }

  lemma {:induction false} SourceOf(before: seq<TaskDraft>, r: nat, after: seq<TaskDraft>, i: nat)
    requires RemovedRow(before, r, after) && i < |after|
    ensures Source(r, i) < |before| && Source(r, i) != r && after[i] == Prune(before[Source(r, i)], before[r].id)
  {
    assert i >= r ==> after[(i + 1) - 1] == Prune(before[i + 1], before[r].id);
  }

  lemma {:induction false} NamesAfterRemoval(before: seq<TaskDraft>, r: nat, after: seq<TaskDraft>, id: string)
    requires DistinctRows(before) && RemovedRow(before, r, after)
    ensures Names(after, id) <==> Names(before, id) && id != Trim(before[r].id)
  {
    if Names(before, id) && id != Trim(before[r].id) {
      var k :| 0 <= k < |before| && Trim(before[k].id) == id;
      var i := if k < r then k else k - 1;
      SourceOf(before, r, after, i);
      assert Trim(after[i].id) == id;
    }
    if Names(after, id) {
      var i :| 0 <= i < |after| && Trim(after[i].id) == id;
      SourceOf(before, r, after, i);
      assert Trim(before[Source(r, i)].id) == id;
    }
  }

  /**
   * Removing a row of a closed list leaves it closed exactly when the row's id was
   * trimmed, or no other row depends on its trimmed form: pruning compares the id
   * as typed, saving trims it.
   */
  lemma {:induction false} RemovalClosedIff(before: seq<TaskDraft>, r: nat, after: seq<TaskDraft>)
    requires DistinctRows(before) && Closed(before) && RemovedRow(before, r, after)
    ensures Closed(after) <==>
      Trim(before[r].id) == before[r].id
      || forall i :: 0 <= i < |before| && i != r ==> Trim(before[r].id) !in before[i].dependsOn
  {
    var gone := Trim(before[r].id);
    forall i, d | 0 <= i < |after| && d in after[i].dependsOn
      ensures Names(after, d) <==> d != gone
    {
      SourceOf(before, r, after, i);
      NamesAfterRemoval(before, r, after, d);
      assert d in before[Source(r, i)].dependsOn;
    }
    forall i | 0 <= i < |after|
      ensures gone in after[i].dependsOn <==> gone in before[Source(r, i)].dependsOn && gone != before[r].id
    {
      SourceOf(before, r, after, i);
    }
    forall k | 0 <= k < |before| && k != r && gone in before[k].dependsOn && gone != before[r].id
      ensures !Closed(after)
    {
      var i := if k < r then k else k - 1;
      SourceOf(before, r, after, i);
      assert Source(r, i) == k;
      NamesAfterRemoval(before, r, after, gone);
      assert gone in after[i].dependsOn && !Names(after, gone);
    }
  }

  /** A row typed with a blank before its id: removing it leaves a dependency on nothing. */
  lemma {:induction false} UntrimmedIdDangles()
    ensures var a := TaskDraft(0, " a", "A", "", "", "", "", [], "", [], map[]);
      var b := TaskDraft(1, "b", "B", "", "", "", "", ["a"], "", [], map[]);
      DistinctRows([a, b]) && Closed([a, b]) && !Closed(RemoveTask([a, b], 0))
  {
    var a := TaskDraft(0, " a", "A", "", "", "", "", [], "", [], map[]);
    var b := TaskDraft(1, "b", "B", "", "", "", "", ["a"], "", [], map[]);
    var rows := [a, b];
    SpacedName();
    assert "a"[0] != "b"[0] && |" a"| != |"a"|;
    TwoRowsClosed(a, b);
    RemoveTaskRemoves(rows, 0);
    RemovalClosedIff(rows, 0, RemoveTask(rows, 0));
    assert "a" in rows[1].dependsOn;
  }

  lemma {:induction false} TwoRowsClosed(a: TaskDraft, b: TaskDraft)
    requires Trim(a.id) != Trim(b.id) && a.key != b.key && a.dependsOn == [] && b.dependsOn == [Trim(a.id)]
    ensures DistinctRows([a, b]) && Closed([a, b])
  {
    assert Trim([a, b][0].id) == Trim(a.id);
  }

  lemma {:induction false} SpacedName()
    ensures Trim(" a") == "a" && Trim("b") == "b"
  {
    assert TrimStart(" a") == "a" by {
      assert " a"[1..] == "a";
    }
    TrimFixed("a");
    TrimFixed("b");
  }

  // ------------------------------------------------------------------
  // Cycles
  // ------------------------------------------------------------------

  lemma {:induction false} PlanIds(drafts: seq<TaskDraft>, id: string)
    ensures id in TaskIds(PlanOf(drafts)) <==> Names(drafts, id)
  {
    var ids := TaskIds(PlanOf(drafts));
    if id in ids {
      var k :| 0 <= k < |ids| && ids[k] == id;
      assert Trim(drafts[k].id) == id;
    }
    if Names(drafts, id) {
      var k :| 0 <= k < |drafts| && Trim(drafts[k].id) == id;
      assert ids[k] == id;
    }
  }

  lemma {:induction false} PlanDistinct(drafts: seq<TaskDraft>)
    requires DistinctRows(drafts)
    ensures DistinctIds(PlanOf(drafts))
  {
  }

  /** The edges of the plan: a row, and a dependency of it that names a row. */
  lemma {:induction false} PlanEdge(drafts: seq<TaskDraft>, i: nat, d: string)
    requires DistinctRows(drafts) && i < |drafts|
    ensures var g := GraphOf(PlanOf(drafts)); var v := Trim(drafts[i].id);
      v in g.deps && (d in g.deps[v] <==> d in drafts[i].dependsOn && Names(drafts, d))
  {
    PlanDistinct(drafts);
    GraphOfValid(PlanOf(drafts));
    PlanIds(drafts, d);
    assert PlanOf(drafts)[i].id == Trim(drafts[i].id);
    DepsFromAt(TaskIds(PlanOf(drafts)), PlanOf(drafts), i);
  }

  lemma {:induction false} PlanRow(drafts: seq<TaskDraft>, v: string) returns (i: nat)
    requires DistinctRows(drafts) && v in GraphOf(PlanOf(drafts)).deps
    ensures i < |drafts| && Trim(drafts[i].id) == v
  {
    i :| 0 <= i < |PlanOf(drafts)| && PlanOf(drafts)[i].id == v;
  }

  lemma {:induction false} RemovalEdge(before: seq<TaskDraft>, r: nat, after: seq<TaskDraft>, d: Id, v: Id)
    requires DistinctRows(before) && DistinctRows(after) && RemovedRow(before, r, after)
    requires Edge(GraphOf(PlanOf(after)), d, v)
    ensures Edge(GraphOf(PlanOf(before)), d, v)
  {
    var i := PlanRow(after, v);
    PlanEdge(after, i, d);
    SourceOf(before, r, after, i);
    NamesAfterRemoval(before, r, after, d);
    EdgeOfRow(before, Source(r, i), d);
  }

  lemma {:induction false} EdgeOfRow(drafts: seq<TaskDraft>, i: nat, d: Id)
    requires DistinctRows(drafts) && i < |drafts| && d in drafts[i].dependsOn && Names(drafts, d)
    ensures Edge(GraphOf(PlanOf(drafts)), d, Trim(drafts[i].id))
  {
    PlanEdge(drafts, i, d);
    PlanNode(drafts, d);
  }

  lemma {:induction false} RemovalKeepsAcyclic(before: seq<TaskDraft>, r: nat, after: seq<TaskDraft>)
    requires DistinctRows(before) && DistinctRows(after) && RemovedRow(before, r, after)
    requires Acyclic(GraphOf(PlanOf(before)))
    ensures Acyclic(GraphOf(PlanOf(after)))
  {
    forall v, d | Edge(GraphOf(PlanOf(after)), d, v)
      ensures Edge(GraphOf(PlanOf(before)), d, v)
    {
      RemovalEdge(before, r, after, d, v);
    }
    FewerEdges(GraphOf(PlanOf(before)), GraphOf(PlanOf(after)));
  }

  lemma {:induction false} PlanNode(drafts: seq<TaskDraft>, id: string)
    requires DistinctRows(drafts)
    ensures id in GraphOf(PlanOf(drafts)).deps <==> Names(drafts, id)
  {
    PlanDistinct(drafts);
    GraphOfValid(PlanOf(drafts));
    PlanIds(drafts, id);
  }

  lemma {:induction false} RemovalStaysDistinct(before: seq<TaskDraft>, r: nat, after: seq<TaskDraft>)
    requires DistinctRows(before) && RemovedRow(before, r, after)
    ensures DistinctRows(after)
  {
    forall i, j | 0 <= i < j < |after|
      ensures Trim(after[i].id) != Trim(after[j].id) && after[i].key != after[j].key
    {
      SourceOf(before, r, after, i);
      SourceOf(before, r, after, j);
    }
  }

  lemma {:induction false} RemovalStaysGood(s: Session, key: nat)
    requires Good(s)
    ensures Good(Session(RemoveTask(s.drafts, key), s.keyer))
  {
    RemoveTaskRemoves(s.drafts, key);
    if r: nat :| r < |s.drafts| && s.drafts[r].key == key {
      var after := RemoveTask(s.drafts, key);
      RemovalStaysDistinct(s.drafts, r, after);
      RemovalClosedIff(s.drafts, r, after);
      RemovalKeepsAcyclic(s.drafts, r, after);
      forall i | 0 <= i < |after|
        ensures Trim(after[i].id) == after[i].id && after[i].key < s.keyer
      {
        SourceOf(s.drafts, r, after, i);
      }
    } else {
      assert RemoveTask(s.drafts, key) == s.drafts;
    }
  }

  // ------------------------------------------------------------------
  // Adding a row
  // ------------------------------------------------------------------

  function NewRow(keyer: nat, id: string): TaskDraft {
    TaskDraft(keyer, id, "", "", "", "", "", [], "", [], map[])
  }

  lemma {:induction false} DecimalNotBlank(n: nat)
    ensures forall i :: 0 <= i < |Decimal(n)| ==> !Blank(Decimal(n)[i])
  {
    DigitNotBlank(n % 10);
    if n >= 10 {
      DecimalNotBlank(n / 10);
    } else {
      assert n % 10 == n;
    }
  }

  lemma {:induction false} DigitNotBlank(d: nat)
    requires d < 10
    ensures !Blank(Digit(d))
  {
    assert '0' <= Digit(d) <= '9';
  }

  lemma {:induction false} TaskNameTrimmed(n: nat)
    ensures Trim(TaskName(n)) == TaskName(n)
  {
    DecimalNotBlank(n);
    var name := TaskName(n);
    assert name[|name| - 1] == Decimal(n)[|Decimal(n)| - 1];
    TrimFixed(name);
  }

  lemma {:induction false} NewNameFresh(drafts: seq<TaskDraft>, id: string)
    requires TrimmedIds(drafts) && NextTaskIdOf(drafts, id)
    ensures Trim(id) == id && !Names(drafts, id)
  {
    var n: nat :| n > |drafts| && id == TaskName(n) && forall m :: |drafts| < m < n ==> TaskName(m) in RowIds(drafts);
    TaskNameTrimmed(n);
    forall k | 0 <= k < |drafts|
      ensures Trim(drafts[k].id) != id
    {
      assert RowIds(drafts)[k] == drafts[k].id;
    }
  }

  lemma {:induction false} NamesAfterAdding(drafts: seq<TaskDraft>, row: TaskDraft, id: string)
    ensures Names(drafts + [row], id) <==> Names(drafts, id) || id == Trim(row.id)
  {
    var after := drafts + [row];
    if Names(drafts, id) {
      var k :| 0 <= k < |drafts| && Trim(drafts[k].id) == id;
      assert after[k] == drafts[k];
    }
    assert after[|drafts|] == row;
    if Names(after, id) {
      var k :| 0 <= k < |after| && Trim(after[k].id) == id;
      assert k < |drafts| ==> drafts[k] == after[k];
    }
  }

  lemma {:induction false} AddingStaysClosed(drafts: seq<TaskDraft>, row: TaskDraft)
    requires Closed(drafts) && row.dependsOn == []
    ensures Closed(drafts + [row])
  {
    var after := drafts + [row];
    forall i, d | 0 <= i < |after| && d in after[i].dependsOn
      ensures Names(after, d)
    {
      assert i < |drafts| && after[i] == drafts[i];
      NamesAfterAdding(drafts, row, d);
    }
  }

  lemma {:induction false} AddingEdge(drafts: seq<TaskDraft>, row: TaskDraft, d: Id, v: Id)
    requires DistinctRows(drafts) && DistinctRows(drafts + [row]) && Closed(drafts) && row.dependsOn == []
    requires Edge(GraphOf(PlanOf(drafts + [row])), d, v)
    ensures Edge(GraphOf(PlanOf(drafts)), d, v)
  {
    var after := drafts + [row];
    var i := PlanRow(after, v);
    PlanEdge(after, i, d);
    assert i < |drafts| && after[i] == drafts[i];
    EdgeOfRow(drafts, i, d);
  }

  lemma {:induction false} AddingKeepsAcyclic(drafts: seq<TaskDraft>, row: TaskDraft)
    requires DistinctRows(drafts) && DistinctRows(drafts + [row]) && Closed(drafts) && row.dependsOn == []
    requires Acyclic(GraphOf(PlanOf(drafts)))
    ensures Acyclic(GraphOf(PlanOf(drafts + [row])))
  {
    forall v, d | Edge(GraphOf(PlanOf(drafts + [row])), d, v)
      ensures Edge(GraphOf(PlanOf(drafts)), d, v)
    {
      AddingEdge(drafts, row, d, v);
    }
    FewerEdges(GraphOf(PlanOf(drafts)), GraphOf(PlanOf(drafts + [row])));
  }

  lemma {:induction false} AddingStaysGood(s: Session, id: string)
    requires Good(s) && NextTaskIdOf(s.drafts, id)
    ensures Good(Session(s.drafts + [NewRow(s.keyer, id)], s.keyer + 1))
  {
    var row := NewRow(s.keyer, id);
    NewNameFresh(s.drafts, id);
    forall i | 0 <= i < |s.drafts|
      ensures Trim(s.drafts[i].id) != id
    {
    }
    AddingStaysClosed(s.drafts, row);
    assert DistinctRows(s.drafts + [row]);
    AddingKeepsAcyclic(s.drafts, row);
  }

  // ------------------------------------------------------------------
  // Editing the texts of a row
  // ------------------------------------------------------------------

  /** Same rows in the same order, with any change that leaves keys, ids and dependencies alone. */
  ghost predicate Retouched(before: seq<TaskDraft>, after: seq<TaskDraft>) {
    && |after| == |before|
    && forall i :: 0 <= i < |before| ==>
      after[i].key == before[i].key && after[i].id == before[i].id && after[i].dependsOn == before[i].dependsOn
  }

  lemma {:induction false} RetouchedEdge(before: seq<TaskDraft>, after: seq<TaskDraft>, d: Id, v: Id)
    requires DistinctRows(before) && DistinctRows(after) && Retouched(before, after)
    requires Edge(GraphOf(PlanOf(after)), d, v)
    ensures Edge(GraphOf(PlanOf(before)), d, v)
  {
    var i := PlanRow(after, v);
    PlanEdge(after, i, d);
    RetouchedNames(before, after, d);
    EdgeOfRow(before, i, d);
  }

  lemma {:induction false} RetouchedKeepsAcyclic(before: seq<TaskDraft>, after: seq<TaskDraft>)
    requires DistinctRows(before) && DistinctRows(after) && Retouched(before, after)
    requires Acyclic(GraphOf(PlanOf(before)))
    ensures Acyclic(GraphOf(PlanOf(after)))
  {
    forall v, d | Edge(GraphOf(PlanOf(after)), d, v)
      ensures Edge(GraphOf(PlanOf(before)), d, v)
    {
      RetouchedEdge(before, after, d, v);
    }
    FewerEdges(GraphOf(PlanOf(before)), GraphOf(PlanOf(after)));
  }

  lemma {:induction false} RetouchedStaysGood(s: Session, after: seq<TaskDraft>)
    requires Good(s) && Retouched(s.drafts, after)
    ensures Good(Session(after, s.keyer))
  {
    assert DistinctRows(after);
    RetouchedKeepsAcyclic(s.drafts, after);
    forall i, d | 0 <= i < |after| && d in after[i].dependsOn
      ensures Names(after, d)
    {
      RetouchedNames(s.drafts, after, d);
    }
  }

  lemma {:induction false} RetouchedNames(before: seq<TaskDraft>, after: seq<TaskDraft>, id: string)
    requires Retouched(before, after)
    ensures Names(after, id) <==> Names(before, id)
  {
    if Names(before, id) {
      var k :| 0 <= k < |before| && Trim(before[k].id) == id;
      assert Trim(after[k].id) == id;
    }
    if Names(after, id) {
      var k :| 0 <= k < |after| && Trim(after[k].id) == id;
      assert Trim(before[k].id) == id;
    }
  }

  // ------------------------------------------------------------------
  // Toggling a dependency
  // ------------------------------------------------------------------

  /** What a click on the button of another row does to a row's dependencies. */
  function Toggled(dependsOn: seq<string>, id: string): seq<string> {
    if id in dependsOn then Without(dependsOn, id) else dependsOn + [id]
  }

  /** A new dependency comes last, and a second click takes back the first. */
  lemma {:induction false} ToggledTwice(dependsOn: seq<string>, id: string)
    ensures id !in dependsOn ==> Toggled(dependsOn, id) == dependsOn + [id]
    ensures id !in dependsOn ==> Toggled(Toggled(dependsOn, id), id) == dependsOn
  {
    WithoutParts(dependsOn, id, []);
    assert dependsOn + [id] + [] == dependsOn + [id];
  }

  function ToggleDependency(drafts: seq<TaskDraft>, i: nat, id: string): seq<TaskDraft>
    requires i < |drafts|
  {
    drafts[i := drafts[i].(dependsOn := Toggled(drafts[i].dependsOn, id))]
  }

  lemma {:induction false} ToggleNames(drafts: seq<TaskDraft>, i: nat, id: string, d: string)
    requires i < |drafts|
    ensures Names(ToggleDependency(drafts, i, id), d) <==> Names(drafts, d)
  {
    var after := ToggleDependency(drafts, i, id);
    assert forall k :: 0 <= k < |drafts| ==> after[k].id == drafts[k].id;
  }

  /** The edges after a click: those before, except that the clicked one is added or gone. */
  lemma {:induction false} ToggleEdge(drafts: seq<TaskDraft>, i: nat, id: string, d: Id, v: Id)
    requires DistinctRows(drafts) && i < |drafts| && Names(drafts, id)
    requires DistinctRows(ToggleDependency(drafts, i, id))
    ensures Edge(GraphOf(PlanOf(ToggleDependency(drafts, i, id))), d, v) <==>
      if d == id && v == Trim(drafts[i].id) then id !in drafts[i].dependsOn else Edge(GraphOf(PlanOf(drafts)), d, v)
  {
    var after := ToggleDependency(drafts, i, id);
    PlanNode(drafts, v);
    PlanNode(after, v);
    ToggleNames(drafts, i, id, v);
    ToggleNames(drafts, i, id, d);
    PlanNode(drafts, d);
    PlanNode(after, d);
    if Names(drafts, v) {
      var k := PlanRow(drafts, v);
      PlanEdge(drafts, k, d);
      PlanEdge(after, k, d);
      assert Trim(after[k].id) == v;
    }
  }

  lemma {:induction false} ToggleKeepsRows(drafts: seq<TaskDraft>, i: nat, id: string)
    requires DistinctRows(drafts) && i < |drafts|
    ensures DistinctRows(ToggleDependency(drafts, i, id))
  {
    var after := ToggleDependency(drafts, i, id);
    assert forall k :: 0 <= k < |drafts| ==> after[k].id == drafts[k].id && after[k].key == drafts[k].key;
  }

  /**
   * A click on another row's button keeps the plan free of cycles exactly when no chain leads
   * from the clicked row's task to that other task; the editor lets every click through.
   */
  lemma {:induction false} ToggleAcyclicIff(drafts: seq<TaskDraft>, i: nat, id: string)
    requires DistinctRows(drafts) && i < |drafts| && Names(drafts, id) && id != Trim(drafts[i].id)
    requires Acyclic(GraphOf(PlanOf(drafts)))
    ensures Acyclic(GraphOf(PlanOf(ToggleDependency(drafts, i, id))))
      <==> !Leads(GraphOf(PlanOf(drafts)), Trim(drafts[i].id), id)
  {
    var v := Trim(drafts[i].id);
    var g, g' := GraphOf(PlanOf(drafts)), GraphOf(PlanOf(ToggleDependency(drafts, i, id)));
    ToggleKeepsRows(drafts, i, id);
    forall d, w
      ensures Edge(g', d, w) <==> if d == id && w == v then id !in drafts[i].dependsOn else Edge(g, d, w)
    {
      ToggleEdge(drafts, i, id, d, w);
    }
    PlanNode(drafts, id);
    PlanNode(drafts, v);
    assert Names(drafts, v);
    if id in drafts[i].dependsOn {
      FewerEdges(g, g');
      EdgeOfRow(drafts, i, id);
      NoChainBack(g, id, v);
    } else {
      PlanEdge(drafts, i, id);
      OneMoreAcyclicIff(g, g', id, v);
    }
  }

  lemma {:induction false} ToggleStaysGood(s: Session, i: nat, id: string)
    requires Good(s) && i < |s.drafts| && Names(s.drafts, id) && id != s.drafts[i].id
    requires !Leads(GraphOf(PlanOf(s.drafts)), s.drafts[i].id, id)
    ensures Good(Session(ToggleDependency(s.drafts, i, id), s.keyer))
  {
    var after := ToggleDependency(s.drafts, i, id);
    ToggleKeepsRows(s.drafts, i, id);
    ToggleAcyclicIff(s.drafts, i, id);
    forall k, d | 0 <= k < |after| && d in after[k].dependsOn
      ensures Names(after, d)
    {
      ToggleNames(s.drafts, i, id, d);
      assert d == id || d in s.drafts[k].dependsOn;
    }
  }

  // ------------------------------------------------------------------
  // Typing another id
  // ------------------------------------------------------------------

  /** The id field is written to the row alone; the dependencies of the other rows stay as they are. */
  function Rename(drafts: seq<TaskDraft>, i: nat, id: string): seq<TaskDraft>
    requires i < |drafts|
  {
    drafts[i := drafts[i].(id := id)]
  }

  lemma {:induction false} RenameNames(drafts: seq<TaskDraft>, i: nat, id: string, d: string)
    requires i < |drafts| && DistinctRows(drafts)
    ensures Names(Rename(drafts, i, id), d) <==> d == Trim(id) || (Names(drafts, d) && d != Trim(drafts[i].id))
  {
    var after := Rename(drafts, i, id);
    assert after[i].id == id;
    if Names(after, d) {
      var k :| 0 <= k < |after| && Trim(after[k].id) == d;
      assert k != i ==> after[k] == drafts[k];
    }
    if Names(drafts, d) && d != Trim(drafts[i].id) {
      var k :| 0 <= k < |drafts| && Trim(drafts[k].id) == d;
      assert after[k] == drafts[k];
    }
  }

  /** A row may take another id without leaving a dependency on nothing exactly when no row depends on its old one. */
  lemma {:induction false} RenameClosedIff(drafts: seq<TaskDraft>, i: nat, id: string)
    requires DistinctRows(drafts) && Closed(drafts) && i < |drafts|
    ensures Closed(Rename(drafts, i, id)) <==>
      Trim(id) == Trim(drafts[i].id) || forall k :: 0 <= k < |drafts| ==> Trim(drafts[i].id) !in drafts[k].dependsOn
  {
    var after, former := Rename(drafts, i, id), Trim(drafts[i].id);
    forall k, d | 0 <= k < |after| && d in after[k].dependsOn
      ensures Names(after, d) <==> d == Trim(id) || d != former
    {
      assert d in drafts[k].dependsOn;
      RenameNames(drafts, i, id, d);
    }
    if Trim(id) == former {
      assert Closed(after);
    } else if k :| 0 <= k < |drafts| && former in drafts[k].dependsOn {
      assert former in after[k].dependsOn;
      assert !Names(after, former);
    } else {
      assert forall k :: 0 <= k < |after| ==> after[k].dependsOn == drafts[k].dependsOn;
    }
  }

  lemma {:induction false} RenameEdge(drafts: seq<TaskDraft>, i: nat, id: string, d: Id, w: Id)
    requires i < |drafts| && DistinctRows(drafts) && DistinctRows(Rename(drafts, i, id)) && Closed(drafts)
    requires !Names(drafts, Trim(id)) && Edge(GraphOf(PlanOf(Rename(drafts, i, id))), d, w)
    ensures d != Trim(id) && (w == Trim(id) || Edge(GraphOf(PlanOf(drafts)), d, w))
  {
    var after := Rename(drafts, i, id);
    var k := PlanRow(after, w);
    PlanEdge(after, k, d);
    assert after[k].dependsOn == drafts[k].dependsOn;
    EdgeOfRow(drafts, k, d);
  }

  lemma {:induction false} RenameKeepsRows(drafts: seq<TaskDraft>, i: nat, id: string)
    requires DistinctRows(drafts) && i < |drafts| && !Names(drafts, Trim(id))
    ensures DistinctRows(Rename(drafts, i, id))
  {
    var after := Rename(drafts, i, id);
    forall k, l | 0 <= k < l < |after|
      ensures Trim(after[k].id) != Trim(after[l].id) && after[k].key != after[l].key
    {
      assert Trim(drafts[k].id) != Trim(drafts[l].id) && drafts[k].key != drafts[l].key;
      assert Trim(drafts[k].id) != Trim(id) && Trim(drafts[l].id) != Trim(id);
    }
  }

  lemma {:induction false} RenameStaysGood(s: Session, i: nat, id: string)
    requires Good(s) && i < |s.drafts| && Trim(id) == id && !Names(s.drafts, id)
    requires forall k :: 0 <= k < |s.drafts| ==> s.drafts[i].id !in s.drafts[k].dependsOn
    ensures Good(Session(Rename(s.drafts, i, id), s.keyer))
  {
    var after := Rename(s.drafts, i, id);
    RenameKeepsRows(s.drafts, i, id);
    RenameClosedIff(s.drafts, i, id);
    forall d, w | Edge(GraphOf(PlanOf(after)), d, w)
      ensures d != id && (w == id || Edge(GraphOf(PlanOf(s.drafts)), d, w))
    {
      RenameEdge(s.drafts, i, id, d, w);
    }
    CyclesElsewhere(GraphOf(PlanOf(s.drafts)), GraphOf(PlanOf(after)), id);
  }

  // ------------------------------------------------------------------
  // Sessions
  // ------------------------------------------------------------------

  /**
   * A toggle belongs to a session only if it closes no cycle, another id only if it is trimmed
   * and free and nothing depends on the old one (ToggleAcyclicIff, RenameClosedIff).
   */
  datatype Step = Remove(key: nat) | Add | Retouch | Toggle(row: nat, id: string) | Retype(row: nat, id: string)

  ghost predicate Stepped(s: Session, step: Step, s': Session) {
    match step
    case Remove(key) => s' == Session(RemoveTask(s.drafts, key), s.keyer)
    case Add => exists id :: NextTaskIdOf(s.drafts, id) && s' == Session(s.drafts + [NewRow(s.keyer, id)], s.keyer + 1)
    case Retouch => Retouched(s.drafts, s'.drafts) && s'.keyer == s.keyer
    case Toggle(row, id) =>
      && row < |s.drafts| && Names(s.drafts, id) && id != s.drafts[row].id
      && !Leads(GraphOf(PlanOf(s.drafts)), s.drafts[row].id, id)
      && s' == Session(ToggleDependency(s.drafts, row, id), s.keyer)
    case Retype(row, id) =>
      && row < |s.drafts| && Trim(id) == id && !Names(s.drafts, id)
      && (forall k :: 0 <= k < |s.drafts| ==> s.drafts[row].id !in s.drafts[k].dependsOn)
      && s' == Session(Rename(s.drafts, row, id), s.keyer)
  }

  ghost predicate Run(states: seq<Session>, steps: seq<Step>) {
    && |states| == |steps| + 1
    && forall i {:trigger SteppedAt(states, steps, i)} :: 0 <= i < |steps| ==> SteppedAt(states, steps, i)
  }

  ghost predicate SteppedAt(states: seq<Session>, steps: seq<Step>, i: nat)
    requires i < |steps| && |states| == |steps| + 1
  {
    Stepped(states[i], steps[i], states[i + 1])
  }

  lemma {:induction false} StepStaysGood(s: Session, step: Step, s': Session)
    requires Good(s) && Stepped(s, step, s')
    ensures Good(s')
  {
    match step
    case Remove(key) => RemovalStaysGood(s, key);
    case Add =>
      var id :| NextTaskIdOf(s.drafts, id) && s' == Session(s.drafts + [NewRow(s.keyer, id)], s.keyer + 1);
      AddingStaysGood(s, id);
    case Retouch => RetouchedStaysGood(s, s'.drafts);
    case Toggle(row, id) => ToggleStaysGood(s, row, id);
    case Retype(row, id) => RenameStaysGood(s, row, id);
  }

  lemma {:induction false} StepInRun(states: seq<Session>, steps: seq<Step>, i: nat)
    requires Run(states, steps) && i < |steps| && Good(states[i])
    ensures Good(states[i + 1])
  {
    assert SteppedAt(states, steps, i);
    StepStaysGood(states[i], steps[i], states[i + 1]);
  }

  /** Every state of every session that starts good is good. */
  lemma {:induction false} RunStaysGood(states: seq<Session>, steps: seq<Step>, i: nat)
    requires Run(states, steps) && Good(states[0]) && i < |states|
    ensures Good(states[i])
  {
    if i > 0 {
      RunStaysGood(states, steps, i - 1);
      StepInRun(states, steps, i - 1);
    }
  }

  // ------------------------------------------------------------------
  // Opening and scheduling
  // ------------------------------------------------------------------

  /** The tasks the views would draw for a specification. */
  function PlanOfSpec(tasks: seq<TaskSpec>): seq<PlanTask> {
    seq(|tasks|, i requires 0 <= i < |tasks| =>
      PlanTask(tasks[i].id, tasks[i].title, tasks[i].hours, tasks[i].dependsOn))
  }

  ghost predicate TaskNamed(tasks: seq<TaskSpec>, id: string) {
    exists k :: 0 <= k < |tasks| && tasks[k].id == id
  }

  /** A specification a server accepts: ids trimmed and distinct, dependencies known, no cycle. */
  ghost predicate WellFormed(tasks: seq<TaskSpec>) {
    && (forall i :: 0 <= i < |tasks| ==> Trim(tasks[i].id) == tasks[i].id)
    && (forall i, j :: 0 <= i < j < |tasks| ==> tasks[i].id != tasks[j].id)
    && (forall i, d :: 0 <= i < |tasks| && d in tasks[i].dependsOn.GetOr([]) ==> TaskNamed(tasks, d))
    && Acyclic(GraphOf(PlanOfSpec(tasks)))
  }

  lemma {:induction false} OpenedGraph(h: Host, n: Numbers, tasks: seq<TaskSpec>)
    requires forall i :: 0 <= i < |tasks| ==> Trim(tasks[i].id) == tasks[i].id
    ensures GraphOf(PlanOf(ToDrafts(h, n, tasks))) == GraphOf(PlanOfSpec(tasks))
  {
    var a, b := PlanOf(ToDrafts(h, n, tasks)), PlanOfSpec(tasks);
    assert TaskIds(a) == TaskIds(b);
    SameDeclared(TaskIds(a), a, b);
  }

  lemma {:induction false} SameDeclared(ids: seq<Id>, a: seq<PlanTask>, b: seq<PlanTask>)
    requires |a| == |b|
    requires forall k :: 0 <= k < |a| ==> a[k].id == b[k].id && a[k].dependsOn.GetOr([]) == b[k].dependsOn.GetOr([])
    ensures DepsFrom(ids, a) == DepsFrom(ids, b)
  {
    if a != [] {
      SameDeclared(ids, a[..|a| - 1], b[..|b| - 1]);
    }
  }

  /** The editor opened on a well-formed specification starts a session in which all of this holds. */
  lemma {:induction false} OpenedIsGood(h: Host, n: Numbers, tasks: seq<TaskSpec>)
    requires WellFormed(tasks)
    ensures Good(Session(ToDrafts(h, n, tasks), |tasks|))
  {
    var drafts := ToDrafts(h, n, tasks);
    OpenedGraph(h, n, tasks);
    forall i, d | 0 <= i < |drafts| && d in drafts[i].dependsOn
      ensures Names(drafts, d)
    {
      assert TaskNamed(tasks, d);
      var k :| 0 <= k < |tasks| && tasks[k].id == d;
      assert Trim(drafts[k].id) == d;
    }
  }

  /** At every point of such a session, every queue order of the plan holds every task. */
  lemma {:induction false} EveryTaskScheduled(states: seq<Session>, steps: seq<Step>, i: nat, order: seq<Id>)
    requires Run(states, steps) && Good(states[0]) && i < |states|
    requires KahnOrder(GraphOf(PlanOf(states[i].drafts)), order)
    ensures |order| == |states[i].drafts|
    ensures forall k :: 0 <= k < |states[i].drafts| ==> Trim(states[i].drafts[k].id) in order
  {
    RunStaysGood(states, steps, i);
    var plan := PlanOf(states[i].drafts);
    PlanDistinct(states[i].drafts);
    GraphOfValid(plan);
    AllOrderedIffAcyclic(GraphOf(plan), order);
    forall k | 0 <= k < |states[i].drafts|
      ensures Trim(states[i].drafts[k].id) in order
    {
      assert plan[k].id == Trim(states[i].drafts[k].id);
      assert TaskIds(plan)[k] in GraphOf(plan).nodes;
    }
  }
}
