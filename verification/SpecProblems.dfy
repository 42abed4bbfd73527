/** The problems of an edited task list that can be seen without asking the server. */
module SpecProblems {
  import opened Prelude
  import opened Text
  import opened AcceptanceCriteria
  import opened PlanSpecEdit

  /** One message; a missing title is reported with the raw id, empty or not. */
  datatype Problem = NoId | DuplicateId(id: string) | NoTitle(id: string)

  function SavedIds(drafts: seq<TaskDraft>): (ids: seq<string>)
    ensures |ids| == |drafts| && forall i :: 0 <= i < |drafts| ==> ids[i] == Trim(drafts[i].id)
  {
    seq(|drafts|, i requires 0 <= i < |drafts| => Trim(drafts[i].id))
  }

  ghost function DuplicateProblems(ids: seq<string>): seq<Problem> {
    if ids == [] then []
    else
      var front, last := ids[..|ids| - 1], ids[|ids| - 1];
      DuplicateProblems(front) + if last != "" && last in front then [DuplicateId(last)] else []
  }

  predicate Titled(draft: TaskDraft) {
    Trim(draft.title) != ""
  }

  ghost function TitleProblems(drafts: seq<TaskDraft>): seq<Problem> {
    if drafts == [] then []
    else
      var front, last := drafts[..|drafts| - 1], drafts[|drafts| - 1];
      TitleProblems(front) + if !Titled(last) then [NoTitle(last.id)] else []
  }

  ghost function LocalProblemsOf(drafts: seq<TaskDraft>): seq<Problem> {
    (if "" in SavedIds(drafts) then [NoId] else []) + DuplicateProblems(SavedIds(drafts)) + TitleProblems(drafts)
  }

  method ReportDuplicates(ids: seq<string>) returns (problems: seq<Problem>)
    ensures problems == DuplicateProblems(ids)
  {
    problems := [];
    var seen: set<string> := {};
    var i := 0;
    while i < |ids|
      invariant 0 <= i <= |ids| && seen == Elements(ids[..i])
      invariant problems == DuplicateProblems(ids[..i])
    {
      assert ids[..i + 1][..i] == ids[..i];
      ElementsSnoc(ids[..i], ids[i]);
      assert ids[..i + 1] == ids[..i] + [ids[i]];
      if ids[i] != "" && ids[i] in seen {
        problems := problems + [DuplicateId(ids[i])];
      }
      seen := seen + {ids[i]};
      i := i + 1;
    }
    assert ids[..i] == ids;
  }

  method ReportTitles(drafts: seq<TaskDraft>) returns (problems: seq<Problem>)
    ensures problems == TitleProblems(drafts)
  {
    problems := [];
    var i := 0;
    while i < |drafts|
      invariant 0 <= i <= |drafts|
      invariant problems == TitleProblems(drafts[..i])
    {
      assert drafts[..i + 1][..i] == drafts[..i];
      if !Titled(drafts[i]) {
        problems := problems + [NoTitle(drafts[i].id)];
      }
      i := i + 1;
    }
    assert drafts[..i] == drafts;
  }

  method LocalSpecProblems(drafts: seq<TaskDraft>) returns (problems: seq<Problem>)
    ensures problems == LocalProblemsOf(drafts)
  {
    var ids := SavedIds(drafts);
    var duplicates := ReportDuplicates(ids);
    var titles := ReportTitles(drafts);
    problems := (if "" in ids then [NoId] else []) + duplicates + titles;
  }

  // ------------------------------------------------------------------
  // What the messages mean
  // ------------------------------------------------------------------

  /** One message for every further use of an id. */
  lemma {:induction false} DuplicatesCounted(ids: seq<string>, id: string)
    requires id != ""
    ensures multiset(DuplicateProblems(ids))[DuplicateId(id)] == if id in ids then multiset(ids)[id] - 1 else 0
  {
    if ids != [] {
      var front, last := ids[..|ids| - 1], ids[|ids| - 1];
      DuplicatesCounted(front, id);
      assert ids == front + [last];
      assert id in front <==> multiset(front)[id] > 0;
    }
  }

  lemma {:induction false} NoDuplicateProblems(ids: seq<string>)
    requires "" !in ids
    ensures DuplicateProblems(ids) == [] <==> NoDuplicates(ids)
  {
    if ids != [] {
      var front, last := ids[..|ids| - 1], ids[|ids| - 1];
      NoDuplicateProblems(front);
      assert ids == front + [last];
      if last in front {
        var k :| 0 <= k < |front| && front[k] == last;
        assert ids[k] == ids[|ids| - 1];
      }
    }
  }

  ghost predicate UntitledAt(drafts: seq<TaskDraft>, i: int, p: Problem) {
    0 <= i < |drafts| && Trim(drafts[i].title) == "" && p == NoTitle(drafts[i].id)
  }

  /** Every row without a title is named by its id as it stands in the row, and no other row is. */
  lemma {:induction false} TitlesReported(drafts: seq<TaskDraft>, p: Problem)
    ensures p in TitleProblems(drafts) <==> exists i :: UntitledAt(drafts, i, p)
  {
    if drafts != [] {
      var front, n := drafts[..|drafts| - 1], |drafts| - 1;
      TitlesReported(front, p);
      assert p in TitleProblems(drafts) <==> p in TitleProblems(front) || UntitledAt(drafts, n, p);
      assert forall i :: UntitledAt(drafts, i, p) <==> UntitledAt(front, i, p) || (i == n && UntitledAt(drafts, n, p));
    }
  }

  lemma {:induction false} NoTitleProblems(drafts: seq<TaskDraft>)
    ensures TitleProblems(drafts) == [] <==> forall i :: 0 <= i < |drafts| ==> Titled(drafts[i])
  {
    if drafts != [] {
      NoTitleProblems(drafts[..|drafts| - 1]);
      FrontLast(drafts);
    }
  }

  lemma {:induction false} SavedFields(h: Host, n: Numbers, draft: TaskDraft, spec: TaskSpec)
    requires IsSpecOf(h, n, draft, spec)
    ensures spec.id == Trim(draft.id) && (spec.title != "" <==> Titled(draft))
  {
  }

  lemma {:induction false} SomeIdMissing(ids: seq<string>)
    ensures "" in ids <==> exists i :: 0 <= i < |ids| && ids[i] == ""
  {
  }

  /** Nothing is reported exactly when what would be saved has distinct, non-empty ids and a title everywhere. */
  lemma {:induction false} SilentIffWellFormed(h: Host, n: Numbers, drafts: seq<TaskDraft>, specs: seq<TaskSpec>)
    requires SpecsOf(h, n, drafts, specs)
    ensures LocalProblemsOf(drafts) == [] <==>
      && (forall i :: 0 <= i < |specs| ==> specs[i].id != "" && specs[i].title != "")
      && (forall i, j :: 0 <= i < j < |specs| ==> specs[i].id != specs[j].id)
  {
    var ids := SavedIds(drafts);
    NoTitleProblems(drafts);
    SomeIdMissing(ids);
    forall i | 0 <= i < |drafts|
      ensures specs[i].id == ids[i] && (specs[i].title != "" <==> Titled(drafts[i]))
    {
      SavedFields(h, n, drafts[i], specs[i]);
    }
    if "" !in ids {
      NoDuplicateProblems(ids);
    }
  }
}
