/**
 * The editor of a plan's task list: text rows and back, criteria claimed by their
 * text, removing a task, naming a new one.
 */
module PlanSpecEdit {
  import opened Prelude
  import opened Text
  import opened AcceptanceCriteria
  import opened PlanGraph

  /** One task of the specification; absent fields are None, untouched ones are in rest. */
  datatype TaskSpec = TaskSpec(
    id: string, title: string,
    description: Option<string>, role: Option<string>, complexity: Option<string>,
    hours: Option<real>, dependsOn: Option<seq<string>>, criteria: Option<seq<Criterion>>,
    rest: map<string, Value>)

  /** One row of the editor: text fields, criteria one per line, and the criteria as they came. */
  datatype TaskDraft = TaskDraft(
    key: nat, id: string, title: string, description: string, role: string, complexity: string,
    estimatedHours: string, dependsOn: seq<string>,
    criteria: string, originals: seq<Criterion>, rest: map<string, Value>)

  /** Number printing and parseFloat, of which only what the round trip needs is assumed. */
  datatype Numbers = Numbers(show: real -> string, parse: string -> Option<real>)

  ghost predicate FaithfulNumbers(n: Numbers) {
    n.parse("") == None && forall x :: n.parse(n.show(x)) == Some(x)
  }

  // ------------------------------------------------------------------
  // From the specification to rows
  // ------------------------------------------------------------------

  function CriteriaTexts(h: Host, cs: seq<Criterion>): seq<string> {
    seq(|cs|, i requires 0 <= i < |cs| => CriterionText(h, cs[i]))
  }

  function ToDraft(h: Host, n: Numbers, task: TaskSpec, key: nat): TaskDraft {
    TaskDraft(
      key, task.id, task.title, task.description.GetOr(""), task.role.GetOr(""), task.complexity.GetOr(""),
      if task.hours.Some? then n.show(task.hours.value) else "",
      task.dependsOn.GetOr([]),
      JoinLines(CriteriaTexts(h, task.criteria.GetOr([]))), task.criteria.GetOr([]), task.rest)
  }

  function ToDrafts(h: Host, n: Numbers, tasks: seq<TaskSpec>): seq<TaskDraft> {
    seq(|tasks|, i requires 0 <= i < |tasks| => ToDraft(h, n, tasks[i], i))
  }

  // ------------------------------------------------------------------
  // Claiming criteria by their text
  // ------------------------------------------------------------------

  /** What a criterion is recognised by: its words in lower case. */
  function CriterionKey(h: Host, text: string): seq<string> {
    Lowered(h, Words(text))
  }

  function Lowered(h: Host, words: seq<string>): (r: seq<string>)
    ensures |r| == |words| && forall i :: 0 <= i < |words| ==> r[i] == h.lower(words[i])
  {
    if words == [] then [] else [h.lower(words[0])] + Lowered(h, words[1..])
  }

  /** Equally many words, and every one the same in lower case. */
  ghost predicate SameWords(h: Host, a: string, b: string) {
    && |Words(a)| == |Words(b)|
    && forall i :: 0 <= i < |Words(a)| ==> h.lower(Words(a)[i]) == h.lower(Words(b)[i])
  }

  /** Blanks and capitals aside, a criterion is recognised by all of its words. */
  lemma {:induction false} KeysAgreeIff(h: Host, a: string, b: string)
    ensures CriterionKey(h, a) == CriterionKey(h, b) <==> SameWords(h, a, b)
    ensures CriterionKey(h, a) == [] <==> AllBlank(a)
  {
    NoWords(a);
    var x, y := CriterionKey(h, a), CriterionKey(h, b);
    if SameWords(h, a, b) {
      assert forall i :: 0 <= i < |x| ==> x[i] == y[i];
    }
  }

  function KeyOf(h: Host, c: Criterion): seq<string> {
    CriterionKey(h, CriterionText(h, c))
  }

  /** The structured originals with that key, in their order. */
  ghost function Claimable(h: Host, originals: seq<Criterion>, key: seq<string>): seq<Criterion> {
    if originals == [] then []
    else
      var n := |originals| - 1;
      Claimable(h, originals[..n], key)
      + (if originals[n].Record? && KeyOf(h, originals[n]) == key && key != [] then [originals[n]] else [])
  }

  /** How many of the lines have text with that key. */
  ghost function LinesWith(h: Host, lines: seq<string>, key: seq<string>): nat {
    if lines == [] then 0
    else
      var n := |lines| - 1;
      LinesWith(h, lines[..n], key) + (if Trim(lines[n]) != "" && CriterionKey(h, lines[n]) == key then 1 else 0)
  }

  /** What the c-th line with a text is emitted as: the c-th structured original of its key, or prose. */
  ghost function Claim(claimable: seq<Criterion>, c: nat, text: string): Criterion {
    if c < |claimable| then claimable[c] else Prose(text)
  }

  /** The criteria a text stands for, given the originals it came from. */
  ghost function EmittedFor(h: Host, originals: seq<Criterion>, lines: seq<string>): seq<Criterion> {
    if lines == [] then []
    else
      var n := |lines| - 1;
      var text := Trim(lines[n]);
      var key := CriterionKey(h, lines[n]);
      EmittedFor(h, originals, lines[..n])
      + (if text == "" then [] else [Claim(Claimable(h, originals, key), LinesWith(h, lines[..n], key), text)])
  }

  function BucketAt(byKey: map<seq<string>, seq<Criterion>>, key: seq<string>): seq<Criterion> {
    if key in byKey then byKey[key] else []
  }

  ghost predicate Filled(h: Host, originals: seq<Criterion>, byKey: map<seq<string>, seq<Criterion>>) {
    forall k {:trigger BucketAt(byKey, k)} :: BucketAt(byKey, k) == Claimable(h, originals, k)
  }

  lemma {:induction false} FillOne(h: Host, originals: seq<Criterion>, i: nat, byKey: map<seq<string>, seq<Criterion>>)
    requires i < |originals| && Filled(h, originals[..i], byKey)
    ensures var key := KeyOf(h, originals[i]);
      Filled(h, originals[..i + 1],
             if originals[i].Record? && key != [] then byKey[key := BucketAt(byKey, key) + [originals[i]]] else byKey)
  {
    var key := KeyOf(h, originals[i]);
    var after := if originals[i].Record? && key != [] then byKey[key := BucketAt(byKey, key) + [originals[i]]]
      else byKey;
    assert originals[..i + 1][..i] == originals[..i] && originals[..i + 1][i] == originals[i];
    forall k
      ensures BucketAt(after, k) == Claimable(h, originals[..i + 1], k)
    {
      assert BucketAt(byKey, k) == Claimable(h, originals[..i], k);
    }
  }

  /** Buckets by key, filled from the originals. */
  method FillBuckets(h: Host, originals: seq<Criterion>) returns (byKey: map<seq<string>, seq<Criterion>>)
    ensures Filled(h, originals, byKey)
  {
    byKey := map[];
    for i := 0 to |originals|
      invariant Filled(h, originals[..i], byKey)
    {
      FillOne(h, originals, i, byKey);
      var key := KeyOf(h, originals[i]);
      if originals[i].Record? && key != [] {
        byKey := byKey[key := BucketAt(byKey, key) + [originals[i]]];
      }
    }
    assert originals[..|originals|] == originals;
  }

  ghost function DropUpTo(s: seq<Criterion>, n: nat): seq<Criterion> {
    if n <= |s| then s[n..] else []
  }

  /** What is left in the buckets once the given lines have claimed theirs. */
  ghost predicate Left(h: Host, originals: seq<Criterion>, lines: seq<string>,
      byKey: map<seq<string>, seq<Criterion>>) {
    forall k {:trigger BucketAt(byKey, k)} ::
      BucketAt(byKey, k) == DropUpTo(Claimable(h, originals, k), LinesWith(h, lines, k))
  }

  lemma {:induction false} LinesWithSnoc(h: Host, lines: seq<string>, i: nat, key: seq<string>)
    requires i < |lines|
    ensures LinesWith(h, lines[..i + 1], key)
         == LinesWith(h, lines[..i], key) + if Trim(lines[i]) != "" && CriterionKey(h, lines[i]) == key then 1 else 0
  {
    assert lines[..i + 1][..i] == lines[..i] && lines[..i + 1][i] == lines[i];
  }

  /** One line takes the first criterion left in its bucket, and leaves the other buckets alone. */
  lemma {:induction false} ClaimOne(h: Host, originals: seq<Criterion>, lines: seq<string>, i: nat,
      byKey: map<seq<string>, seq<Criterion>>)
    requires i < |lines| && Left(h, originals, lines[..i], byKey)
    ensures Trim(lines[i]) == "" ==> Left(h, originals, lines[..i + 1], byKey)
    ensures Trim(lines[i]) != "" ==>
      var key := CriterionKey(h, lines[i]);
      && Claim(Claimable(h, originals, key), LinesWith(h, lines[..i], key), Trim(lines[i]))
           == (if BucketAt(byKey, key) != [] then BucketAt(byKey, key)[0] else Prose(Trim(lines[i])))
      && Left(h, originals, lines[..i + 1], if BucketAt(byKey, key) != [] then byKey[key := BucketAt(byKey, key)[1..]]
         else byKey)
  {
    var blank := Trim(lines[i]) == "";
    var key := CriterionKey(h, lines[i]);
    var bucket := BucketAt(byKey, key);
    var after := if !blank && bucket != [] then byKey[key := bucket[1..]] else byKey;
    forall k
      ensures BucketAt(after, k) == DropUpTo(Claimable(h, originals, k), LinesWith(h, lines[..i + 1], k))
    {
      LinesWithSnoc(h, lines, i, k);
      assert BucketAt(byKey, k) == DropUpTo(Claimable(h, originals, k), LinesWith(h, lines[..i], k));
    }
  }

  lemma {:induction false} KeyOfTrimmed(h: Host, line: string)
    ensures CriterionKey(h, Trim(line)) == CriterionKey(h, line)
  {
    WordsTrim(line);
  }

  /** The last line of several, as the specification of the loop sees it. */
  lemma {:induction false} EmittedSnoc(h: Host, originals: seq<Criterion>, lines: seq<string>)
    requires lines != []
    ensures var n := |lines| - 1; var key := CriterionKey(h, lines[n]);
      EmittedFor(h, originals, lines) == EmittedFor(h, originals, lines[..n])
        + (if Trim(lines[n]) == "" then []
           else [Claim(Claimable(h, originals, key), LinesWith(h, lines[..n], key), Trim(lines[n]))])
  {
  }

  /** A line with text takes the first criterion left in its bucket, or becomes prose. */
  ghost predicate Takes(h: Host, byKey: map<seq<string>, seq<Criterion>>, line: string, taken: seq<Criterion>,
      rest: map<seq<string>, seq<Criterion>>) {
    if Trim(line) == "" then taken == [] && rest == byKey
    else
      var key := CriterionKey(h, line);
      var bucket := BucketAt(byKey, key);
      && taken == [if bucket != [] then bucket[0] else Prose(Trim(line))]
      && rest == if bucket != [] then byKey[key := bucket[1..]] else byKey
  }

  method TakeLine(h: Host, byKey: map<seq<string>, seq<Criterion>>, line: string)
    returns (taken: seq<Criterion>, rest: map<seq<string>, seq<Criterion>>)
    ensures Takes(h, byKey, line, taken, rest)
  {
    taken, rest := [], byKey;
    var text := Trim(line);
    if text != "" {
      KeyOfTrimmed(h, line);
      var key := CriterionKey(h, text);
      var bucket := BucketAt(byKey, key);
      if bucket != [] {
        taken, rest := [bucket[0]], byKey[key := bucket[1..]];
      } else {
        taken := [Prose(text)];
      }
    }
  }

  lemma {:induction false} LineTaken(h: Host, originals: seq<Criterion>, lines: seq<string>, i: nat,
      byKey: map<seq<string>, seq<Criterion>>, taken: seq<Criterion>, rest: map<seq<string>, seq<Criterion>>)
    requires i < |lines| && Left(h, originals, lines[..i], byKey) && Takes(h, byKey, lines[i], taken, rest)
    ensures EmittedFor(h, originals, lines[..i + 1]) == EmittedFor(h, originals, lines[..i]) + taken
    ensures Left(h, originals, lines[..i + 1], rest)
  {
    assert lines[..i + 1][..i] == lines[..i] && lines[..i + 1][i] == lines[i];
    ClaimOne(h, originals, lines, i, byKey);
    EmittedSnoc(h, originals, lines[..i + 1]);
  }

  method CriteriaFromDraft(h: Host, draft: TaskDraft) returns (out: seq<Criterion>)
    ensures out == EmittedFor(h, draft.originals, SplitLines(draft.criteria))
  {
    var byKey := FillBuckets(h, draft.originals);
    var lines := SplitLines(draft.criteria);
    out := [];
    for i := 0 to |lines|
      invariant out == EmittedFor(h, draft.originals, lines[..i])
      invariant Left(h, draft.originals, lines[..i], byKey)
    {
      var taken, rest := TakeLine(h, byKey, lines[i]);
      LineTaken(h, draft.originals, lines, i, byKey, taken, rest);
      out, byKey := out + taken, rest;
    }
    assert lines[..|lines|] == lines;
  }

  // ------------------------------------------------------------------
  // Back to the specification
  // ------------------------------------------------------------------

  function NonEmpty(text: string): Option<string> {
    if Trim(text) != "" then Some(Trim(text)) else None
  }

  /** The specification a row stands for. */
  ghost function SpecOf(h: Host, n: Numbers, draft: TaskDraft): TaskSpec {
    var criteria := EmittedFor(h, draft.originals, SplitLines(draft.criteria));
    TaskSpec(
      Trim(draft.id), Trim(draft.title),
      NonEmpty(draft.description), NonEmpty(draft.role), NonEmpty(draft.complexity),
      n.parse(draft.estimatedHours),
      if draft.dependsOn != [] then Some(draft.dependsOn) else None,
      if criteria != [] then Some(criteria) else None,
      draft.rest)
  }

  method ToTaskSpec(h: Host, n: Numbers, draft: TaskDraft) returns (spec: TaskSpec)
    ensures IsSpecOf(h, n, draft, spec)
  {
    var criteria := CriteriaFromDraft(h, draft);
    spec := TaskSpec(Trim(draft.id), Trim(draft.title), None, None, None, None, None, None, draft.rest);
    var description := Trim(draft.description);
    if description != "" {
      spec := spec.(description := Some(description));
    }
    var role := Trim(draft.role);
    if role != "" {
      spec := spec.(role := Some(role));
    }
    var complexity := Trim(draft.complexity);
    if complexity != "" {
      spec := spec.(complexity := Some(complexity));
    }
    spec := spec.(hours := n.parse(draft.estimatedHours));
    if draft.dependsOn != [] {
      spec := spec.(dependsOn := Some(draft.dependsOn));
    }
    if criteria != [] {
      spec := spec.(criteria := Some(criteria));
    }
  }

  /** Row by row. */
  ghost predicate SpecsOf(h: Host, n: Numbers, drafts: seq<TaskDraft>, specs: seq<TaskSpec>) {
    |specs| == |drafts| && forall i :: 0 <= i < |drafts| ==> IsSpecOf(h, n, drafts[i], specs[i])
  }

  ghost predicate IsSpecOf(h: Host, n: Numbers, draft: TaskDraft, spec: TaskSpec) {
    spec == SpecOf(h, n, draft)
  }

  lemma {:induction false} SpecsSnoc(h: Host, n: Numbers, drafts: seq<TaskDraft>, i: nat, specs: seq<TaskSpec>,
      spec: TaskSpec)
    requires i < |drafts| && SpecsOf(h, n, drafts[..i], specs) && IsSpecOf(h, n, drafts[i], spec)
    ensures SpecsOf(h, n, drafts[..i + 1], specs + [spec])
  {
    forall k | 0 <= k < i + 1
      ensures IsSpecOf(h, n, drafts[..i + 1][k], (specs + [spec])[k])
    {
      if k < i {
        assert IsSpecOf(h, n, drafts[..i][k], specs[k]);
      }
    }
  }

  method ToTaskSpecs(h: Host, n: Numbers, drafts: seq<TaskDraft>) returns (specs: seq<TaskSpec>)
    ensures SpecsOf(h, n, drafts, specs)
  {
    specs := [];
    var i := 0;
    while i < |drafts|
      invariant 0 <= i <= |drafts| && SpecsOf(h, n, drafts[..i], specs)
    {
      var spec := ToTaskSpec(h, n, drafts[i]);
      SpecsSnoc(h, n, drafts, i, specs, spec);
      specs := specs + [spec];
      i := i + 1;
    }
    assert drafts[..i] == drafts;
  }

  // ------------------------------------------------------------------
  // Removing and naming
  // ------------------------------------------------------------------

  function Without(ids: seq<string>, id: string): (r: seq<string>)
    ensures forall d :: d in r <==> d in ids && d != id
  {
    if ids == [] then []
    else (if ids[0] == id then [] else [ids[0]]) + Without(ids[1..], id)
  }

  lemma {:induction false} WithoutJoin(a: seq<string>, b: seq<string>, id: string)
    ensures Without(a + b, id) == Without(a, id) + Without(b, id)
    decreases |a|
  {
    if a == [] {
      assert a + b == b;
    } else {
      WithoutJoin(a[1..], b, id);
      assert (a + b)[1..] == a[1..] + b;
    }
  }

  lemma {:induction false} WithoutAbsent(a: seq<string>, id: string)
    requires id !in a
    ensures Without(a, id) == a
  {
    if a != [] {
      WithoutAbsent(a[1..], id);
    }
  }

  /** Taking an id out leaves the others, in their order and as often. */
  lemma {:induction false} WithoutParts(a: seq<string>, id: string, b: seq<string>)
    ensures Without(a + [id] + b, id) == Without(a, id) + Without(b, id)
    ensures id !in a ==> Without(a, id) == a
  {
    Associative(a, [id], b);
    WithoutJoin(a, [id] + b, id);
    WithoutJoin([id], b, id);
    if id !in a {
      WithoutAbsent(a, id);
    }
  }

  /** The first row with that key. */
  function FindKey(drafts: seq<TaskDraft>, key: nat): (r: Option<TaskDraft>)
    ensures r.None? <==> forall d :: d in drafts ==> d.key != key
    ensures r.Some? ==> r.value in drafts && r.value.key == key
  {
    if drafts == [] then None
    else if drafts[0].key == key then Some(drafts[0])
    else FindKey(drafts[1..], key)
  }

  function Prune(d: TaskDraft, id: string): TaskDraft {
    d.(dependsOn := Without(d.dependsOn, id))
  }

  function KeepOthers(drafts: seq<TaskDraft>, key: nat, id: string): seq<TaskDraft> {
    if drafts == [] then []
    else (if drafts[0].key == key then [] else [Prune(drafts[0], id)]) + KeepOthers(drafts[1..], key, id)
  }

  function RemoveTask(drafts: seq<TaskDraft>, key: nat): seq<TaskDraft> {
    match FindKey(drafts, key)
    case None => drafts
    case Some(removed) => KeepOthers(drafts, key, removed.id)
  }

  function Digit(d: nat): char
    requires d < 10
  {
    '0' + d as char
  }

  function Decimal(n: nat): (s: string)
    ensures s != []
  {
    if n < 10 then [Digit(n)] else Decimal(n / 10) + [Digit(n % 10)]
  }

  function TaskName(n: nat): string {
    "t" + Decimal(n)
  }

  /** The number a row of digits stands for. */
  ghost function ValueOf(digits: string): int {
    if digits == [] then 0
    else 10 * ValueOf(digits[..|digits| - 1]) + (digits[|digits| - 1] as int - '0' as int)
  }

  /** The digits of a number stand for it, without a zero in front. */
  lemma {:induction false} DecimalStandsFor(n: nat)
    ensures ValueOf(Decimal(n)) == n && (n > 0 ==> Decimal(n)[0] != '0')
    ensures forall c :: c in Decimal(n) ==> '0' <= c <= '9'
  {
    var digits := Decimal(n);
    if n >= 10 {
      DecimalStandsFor(n / 10);
      assert digits[..|digits| - 1] == Decimal(n / 10);
    } else {
      assert digits[..0] == [] && ValueOf([]) == 0;
    }
  }

  lemma {:induction false} DecimalLength(n: nat)
    ensures |Decimal(n)| == 1 <==> n < 10
  {
  }

  lemma {:induction false} DecimalInjective(m: nat, n: nat)
    requires Decimal(m) == Decimal(n)
    ensures m == n
    decreases m
  {
    var a, b := Decimal(m), Decimal(n);
    DecimalLength(m);
    DecimalLength(n);
    assert a[|a| - 1] == Digit(m % 10) && b[|b| - 1] == Digit(n % 10);
    if m >= 10 {
      assert Decimal(m / 10) == a[..|a| - 1] && Decimal(n / 10) == b[..|b| - 1];
      DecimalInjective(m / 10, n / 10);
    }
  }

  lemma {:induction false} TaskNameInjective(m: nat, n: nat)
    requires TaskName(m) == TaskName(n)
    ensures m == n
  {
    assert TaskName(m)[1..] == Decimal(m) && TaskName(n)[1..] == Decimal(n);
    DecimalInjective(m, n);
  }

  /** A name is the letter and the decimal digits of its number. */
  lemma {:induction false} TaskNameStandsFor(n: nat)
    ensures TaskName(n)[..1] == "t" && ValueOf(TaskName(n)[1..]) == n
    ensures forall c :: c in TaskName(n)[1..] ==> '0' <= c <= '9'
    ensures n > 0 ==> TaskName(n)[1] != '0'
  {
    DecimalStandsFor(n);
    assert TaskName(n)[1..] == Decimal(n);
  }

  function RowIds(drafts: seq<TaskDraft>): (ids: seq<string>)
    ensures |ids| == |drafts|
  {
    seq(|drafts|, i requires 0 <= i < |drafts| => drafts[i].id)
  }

  /** id is the first name free, counting up from one more than the number of rows. */
  ghost predicate NextTaskIdOf(drafts: seq<TaskDraft>, id: string) {
    id !in RowIds(drafts)
    && exists n :: n > |drafts| && id == TaskName(n) && forall m :: |drafts| < m < n ==> TaskName(m) in RowIds(drafts)
  }

  /** The names of from, from + 1, ..., to - 1. */
  ghost function NamesBetween(from: nat, to: nat): seq<string>
    requires from <= to
  {
    seq(to - from, i requires 0 <= i < to - from => TaskName(from + i))
  }

  lemma {:induction false} NamesTaken(drafts: seq<TaskDraft>, from: nat, to: nat)
    requires from <= to && forall m :: from <= m < to ==> TaskName(m) in RowIds(drafts)
    ensures to - from <= |drafts|
  {
    var names := NamesBetween(from, to);
    forall i, j | 0 <= i < j < to - from
      ensures names[i] != names[j]
    {
      if TaskName(from + i) == TaskName(from + j) {
        TaskNameInjective(from + i, from + j);
      }
    }
    forall x | x in names
      ensures x in RowIds(drafts)
    {
      var i :| 0 <= i < to - from && names[i] == x;
      assert TaskName(from + i) == x;
    }
    Pigeonhole(names, RowIds(drafts));
  }

  /** The loop ends: among as many names as rows, and one more, one is free. */
  method NextTaskId(drafts: seq<TaskDraft>) returns (id: string, tries: nat)
    ensures NextTaskIdOf(drafts, id)
    ensures 1 <= tries <= |drafts| + 1 && id == TaskName(|drafts| + tries)
  {
    var ids := RowIds(drafts);
    var n := |drafts| + 1;
    while TaskName(n) in ids
      invariant |drafts| < n <= 2 * |drafts| + 1
      invariant forall m :: |drafts| < m < n ==> TaskName(m) in ids
      decreases 2 * |drafts| + 1 - n
    {
      NamesTaken(drafts, |drafts| + 1, n + 1);
      n := n + 1;
    }
    id, tries := TaskName(n), n - |drafts|;
  }
}
