/**
 * Acceptance criteria and their declarations: reading a criterion into an editor
 * row, and writing rows back without changing what the worker will run.
 */
module AcceptanceCriteria {
  import opened Prelude
  import opened Text

  const MAX_ACCEPTANCE_CRITERIA: nat := 8
  const MAX_CRITERION_LEN: nat := 300
  const DEFAULT_EXPECTED_SIGNAL := "exit_code == 0"

  /** The field names the code knows, and all others. */
  datatype Key =
    | Description | TextField | CriterionField | NameField
    | CheckTypeKey | RuntimeKey | CommandKey | SignalKey | ReasonKey
    | OtherKey(name: string)

  /** A field of a structured criterion; shown is what String() prints of anything else. */
  datatype Value = Str(s: string) | Null | NonText(shown: string)

  /** A criterion is prose, an object, or some other JSON value, of which only its text is known. */
  datatype Criterion = Prose(text: string) | Record(fields: map<Key, Value>) | Other(shown: string)

  /** What the model leaves to the runtime: JSON.stringify, and lower-casing a word. */
  datatype Host = Host(stringify: map<Key, Value> -> string, lower: string -> string)

  function Shown(v: Value): string {
    match v
    case Str(s) => s
    case Null => "null"
    case NonText(shown) => shown
  }

  predicate Present(f: map<Key, Value>, key: Key) {
    key in f && f[key] != Null
  }

  /** The first of description, text, criterion and name that is there; else the whole object. */
  function CriterionText(h: Host, c: Criterion): string {
    match c
    case Prose(text) => text
    case Other(shown) => shown
    case Record(f) =>
      if Present(f, Description) then Shown(f[Description])
      else if Present(f, TextField) then Shown(f[TextField])
      else if Present(f, CriterionField) then Shown(f[CriterionField])
      else if Present(f, NameField) then Shown(f[NameField])
      else h.stringify(f)
  }

  /** The trimmed text of a field, empty when it is missing or not text. */
  function Field(f: map<Key, Value>, key: Key): string {
    if key in f && f[key].Str? then Trim(f[key].s) else ""
  }

  datatype CheckType = Manual | Automated
  datatype CriterionCheck = CriterionCheck(checkType: CheckType, runtime: string, command: string,
      expectedSignal: string, manualReason: string)

  /** undefined, null, or an object: never touched, taken back, or in force. */
  datatype Declaration = Untouched | Withdrawn | Declared(check: CriterionCheck)
  datatype CriterionDraft = CriterionDraft(text: string, original: Option<Criterion>, check: Declaration)

  datatype CheckState = RunsAutomated | IsManual | Undeclared

  function TypeName(t: CheckType): string {
    match t
    case Manual => "manual"
    case Automated => "automated"
  }

  /** The declaration a criterion carries, if it is one the editor can read. */
  function CheckFromCriterion(c: Criterion): Option<CriterionCheck> {
    if !c.Record? then None
    else
      var declared, runtime, command := Field(c.fields, CheckTypeKey), Field(c.fields, RuntimeKey),
        Field(c.fields, CommandKey);
      var reason, signal := Field(c.fields, ReasonKey), Field(c.fields, SignalKey);
      if declared != "" && declared != "automated" && declared != "manual" then None
      else if declared == "" && runtime == "" && command == "" && reason == "" then None
      else
        var checkType :=
          if declared == "manual" then Manual
          else if declared == "automated" then Automated
          else if runtime != "" || command != "" then Automated
          else Manual;
        Some(CriterionCheck(checkType, runtime, command,
                            if signal != "" then signal else DEFAULT_EXPECTED_SIGNAL, reason))
  }

  function DraftFromCriterion(h: Host, c: Criterion): CriterionDraft {
    match CheckFromCriterion(c)
    case Some(check) => CriterionDraft(CriterionText(h, c), Some(c), Declared(check))
    case None => CriterionDraft(CriterionText(h, c), Some(c), Untouched)
  }

  /** What the worker will do with a criterion. */
  function CriterionCheckState(c: Criterion): CheckState {
    if !c.Record? then Undeclared
    else if Field(c.fields, CheckTypeKey) != "" && Field(c.fields, CheckTypeKey) != "automated" then IsManual
    else if Field(c.fields, RuntimeKey) != "" && Field(c.fields, CommandKey) != "" then RunsAutomated
    else Undeclared
  }

  // ------------------------------------------------------------------
  // Errors
  // ------------------------------------------------------------------

  datatype CriterionError = TextRequired | RuntimeRequired | CommandRequired | ReasonRequired

  /** A declared row says what it has to say. */
  predicate ErrorFree(draft: CriterionDraft) {
    draft.check.Declared? ==>
      && Trim(draft.text) != ""
      && (draft.check.check.checkType == Automated ==>
            Trim(draft.check.check.runtime) != "" && Trim(draft.check.check.command) != "")
      && (draft.check.check.checkType == Manual ==> Trim(draft.check.check.manualReason) != "")
  }

  predicate ErrorHolds(text: string, check: CriterionCheck, e: CriterionError) {
    match e
    case TextRequired => Trim(text) == ""
    case RuntimeRequired => check.checkType == Automated && Trim(check.runtime) == ""
    case CommandRequired => check.checkType == Automated && Trim(check.command) == ""
    case ReasonRequired => check.checkType == Manual && Trim(check.manualReason) == ""
  }

  method CriterionErrors(draft: CriterionDraft) returns (out: seq<CriterionError>)
    ensures out == [] <==> ErrorFree(draft)
    ensures forall e :: e in out <==> draft.check.Declared? && ErrorHolds(draft.text, draft.check.check, e)
    ensures NoDuplicates(out)
  {
    out := [];
    if !draft.check.Declared? {
      return;
    }
    var check := draft.check.check;
    if Trim(draft.text) == "" {
      out := out + [TextRequired];
    }
    if check.checkType == Automated {
      if Trim(check.runtime) == "" {
        out := out + [RuntimeRequired];
      }
      if Trim(check.command) == "" {
        out := out + [CommandRequired];
      }
    } else if Trim(check.manualReason) == "" {
      out := out + [ReasonRequired];
    }
  }

  // ------------------------------------------------------------------
  // Writing rows back
  // ------------------------------------------------------------------

  const DECLARATION_KEYS: seq<Key> := [CheckTypeKey, RuntimeKey, CommandKey, SignalKey, ReasonKey]

  /** The fields other than the five that declare, with the edited text as description. */
  function Undeclare(base: map<Key, Value>, text: string): map<Key, Value> {
    base[Description := Str(text)] - set k | k in DECLARATION_KEYS
  }

  /** The fields that state a declaration: its type, and what its mode asks for. */
  function DeclarationOf(check: CriterionCheck): map<Key, Value> {
    if check.checkType == Automated then
      map[CheckTypeKey := Str("automated"),
          RuntimeKey := Str(Trim(check.runtime)),
          CommandKey := Str(Trim(check.command)),
          SignalKey := Str(if Trim(check.expectedSignal) != "" then Trim(check.expectedSignal)
            else DEFAULT_EXPECTED_SIGNAL)]
    else
      map[CheckTypeKey := Str("manual"), ReasonKey := Str(Trim(check.manualReason))]
  }

  function WithDeclaration(base: map<Key, Value>, text: string, check: CriterionCheck): map<Key, Value> {
    Undeclare(base, text) + DeclarationOf(check)
  }

  method DeleteDeclaration(base: map<Key, Value>, text: string) returns (out: map<Key, Value>)
    ensures out == Undeclare(base, text)
  {
    out := base[Description := Str(text)];
    for i := 0 to |DECLARATION_KEYS|
      invariant out == base[Description := Str(text)] - set k | k in DECLARATION_KEYS[..i]
    {
      assert DECLARATION_KEYS[..i + 1] == DECLARATION_KEYS[..i] + [DECLARATION_KEYS[i]];
      out := out - {DECLARATION_KEYS[i]};
    }
    assert DECLARATION_KEYS[..|DECLARATION_KEYS|] == DECLARATION_KEYS;
  }

  method EmitDeclared(base: map<Key, Value>, text: string, check: CriterionCheck) returns (out: map<Key, Value>)
    ensures out == WithDeclaration(base, text, check)
  {
    out := DeleteDeclaration(base, text);
    ghost var u := out;
    out := out[CheckTypeKey := Str(TypeName(check.checkType))];
    if check.checkType == Automated {
      out := out[RuntimeKey := Str(Trim(check.runtime))];
      out := out[CommandKey := Str(Trim(check.command))];
      var signal := Trim(check.expectedSignal);
      out := out[SignalKey := Str(if signal != "" then signal else DEFAULT_EXPECTED_SIGNAL)];
    } else {
      out := out[ReasonKey := Str(Trim(check.manualReason))];
    }
    assert out == u + DeclarationOf(check);
  }

  /** Trimmed, cut to the length cap, trimmed again. */
  function Clip(text: string): string {
    var t := Trim(text);
    Trim(if |t| <= MAX_CRITERION_LEN then t else t[..MAX_CRITERION_LEN])
  }

  /** The fields of the structured criterion a row came from. */
  function BaseOf(draft: CriterionDraft): Option<map<Key, Value>> {
    if draft.original.Some? && draft.original.value.Record? then Some(draft.original.value.fields) else None
  }

  /** What one row with text is saved as. */
  function Emit(draft: CriterionDraft): Criterion {
    var text, base := Clip(draft.text), BaseOf(draft);
    match draft.check
    case Declared(check) => Record(WithDeclaration(base.GetOr(map[]), text, check))
    case Withdrawn => if base.Some? then Record(Undeclare(base.value, text)) else Prose(text)
    case Untouched => if base.Some? then Record(base.value[Description := Str(text)]) else Prose(text)
  }

  /** The rows that survive: those with text. */
  ghost function WithText(drafts: seq<CriterionDraft>): seq<CriterionDraft> {
    if drafts == [] then []
    else
      var n := |drafts| - 1;
      WithText(drafts[..n]) + (if Clip(drafts[n].text) == "" then [] else [drafts[n]])
  }

  function Min(a: nat, b: nat): nat {
    if a <= b then a else b
  }

  /** out holds what the first eight rows with text are saved as, in order. */
  ghost predicate SavedAs(drafts: seq<CriterionDraft>, out: seq<Criterion>) {
    && |out| == Min(|WithText(drafts)|, MAX_ACCEPTANCE_CRITERIA)
    && forall i :: 0 <= i < |out| ==> out[i] == Emit(WithText(drafts)[i])
  }

  lemma {:induction false} SavedSnoc(drafts: seq<CriterionDraft>, i: nat, out: seq<Criterion>)
    requires i < |drafts| && SavedAs(drafts[..i], out)
    ensures |WithText(drafts[..i + 1])| == |WithText(drafts[..i])| + if Clip(drafts[i].text) == "" then 0 else 1
    ensures Clip(drafts[i].text) == "" ==> SavedAs(drafts[..i + 1], out)
    ensures Clip(drafts[i].text) != "" && |out| < MAX_ACCEPTANCE_CRITERIA ==>
        SavedAs(drafts[..i + 1], out + [Emit(drafts[i])])
  {
    assert drafts[..i + 1][..i] == drafts[..i] && drafts[..i + 1][i] == drafts[i];
    var before := WithText(drafts[..i]);
    assert WithText(drafts[..i + 1]) == before + if Clip(drafts[i].text) == "" then [] else [drafts[i]];
  }

  method CleanCriteria(drafts: seq<CriterionDraft>) returns (out: seq<Criterion>)
    ensures SavedAs(drafts, out)
    ensures |out| == Min(|WithText(drafts)|, 8)
  {
    out := [];
    for i := 0 to |drafts|
      invariant |out| == |WithText(drafts[..i])| < MAX_ACCEPTANCE_CRITERIA
      invariant SavedAs(drafts[..i], out)
    {
      var draft := drafts[i];
      SavedSnoc(drafts, i, out);
      var text := Clip(draft.text);
      if text != "" {
        var saved := SaveRow(draft, text);
        out := out + [saved];
        if |out| >= MAX_ACCEPTANCE_CRITERIA {
          WithTextPrefix(drafts, i + 1);
          return;
        }
      }
    }
    assert drafts[..|drafts|] == drafts;
  }

  method SaveRow(draft: CriterionDraft, text: string) returns (saved: Criterion)
    requires text == Clip(draft.text)
    ensures saved == Emit(draft)
  {
    var base := BaseOf(draft);
    if draft.check.Declared? {
      var fields := EmitDeclared(base.GetOr(map[]), text, draft.check.check);
      saved := Record(fields);
    } else if draft.check.Withdrawn? && base.Some? {
      var fields := DeleteDeclaration(base.value, text);
      saved := Record(fields);
    } else if base.Some? {
      saved := Record(base.value[Description := Str(text)]);
    } else {
      saved := Prose(text);
    }
  }

  lemma {:induction false} WithTextPrefix(drafts: seq<CriterionDraft>, n: nat)
    requires n <= |drafts|
    ensures WithText(drafts[..n]) <= WithText(drafts)
    decreases |drafts| - n
  {
    if n == |drafts| {
      assert drafts[..n] == drafts;
    } else {
      WithTextPrefix(drafts, n + 1);
      assert drafts[..n + 1][..n] == drafts[..n];
    }
  }
}
