/** What saving the criteria of a task keeps of them. */
module CriteriaTheorems {
  import opened Prelude
  import opened Text
  import opened AcceptanceCriteria

  function Drafts(h: Host, cs: seq<Criterion>): seq<CriterionDraft> {
    seq(|cs|, i requires 0 <= i < |cs| => DraftFromCriterion(h, cs[i]))
  }

  /** What one criterion is saved as when its row is opened and left alone. */
  function Resave(h: Host, c: Criterion): Criterion {
    Emit(DraftFromCriterion(h, c))
  }

  lemma {:induction false} ClipClipped(text: string)
    ensures Trimmed(Clip(text)) && |Clip(text)| <= MAX_CRITERION_LEN
    ensures Clip(Clip(text)) == Clip(text)
  {
    var t := Trim(text);
    TrimShorter(if |t| <= MAX_CRITERION_LEN then t else t[..MAX_CRITERION_LEN]);
    TrimFixed(Clip(text));
  }

  lemma {:induction false} TrimShorter(s: string)
    ensures |Trim(s)| <= |s| && Trimmed(Trim(s)) && Trim(Trim(s)) == Trim(s)
  {
    TrimFixed(Trim(s));
  }

  // ------------------------------------------------------------------
  // Reading back what was written
  // ------------------------------------------------------------------

  /** A declaration as the editor writes it: fields trimmed, a signal always there, nothing of the other mode. */
  predicate Canonical(check: CriterionCheck) {
    && Trimmed(check.runtime) && Trimmed(check.command) && Trimmed(check.expectedSignal) && Trimmed(check.manualReason)
    && check.expectedSignal != ""
    && (check.checkType == Automated ==> check.manualReason == "")
    && (check.checkType == Manual ==>
          check.runtime == check.command == "" && check.expectedSignal == DEFAULT_EXPECTED_SIGNAL)
  }

  /** The canonical form of a declaration. */
  function Canonicalised(check: CriterionCheck): CriterionCheck {
    if check.checkType == Automated then
      CriterionCheck(Automated, Trim(check.runtime), Trim(check.command),
                     if Trim(check.expectedSignal) != "" then Trim(check.expectedSignal)
                       else DEFAULT_EXPECTED_SIGNAL, "")
    else CriterionCheck(Manual, "", "", DEFAULT_EXPECTED_SIGNAL, Trim(check.manualReason))
  }

  /** The canonical form is canonical, and only a canonical declaration is its own. */
  lemma {:induction false} CanonicalForm(check: CriterionCheck)
    ensures Canonical(Canonicalised(check))
    ensures Canonicalised(check) == check <==> Canonical(check)
  {
    DefaultSignalRead();
    TrimmedIsFixed(check.runtime);
    TrimmedIsFixed(check.command);
    TrimmedIsFixed(check.expectedSignal);
    TrimmedIsFixed(check.manualReason);
  }

  lemma {:induction false} TrimmedIsFixed(s: string)
    ensures Trimmed(Trim(s)) && (Trim(s) == s <==> Trimmed(s))
  {
    if Trimmed(s) {
      TrimFixed(s);
    }
  }

  /**
   * The clipped text is the beginning of the trimmed one, as long as the cap allows, less the
   * blanks at the cut.
   */
  lemma {:induction false} ClipTakes(text: string)
    ensures Clip(text) <= Trim(text) && Trimmed(Clip(text))
    ensures |Trim(text)| <= 300 ==> Clip(text) == Trim(text)
    ensures |Trim(text)| > 300 ==> |Clip(text)| <= 300 && AllBlank(Trim(text)[|Clip(text)|..300])
  {
    var t := Trim(text);
    var a, b := TrimTakes(text);
    TrimFixed(t);
    if |t| > 300 {
      var cut := t[..300];
      assert TrimStart(cut) == cut;
      var d := TrimEndTakes(cut);
      assert cut == Clip(text) + d;
      assert t[|Clip(text)|..300] == d;
    }
  }

  const TEXT_FIELDS: seq<Key> := [Description, TextField, CriterionField, NameField]

  /** A structured criterion reads as the first of its four text fields that is there, whatever the later ones say. */
  lemma {:induction false} TextOfRecord(h: Host, f: map<Key, Value>, k: nat)
    requires k < |TEXT_FIELDS| && TEXT_FIELDS[k] in f && f[TEXT_FIELDS[k]] != Null
    requires forall i :: 0 <= i < k ==> TEXT_FIELDS[i] !in f || f[TEXT_FIELDS[i]] == Null
    ensures f[TEXT_FIELDS[k]].Str? ==> CriterionText(h, Record(f)) == f[TEXT_FIELDS[k]].s
    ensures f[TEXT_FIELDS[k]].NonText? ==> CriterionText(h, Record(f)) == f[TEXT_FIELDS[k]].shown
  {
    assert k > 0 ==> TEXT_FIELDS[0] == Description;
    assert k > 1 ==> TEXT_FIELDS[1] == TextField;
    assert k > 2 ==> TEXT_FIELDS[2] == CriterionField;
    assert k == 0 || k == 1 || k == 2 || k == 3;
  }

  lemma {:induction false} TypeNamesRead()
    ensures Trim("manual") == "manual" && Trim("automated") == "automated"
  {
    TrimFixed("manual");
    TrimFixed("automated");
  }

  lemma {:induction false} DefaultSignalRead()
    ensures Trim(DEFAULT_EXPECTED_SIGNAL) == DEFAULT_EXPECTED_SIGNAL && Trimmed(DEFAULT_EXPECTED_SIGNAL)
  {
    TrimFixed(DEFAULT_EXPECTED_SIGNAL);
  }

  /** The five declaring keys are gone, the description is the text, everything else is as before. */
  lemma {:induction false} UndeclareAt(base: map<Key, Value>, text: string)
    ensures var u := Undeclare(base, text);
      && CheckTypeKey !in u && RuntimeKey !in u && CommandKey !in u && SignalKey !in u && ReasonKey !in u
      && Description in u && u[Description] == Str(text)
      && forall k :: k != Description && k !in DECLARATION_KEYS ==>
          (k in u <==> k in base) && (k in u ==> u[k] == base[k])
  {
    assert DECLARATION_KEYS == [CheckTypeKey, RuntimeKey, CommandKey, SignalKey, ReasonKey];
  }

  lemma {:induction false} FieldOfWritten(base: map<Key, Value>, text: string, check: CriterionCheck, k: Key)
    requires k in DECLARATION_KEYS
    ensures Field(WithDeclaration(base, text, check), k) == Field(DeclarationOf(check), k)
  {
    assert k !in Undeclare(base, text);
  }

  lemma {:induction false} AutomatedFields(check: CriterionCheck)
    requires check.checkType == Automated
    ensures var f := DeclarationOf(check); var c := Canonicalised(check);
      && f.Keys == {CheckTypeKey, RuntimeKey, CommandKey, SignalKey}
      && f[CheckTypeKey] == Str("automated") && f[RuntimeKey] == Str(c.runtime)
      && f[CommandKey] == Str(c.command) && f[SignalKey] == Str(c.expectedSignal)
  {
  }

  lemma {:induction false} AutomatedDeclares(check: CriterionCheck)
    requires check.checkType == Automated
    ensures var f := DeclarationOf(check); var c := Canonicalised(check);
      && Field(f, CheckTypeKey) == "automated" && Field(f, RuntimeKey) == c.runtime && Field(f, CommandKey) == c.command
      && Field(f, SignalKey) == c.expectedSignal && Field(f, ReasonKey) == ""
  {
    AutomatedFields(check);
    TypeNamesRead();
    DefaultSignalRead();
    TrimShorter(check.runtime);
    TrimShorter(check.command);
    TrimShorter(check.expectedSignal);
  }

  lemma {:induction false} ManualDeclares(check: CriterionCheck)
    requires check.checkType == Manual
    ensures var f := DeclarationOf(check); var c := Canonicalised(check);
      && Field(f, CheckTypeKey) == "manual" && Field(f, RuntimeKey) == "" && Field(f, CommandKey) == ""
      && Field(f, SignalKey) == "" && Field(f, ReasonKey) == c.manualReason
  {
    TypeNamesRead();
    TrimShorter(check.manualReason);
  }

  /** The five fields of a written declaration, as they are read. */
  lemma {:induction false} WrittenFields(base: map<Key, Value>, text: string, check: CriterionCheck)
    ensures var f := WithDeclaration(base, text, check); var c := Canonicalised(check);
      && Field(f, CheckTypeKey) == (if check.checkType == Automated then "automated" else "manual")
      && Field(f, RuntimeKey) == c.runtime && Field(f, CommandKey) == c.command
      && Field(f, SignalKey) == (if check.checkType == Automated then c.expectedSignal else "")
      && Field(f, ReasonKey) == c.manualReason
  {
    assert DECLARATION_KEYS == [CheckTypeKey, RuntimeKey, CommandKey, SignalKey, ReasonKey];
    FieldOfWritten(base, text, check, DECLARATION_KEYS[0]);
    FieldOfWritten(base, text, check, DECLARATION_KEYS[1]);
    FieldOfWritten(base, text, check, DECLARATION_KEYS[2]);
    FieldOfWritten(base, text, check, DECLARATION_KEYS[3]);
    FieldOfWritten(base, text, check, DECLARATION_KEYS[4]);
    if check.checkType == Automated {
      AutomatedDeclares(check);
    } else {
      ManualDeclares(check);
    }
  }

  /** Reading a written declaration gives its canonical form. */
  lemma {:induction false} WrittenIsRead(base: map<Key, Value>, text: string, check: CriterionCheck)
    ensures CheckFromCriterion(Record(WithDeclaration(base, text, check))) == Some(Canonicalised(check))
  {
    WrittenFields(base, text, check);
  }

  lemma {:induction false} CanonicalDeclares(check: CriterionCheck)
    ensures DeclarationOf(Canonicalised(check)) == DeclarationOf(check)
  {
    if check.checkType == Automated {
      CanonicalAutomated(check);
    } else {
      TrimShorter(check.manualReason);
    }
  }

  lemma {:induction false} CanonicalAutomated(check: CriterionCheck)
    requires check.checkType == Automated
    ensures DeclarationOf(Canonicalised(check)) == DeclarationOf(check)
  {
    DefaultSignalRead();
    TrimShorter(check.runtime);
    TrimShorter(check.command);
    TrimShorter(check.expectedSignal);
  }

  lemma {:induction false} UndeclareAgain(base: map<Key, Value>, text: string, check: CriterionCheck)
    ensures Undeclare(WithDeclaration(base, text, check), text) == Undeclare(base, text)
  {
    assert DECLARATION_KEYS == [CheckTypeKey, RuntimeKey, CommandKey, SignalKey, ReasonKey];
    DeclaresOnly(check);
    UndeclareAt(base, text);
  }

  lemma {:induction false} DeclaresOnly(check: CriterionCheck)
    ensures forall k :: k in DeclarationOf(check) ==> k in DECLARATION_KEYS && k != Description
  {
    assert DECLARATION_KEYS == [CheckTypeKey, RuntimeKey, CommandKey, SignalKey, ReasonKey];
    assert CheckTypeKey == DECLARATION_KEYS[0] && RuntimeKey == DECLARATION_KEYS[1] && CommandKey == DECLARATION_KEYS[2]
      && SignalKey == DECLARATION_KEYS[3] && ReasonKey == DECLARATION_KEYS[4];
  }

  /** Writing it again changes nothing. */
  lemma {:induction false} WrittenAgain(base: map<Key, Value>, text: string, check: CriterionCheck)
    ensures WithDeclaration(WithDeclaration(base, text, check), text, Canonicalised(check))
        == WithDeclaration(base, text, check)
  {
    UndeclareAgain(base, text, check);
    CanonicalDeclares(check);
  }

  lemma {:induction false} DescriptionNotRead(f: map<Key, Value>, text: string)
    ensures CheckFromCriterion(Record(f[Description := Str(text)])) == CheckFromCriterion(Record(f))
    ensures CriterionCheckState(Record(f[Description := Str(text)])) == CriterionCheckState(Record(f))
  {
    var changed := f[Description := Str(text)];
    assert Field(changed, CheckTypeKey) == Field(f, CheckTypeKey);
    assert Field(changed, RuntimeKey) == Field(f, RuntimeKey);
    assert Field(changed, CommandKey) == Field(f, CommandKey);
    assert Field(changed, SignalKey) == Field(f, SignalKey);
    assert Field(changed, ReasonKey) == Field(f, ReasonKey);
  }

  /**
   * What the worker does with a criterion: it runs one that has a runtime and a command and
   * names no other type than automated, and leaves one that names another type to a human.
   */
  lemma {:induction false} StateIff(f: map<Key, Value>)
    ensures var named := CheckTypeKey in f && f[CheckTypeKey].Str? && Trim(f[CheckTypeKey].s) != "";
      var human := named && Trim(f[CheckTypeKey].s) != "automated";
      && (CriterionCheckState(Record(f)) == IsManual <==> human)
      && (CriterionCheckState(Record(f)) == RunsAutomated <==> !human && Filled(f, RuntimeKey) && Filled(f, CommandKey))
  {
  }

  ghost predicate Filled(f: map<Key, Value>, key: Key) {
    key in f && f[key].Str? && Trim(f[key].s) != ""
  }

  /** A type of another producer is not read, and a save leaves the criterion as it was but for its text. */
  lemma {:induction false} ForeignTypeKept(h: Host, f: map<Key, Value>)
    requires Filled(f, CheckTypeKey) && Trim(f[CheckTypeKey].s) != "automated" && Trim(f[CheckTypeKey].s) != "manual"
    ensures CheckFromCriterion(Record(f)) == None && CriterionCheckState(Record(f)) == IsManual
    ensures Resave(h, Record(f)) == Record(f[Description := Str(Clip(CriterionText(h, Record(f))))])
  {
  }

  /** What is saved shows the clipped text. */
  lemma {:induction false} SavedText(h: Host, draft: CriterionDraft)
    ensures CriterionText(h, Emit(draft)) == Clip(draft.text)
  {
    if draft.check.Declared? || BaseOf(draft).Some? {
      UndeclareAt(BaseOf(draft).GetOr(map[]), Clip(draft.text));
    }
  }

  /** A saved row, opened again and saved with the same text. */
  lemma {:induction false} ResaveOf(h: Host, saved: Criterion, text: string)
    requires CriterionText(h, saved) == text && Clip(text) == text
    ensures Resave(h, saved) ==
      match CheckFromCriterion(saved)
      case Some(check) => Record(WithDeclaration(saved.fields, text, check))
      case None => if saved.Record? then Record(saved.fields[Description := Str(text)]) else Prose(text)
  {
  }

  /** Opening a saved criterion and saving it again gives it back. */
  lemma {:induction false} ResaveIdempotent(h: Host, c: Criterion)
    ensures Resave(h, Resave(h, c)) == Resave(h, c)
  {
    var draft := DraftFromCriterion(h, c);
    var text := Clip(draft.text);
    SavedText(h, draft);
    ClipClipped(draft.text);
    ResaveOf(h, Emit(draft), text);
    match draft.check
    case Declared(check) =>
      WrittenIsRead(c.fields, text, check);
      WrittenAgain(c.fields, text, check);
    case Untouched =>
      if c.Record? {
        DescriptionNotRead(c.fields, text);
        assert c.fields[Description := Str(text)][Description := Str(text)] == c.fields[Description := Str(text)];
      }
  }

  lemma {:induction false} AllWithText(drafts: seq<CriterionDraft>)
    requires forall i :: 0 <= i < |drafts| ==> Clip(drafts[i].text) != ""
    ensures WithText(drafts) == drafts
  {
    if drafts != [] {
      AllWithText(drafts[..|drafts| - 1]);
      FrontLast(drafts);
    }
  }

  lemma {:induction false} WithTextMembers(drafts: seq<CriterionDraft>)
    ensures forall d :: d in WithText(drafts) <==> d in drafts && Clip(d.text) != ""
  {
    if drafts != [] {
      WithTextMembers(drafts[..|drafts| - 1]);
      assert drafts == drafts[..|drafts| - 1] + [drafts[|drafts| - 1]];
    }
  }

  /** Saving what was just saved, with every row left alone, changes nothing. */
  lemma {:induction false} SavingIsIdempotent(h: Host, cs: seq<Criterion>, out: seq<Criterion>, again: seq<Criterion>)
    requires SavedAs(Drafts(h, cs), out) && SavedAs(Drafts(h, out), again)
    ensures again == out
  {
    var kept := WithText(Drafts(h, cs));
    WithTextMembers(Drafts(h, cs));
    forall i | 0 <= i < |out|
      ensures Clip(Drafts(h, out)[i].text) != ""
      ensures Emit(Drafts(h, out)[i]) == out[i]
    {
      assert kept[i] in kept;
      var k :| 0 <= k < |cs| && Drafts(h, cs)[k] == kept[i];
      assert out[i] == Resave(h, cs[k]);
      ResaveIdempotent(h, cs[k]);
      SavedText(h, kept[i]);
      ClipClipped(kept[i].text);
    }
    AllWithText(Drafts(h, out));
  }

  // ------------------------------------------------------------------
  // What the worker will do
  // ------------------------------------------------------------------

  /** Structured, with a reason but neither a declared type nor anything to run. */
  predicate BareReason(c: Criterion) {
    && c.Record?
    && Field(c.fields, CheckTypeKey) == "" && Field(c.fields, RuntimeKey) == "" && Field(c.fields, CommandKey) == ""
    && Field(c.fields, ReasonKey) != ""
  }

  lemma {:induction false} WrittenState(base: map<Key, Value>, text: string, check: CriterionCheck)
    ensures CriterionCheckState(Record(WithDeclaration(base, text, check))) ==
      if check.checkType == Manual then IsManual
      else if Trim(check.runtime) != "" && Trim(check.command) != "" then RunsAutomated
      else Undeclared
  {
    WrittenFields(base, text, check);
  }

  /** The state a declaration asks for. */
  function DeclaredState(check: CriterionCheck): CheckState {
    if check.checkType == Manual then IsManual
    else if check.runtime != "" && check.command != "" then RunsAutomated
    else Undeclared
  }

  lemma {:induction false} ResavedDeclaration(h: Host, c: Criterion, check: CriterionCheck)
    requires CheckFromCriterion(c) == Some(check)
    ensures CriterionCheckState(Resave(h, c)) == DeclaredState(check)
  {
    var draft := DraftFromCriterion(h, c);
    FieldTrimmed(c.fields, RuntimeKey);
    FieldTrimmed(c.fields, CommandKey);
    WrittenState(c.fields, Clip(draft.text), check);
  }

  lemma {:induction false} ReadDeclaration(c: Criterion, check: CriterionCheck)
    requires CheckFromCriterion(c) == Some(check)
    ensures !BareReason(c) ==> CriterionCheckState(c) == DeclaredState(check)
    ensures BareReason(c) ==> CriterionCheckState(c) == Undeclared && DeclaredState(check) == IsManual
  {
  }

  lemma {:induction false} ResavedUndeclared(h: Host, c: Criterion)
    requires CheckFromCriterion(c) == None
    ensures CriterionCheckState(Resave(h, c)) == CriterionCheckState(c) && !BareReason(c)
  {
    if c.Record? {
      DescriptionNotRead(c.fields, Clip(DraftFromCriterion(h, c).text));
    }
  }

  /**
   * Opening a criterion and saving it unchanged never makes the worker run it or
   * stop running it, and changes its state for a bare reason only, which becomes manual.
   */
  lemma {:induction false} ResaveKeepsState(h: Host, c: Criterion)
    ensures CriterionCheckState(Resave(h, c)) == RunsAutomated <==> CriterionCheckState(c) == RunsAutomated
    ensures CriterionCheckState(Resave(h, c)) != CriterionCheckState(c) <==> BareReason(c)
    ensures BareReason(c) ==> CriterionCheckState(c) == Undeclared && CriterionCheckState(Resave(h, c)) == IsManual
  {
    match CheckFromCriterion(c)
    case Some(check) =>
      ResavedDeclaration(h, c, check);
      ReadDeclaration(c, check);
    case None => ResavedUndeclared(h, c);
  }

  lemma {:induction false} FieldTrimmed(f: map<Key, Value>, key: Key)
    ensures Trim(Field(f, key)) == Field(f, key)
  {
    if key in f && f[key].Str? {
      TrimShorter(f[key].s);
    }
  }

  /** A declared row without errors, among the first eight with text, is saved with the state it declares. */
  lemma {:induction false} DeclaredRowSaved(drafts: seq<CriterionDraft>, out: seq<Criterion>, i: nat)
    requires SavedAs(drafts, out) && i < |WithText(drafts)| && i < MAX_ACCEPTANCE_CRITERIA
    requires WithText(drafts)[i].check.Declared? && ErrorFree(WithText(drafts)[i])
    ensures i < |out| && out[i].Record?
    ensures CriterionCheckState(out[i]) == if WithText(drafts)[i].check.check.checkType == Automated then RunsAutomated
        else IsManual
    ensures CheckFromCriterion(out[i]) == Some(Canonicalised(WithText(drafts)[i].check.check))
  {
    var draft := WithText(drafts)[i];
    var base := BaseOf(draft).GetOr(map[]);
    assert out[i] == Record(WithDeclaration(base, Clip(draft.text), draft.check.check));
    WrittenState(base, Clip(draft.text), draft.check.check);
    WrittenIsRead(base, Clip(draft.text), draft.check.check);
  }

  /** Withdrawing a declaration leaves nothing for the worker to run, and no trace of the five fields. */
  lemma {:induction false} WithdrawnRowSaved(draft: CriterionDraft)
    requires draft.check == Withdrawn
    ensures CriterionCheckState(Emit(draft)) == Undeclared
    ensures CheckFromCriterion(Emit(draft)) == None
  {
    if BaseOf(draft).Some? {
      UndeclareAt(BaseOf(draft).value, Clip(draft.text));
    }
  }

  /** Whatever a row declares, the fields of its criterion that declare nothing survive, except the text. */
  lemma {:induction false} OtherFieldsSurvive(draft: CriterionDraft, k: Key)
    requires BaseOf(draft).Some? && k != Description && k !in DECLARATION_KEYS
    ensures Emit(draft).Record?
    ensures k in Emit(draft).fields <==> k in BaseOf(draft).value
    ensures k in Emit(draft).fields ==> Emit(draft).fields[k] == BaseOf(draft).value[k]
  {
    UndeclareAt(BaseOf(draft).value, Clip(draft.text));
    if draft.check.Declared? {
      DeclaresOnly(draft.check.check);
    }
  }
}
