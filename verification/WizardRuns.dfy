/** What holds in every run of the installer wizard. */
module WizardRuns {
  import opened Prelude
  import opened Wizard

  /** The states a fresh page goes through: state i is the one action i meets. */
  ghost predicate Run(valid: Validator, config: Config, events: seq<Event>, states: seq<ShellState>) {
    && |states| == |events| + 1
    && states[0] == Initial(config)
    && forall i {:trigger StepAt(valid, events, states, i)} :: 0 <= i < |events| ==> StepAt(valid, events, states, i)
  }

  ghost predicate StepAt(valid: Validator, events: seq<Event>, states: seq<ShellState>, i: nat)
    requires i < |events| && |states| == |events| + 1
  {
    states[i + 1] == Step(valid, states[i], events[i])
  }

  /** What the gate of the current step demands of the action that passes it. */
  ghost predicate MayPass(valid: Validator, s: ShellState, e: Event) {
    && (IsConfigStep(s.current) ==> valid(s.current, s.config.Section(s.current)))
    && (s.current == Resources ==> s.prereqGateOpen)
    && (s.current == Summary ==> s.confirmed)
    && (s.current == Install ==> s.installComplete)
    && (if s.gateOpen then e == AcceptSimulation && s.acknowledged && s.mode.installEnabled
        else e == Next && (s.current == Summary ==> !s.mode.simulated))
  }

  /** Kept by every action. */
  ghost predicate Sound(s: ShellState) {
    && StepIndex(s.current) <= StepIndex(s.furthest)
    && (s.gateOpen ==> s.current == Summary && s.confirmed)
    && (s.acknowledged ==> s.gateOpen)
    && (s.confirmed && StepIndex(s.furthest) <= StepIndex(Summary) ==> s.current == Summary)
    && (s.installComplete ==> StepIndex(s.furthest) >= StepIndex(Install))
    && (forall step :: step in s.showErrorsFor ==> IsConfigStep(step) && StepIndex(step) <= StepIndex(s.furthest))
  }

  lemma {:induction false} StepSound(valid: Validator, s: ShellState, e: Event)
    requires Sound(s)
    ensures Sound(Step(valid, s, e))
  {
    match e
    case Next => NextSound(valid, s);
    case Back =>
    case Select(id) =>
    case _ =>
  }

  lemma {:induction false} NextSound(valid: Validator, s: ShellState)
    requires Sound(s)
    ensures Sound(Step(valid, s, Next))
  {
  }

  /** The furthest step never falls, and rises only by one, from the furthest step, through its open gate. */
  lemma {:induction false} FurthestRises(valid: Validator, s: ShellState, e: Event)
    requires Sound(s)
    ensures var after := Step(valid, s, e);
            after.furthest == s.furthest
            || (s.current == s.furthest && NextStepId(s.furthest) == Some(after.furthest)
                && after.current == after.furthest && MayPass(valid, s, e))
  {
    match e
    case Next => assert Step(valid, s, e).furthest == s.furthest || Step(valid, s, e) == Advance(s);
    case AcceptSimulation =>
    case _ => assert Step(valid, s, e).furthest == s.furthest;
  }

  lemma {:induction false} StepInRun(valid: Validator, config: Config, events: seq<Event>, states: seq<ShellState>,
      i: nat)
    requires Run(valid, config, events, states) && i < |events| && Sound(states[i])
    ensures Sound(states[i + 1])
    ensures states[i + 1].furthest == states[i].furthest
         || (states[i].current == states[i].furthest && NextStepId(states[i].furthest) == Some(states[i + 1].furthest)
             && MayPass(valid, states[i], events[i]))
  {
    assert StepAt(valid, events, states, i);
    StepSound(valid, states[i], events[i]);
    FurthestRises(valid, states[i], events[i]);
  }

  lemma {:induction false} RunSound(valid: Validator, config: Config, events: seq<Event>, states: seq<ShellState>,
      n: nat)
    requires Run(valid, config, events, states) && n <= |events|
    ensures Sound(states[n])
  {
    if n > 0 {
      RunSound(valid, config, events, states, n - 1);
      StepInRun(valid, config, events, states, n - 1);
    }
  }

  // ------------------------------------------------------------------
  // One action
  // ------------------------------------------------------------------

  /** The action leads on through the gate of the current page. */
  ghost predicate GoesOn(valid: Validator, s: ShellState, e: Event) {
    s.current != Done && MayPass(valid, s, e)
  }

  ghost predicate GoesBack(s: ShellState, e: Event) {
    e == Back && !s.gateOpen && s.current != Welcome && s.current != Install
  }

  /** The stepper leads to a page visited before. */
  ghost predicate Jumps(s: ShellState, e: Event) {
    e.Select? && !s.gateOpen && StepIndex(e.id) <= StepIndex(s.furthest)
  }

  /** The page changes in three ways: on through the gate, back by one, or by the stepper. */
  lemma {:induction false} PageMoves(valid: Validator, s: ShellState, e: Event)
    requires Sound(s)
    ensures var page := Step(valid, s, e).current;
      if GoesOn(valid, s, e) then StepIndex(page) == StepIndex(s.current) + 1
      else if GoesBack(s, e) then StepIndex(page) == StepIndex(s.current) - 1
      else if Jumps(s, e) then page == e.id
      else page == s.current
  {
    match e
    case Next => PageMovesOn(valid, s);
    case _ =>
  }

  lemma {:induction false} PageMovesOn(valid: Validator, s: ShellState)
    requires Sound(s)
    ensures Step(valid, s, Next).current == s.current || GoesOn(valid, s, Next)
    ensures GoesOn(valid, s, Next) ==> StepIndex(Step(valid, s, Next).current) == StepIndex(s.current) + 1
  {
  }

  /** Next on a confirmed summary opens the dialog of a simulation; cancelling or an accepted risk closes it. */
  lemma {:induction false} DialogMoves(valid: Validator, s: ShellState, e: Event)
    requires Sound(s)
    ensures Step(valid, s, e).gateOpen <==>
      if s.gateOpen then e != CancelSimulation && !GoesOn(valid, s, e)
      else e == Next && s.current == Summary && s.confirmed && s.mode.simulated
  {
  }

  // ------------------------------------------------------------------
  // What the state remembers
  // ------------------------------------------------------------------

  /** What the last check of the prerequisites answered; no without one. */
  ghost function LastVerdict(events: seq<Event>): bool {
    if events == [] then false
    else
      match events[|events| - 1]
      case PrereqsChecked(canProceed) => canProceed
      case _ => LastVerdict(events[..|events| - 1])
  }

  /** What the backend said last of its mode. */
  ghost function LastMode(events: seq<Event>): Mode {
    if events == [] then ASSUMED_SIMULATION
    else
      match events[|events| - 1]
      case ModeLoaded(mode) => mode
      case _ => LastMode(events[..|events| - 1])
  }

  /** What was last written to the section of a step, on its page and with no dialog in front of it. */
  ghost function LastSection(config: Config, events: seq<Event>, states: seq<ShellState>, n: nat, step: StepId): string
    requires n <= |events| && |states| == |events| + 1
  {
    if n == 0 then config.Section(step)
    else if events[n - 1].Edit? && states[n - 1].current == step && !states[n - 1].gateOpen then events[n - 1].section
    else LastSection(config, events, states, n - 1, step)
  }

  /** Gate, mode and configuration are those of the last check, the last answer and the last edits. */
  lemma {:induction false} Remembered(valid: Validator, config: Config, events: seq<Event>, states: seq<ShellState>,
      n: nat, step: StepId)
    requires Run(valid, config, events, states) && n <= |events| && IsConfigStep(step)
    ensures states[n].prereqGateOpen == LastVerdict(events[..n])
    ensures states[n].mode == LastMode(events[..n])
    ensures states[n].config.Section(step) == LastSection(config, events, states, n, step)
  {
    if n > 0 {
      Remembered(valid, config, events, states, n - 1, step);
      assert events[..n][..n - 1] == events[..n - 1];
      assert StepAt(valid, events, states, n - 1);
      StepRemembers(valid, states[n - 1], events[n - 1], step);
    }
  }

  lemma {:induction false} StepRemembers(valid: Validator, s: ShellState, e: Event, step: StepId)
    requires IsConfigStep(step)
    ensures Step(valid, s, e).prereqGateOpen == if e.PrereqsChecked? then e.canProceed else s.prereqGateOpen
    ensures Step(valid, s, e).mode == if e.ModeLoaded? then e.mode else s.mode
    ensures Step(valid, s, e).config.Section(step)
         == if e.Edit? && s.current == step && !s.gateOpen then e.section else s.config.Section(step)
  {
    if e.Edit? && IsConfigStep(s.current) {
      PatchedSection(s.config, s.current, e.section, step);
    }
  }

  /** The last check before event n said yes. */
  ghost predicate CheckedBefore(events: seq<Event>, j: nat, n: nat) {
    && j < n <= |events| && events[j] == PrereqsChecked(true)
    && forall k :: j < k < n ==> events[k] != PrereqsChecked(false)
  }

  lemma {:induction false} WhenChecked(events: seq<Event>, n: nat) returns (j: nat)
    requires n <= |events| && LastVerdict(events[..n])
    ensures CheckedBefore(events, j, n)
  {
    assert events[..n][..n - 1] == events[..n - 1];
    if events[n - 1].PrereqsChecked? {
      j := n - 1;
    } else {
      j := WhenChecked(events, n - 1);
    }
  }

  /** The page of the resources is left forwards only after a check that said yes, and none after it that said no. */
  lemma {:induction false} ResourcesPassedChecked(valid: Validator, config: Config, events: seq<Event>,
      states: seq<ShellState>, i: nat)
    returns (j: nat)
    requires Run(valid, config, events, states) && i < |events|
    requires states[i].current == Resources && !Jumps(states[i], events[i]) && states[i + 1].current == Storage
    ensures CheckedBefore(events, j, i)
  {
    RunSound(valid, config, events, states, i);
    assert StepAt(valid, events, states, i);
    PageMoves(valid, states[i], events[i]);
    Remembered(valid, config, events, states, i, Resources);
    j := WhenChecked(events, i);
  }

  /** Errors are shown for the pages on which next was clicked with an invalid section, and for no other. */
  ghost predicate Revealed(valid: Validator, events: seq<Event>, states: seq<ShellState>, i: nat, step: StepId)
    requires i < |events| && |states| == |events| + 1
  {
    && events[i] == Next && states[i].current == step && IsConfigStep(step)
    && (step == Resources ==> states[i].prereqGateOpen)
    && !valid(step, states[i].config.Section(step))
  }

  lemma {:induction false} ErrorsShownIff(valid: Validator, config: Config, events: seq<Event>, states: seq<ShellState>,
      n: nat, step: StepId)
    requires Run(valid, config, events, states) && n <= |events|
    ensures step in states[n].showErrorsFor <==> exists i: nat :: i < n && Revealed(valid, events, states, i, step)
  {
    if n > 0 {
      ErrorsShownIff(valid, config, events, states, n - 1, step);
      RunSound(valid, config, events, states, n - 1);
      assert StepAt(valid, events, states, n - 1);
      StepReveals(valid, states[n - 1], events[n - 1], step);
      assert step in states[n].showErrorsFor <==>
        step in states[n - 1].showErrorsFor || Revealed(valid, events, states, n - 1, step);
    }
  }

  lemma {:induction false} StepReveals(valid: Validator, s: ShellState, e: Event, step: StepId)
    requires Sound(s)
    ensures step in Step(valid, s, e).showErrorsFor <==>
      || step in s.showErrorsFor
      || (e == Next && s.current == step && IsConfigStep(step) && (step == Resources ==> s.prereqGateOpen)
          && !valid(step, s.config.Section(step)))
  {
    match e
    case Next =>
    case _ =>
  }

  /** The box was ticked, the dialog has stood open since, and the box was not cleared where it is offered. */
  ghost predicate AcknowledgedSince(events: seq<Event>, states: seq<ShellState>, j: nat, n: nat) {
    && j < n <= |events| && |states| == |events| + 1 && events[j] == Acknowledge(true)
    && (forall k :: j <= k < n ==> states[k].gateOpen)
    && (forall k :: j < k < n && states[k].mode.installEnabled ==> events[k] != Acknowledge(false))
  }

  lemma {:induction false} WhenAcknowledged(valid: Validator, config: Config, events: seq<Event>,
      states: seq<ShellState>, n: nat)
    returns (j: nat)
    requires Run(valid, config, events, states) && n <= |events| && states[n].acknowledged
    ensures AcknowledgedSince(events, states, j, n)
  {
    RunSound(valid, config, events, states, n - 1);
    assert StepAt(valid, events, states, n - 1);
    AcknowledgeStep(valid, states[n - 1], events[n - 1]);
    if events[n - 1] == Acknowledge(true) && states[n - 1].gateOpen {
      j := n - 1;
    } else {
      j := WhenAcknowledged(valid, config, events, states, n - 1);
    }
  }

  lemma {:induction false} AcknowledgeStep(valid: Validator, s: ShellState, e: Event)
    requires Sound(s) && Step(valid, s, e).acknowledged
    ensures s.gateOpen && (e == Acknowledge(true) || s.acknowledged)
    ensures s.mode.installEnabled ==> e != Acknowledge(false)
  {
    match e
    case Next =>
    case _ =>
  }

  // ------------------------------------------------------------------
  // Every gate was passed
  // ------------------------------------------------------------------

  /** Action i is the one that first passed the gate of the given step. */
  ghost predicate FirstPassed(valid: Validator, events: seq<Event>, states: seq<ShellState>, step: StepId, i: nat) {
    && i < |events| && |states| == |events| + 1
    && states[i].current == states[i].furthest == step
    && NextStepId(step) == Some(states[i + 1].furthest)
    && MayPass(valid, states[i], events[i])
  }

  /** One moment per step up to the furthest, in order: when it was first passed, through its open gate. */
  ghost predicate PassedInOrder(valid: Validator, events: seq<Event>, states: seq<ShellState>, moments: seq<nat>) {
    && |moments| <= |WIZARD_STEPS|
    && (forall k, l :: 0 <= k < l < |moments| ==> moments[k] < moments[l])
    && (forall k :: 0 <= k < |moments| ==> FirstPassed(valid, events, states, WIZARD_STEPS[k], moments[k]))
  }

  lemma {:induction false} PassedNext(valid: Validator, events: seq<Event>, states: seq<ShellState>,
      moments: seq<nat>, m: nat)
    requires PassedInOrder(valid, events, states, moments) && |moments| < |WIZARD_STEPS|
    requires forall k :: 0 <= k < |moments| ==> moments[k] < m
    requires FirstPassed(valid, events, states, WIZARD_STEPS[|moments|], m)
    ensures PassedInOrder(valid, events, states, moments + [m])
  {
  }

  lemma {:induction false} PassedNow(valid: Validator, config: Config, events: seq<Event>, states: seq<ShellState>,
      i: nat)
    requires Run(valid, config, events, states) && i < |events|
    ensures states[i + 1].furthest != states[i].furthest ==>
        && StepIndex(states[i + 1].furthest) == StepIndex(states[i].furthest) + 1
        && FirstPassed(valid, events, states, WIZARD_STEPS[StepIndex(states[i].furthest)], i)
  {
    RunSound(valid, config, events, states, i);
    StepInRun(valid, config, events, states, i);
    StepOrder(states[i].furthest);
  }

  /** However the wizard got where it is, every step before the furthest was passed through its gate, in order. */
  lemma {:induction false} EveryGateWasPassed(valid: Validator, config: Config, events: seq<Event>,
      states: seq<ShellState>, n: nat)
    returns (moments: seq<nat>)
    requires Run(valid, config, events, states) && n <= |events|
    ensures PassedInOrder(valid, events, states, moments)
    ensures |moments| == StepIndex(states[n].furthest)
    ensures forall k :: 0 <= k < |moments| ==> moments[k] < n
  {
    if n == 0 {
      moments := [];
    } else {
      moments := EveryGateWasPassed(valid, config, events, states, n - 1);
      PassedNow(valid, config, events, states, n - 1);
      if states[n].furthest != states[n - 1].furthest {
        PassedNext(valid, events, states, moments, n - 1);
        moments := moments + [n - 1];
      }
    }
  }

  /** The installation is reached only with every section valid, the prerequisites met and the
   *  summary confirmed, each when first passed. */
  lemma {:induction false} InstallReachedThroughGates(valid: Validator, config: Config, events: seq<Event>,
      states: seq<ShellState>, step: StepId)
    returns (i: nat)
    requires Run(valid, config, events, states)
    requires StepIndex(states[|events|].furthest) >= StepIndex(Install) > StepIndex(step)
    ensures i < |events| && states[i].current == states[i].furthest == step
    ensures IsConfigStep(step) ==> valid(step, states[i].config.Section(step))
    ensures step == Resources ==> exists j :: CheckedBefore(events, j, i)
    ensures step == Summary ==> states[i].confirmed
    ensures step == Summary && states[i].mode.simulated ==>
      states[i].mode.installEnabled && exists j :: AcknowledgedSince(events, states, j, i)
  {
    var moments := EveryGateWasPassed(valid, config, events, states, |events|);
    i := moments[StepIndex(step)];
    StepOrder(step);
    assert FirstPassed(valid, events, states, WIZARD_STEPS[StepIndex(step)], i);
    if step == Resources {
      Remembered(valid, config, events, states, i, step);
      var j := WhenChecked(events, i);
    }
    if step == Summary && states[i].mode.simulated {
      var j := WhenAcknowledged(valid, config, events, states, i);
    }
  }

  /** The last page is reached only after an installation that finished. */
  lemma {:induction false} DoneOnlyAfterInstall(valid: Validator, config: Config, events: seq<Event>,
      states: seq<ShellState>)
    returns (i: nat)
    requires Run(valid, config, events, states) && states[|events|].furthest == Done
    ensures i < |events| && events[i] == InstallFinished && states[i].current == Install
  {
    var moments := EveryGateWasPassed(valid, config, events, states, |events|);
    var passed := moments[StepIndex(Install)];
    StepOrder(Install);
    assert FirstPassed(valid, events, states, WIZARD_STEPS[StepIndex(Install)], passed);
    i := WhenInstallFinished(valid, config, events, states, passed);
  }

  lemma {:induction false} WhenInstallFinished(valid: Validator, config: Config, events: seq<Event>,
      states: seq<ShellState>, n: nat)
    returns (i: nat)
    requires Run(valid, config, events, states) && n <= |events| && states[n].installComplete
    ensures i < n && events[i] == InstallFinished && states[i].current == Install
  {
    if states[n - 1].installComplete {
      i := WhenInstallFinished(valid, config, events, states, n - 1);
    } else {
      i := n - 1;
      assert StepAt(valid, events, states, i);
    }
  }

  // ------------------------------------------------------------------
  // The simulation gate
  // ------------------------------------------------------------------

  predicate Unauthorised(mode: Mode) {
    mode.simulated && !mode.installEnabled
  }

  lemma {:induction false} ModeStep(valid: Validator, config: Config, events: seq<Event>, states: seq<ShellState>,
      i: nat)
    requires Run(valid, config, events, states) && i < |events|
    ensures states[i + 1].mode == if events[i].ModeLoaded? then events[i].mode else states[i].mode
  {
    assert StepAt(valid, events, states, i);
  }

  /** As long as the backend reports a simulation it will not run, the wizard stops at the summary,
   *  whatever is clicked. */
  lemma {:induction false} UnauthorisedStopsAtSummary(valid: Validator, config: Config, events: seq<Event>,
      states: seq<ShellState>, n: nat)
    requires Run(valid, config, events, states) && n <= |events|
    requires forall i :: 0 <= i < n && events[i].ModeLoaded? ==> Unauthorised(events[i].mode)
    ensures Unauthorised(states[n].mode) && StepIndex(states[n].furthest) <= StepIndex(Summary)
  {
    if n > 0 {
      UnauthorisedStopsAtSummary(valid, config, events, states, n - 1);
      RunSound(valid, config, events, states, n - 1);
      StepInRun(valid, config, events, states, n - 1);
      ModeStep(valid, config, events, states, n - 1);
    }
  }

  // ------------------------------------------------------------------
  // Confirmation
  // ------------------------------------------------------------------

  /** Going to another page takes a confirmation back exactly when it leaves the summary backwards or by the stepper. */
  lemma {:induction false} ConfirmationLostIff(valid: Validator, s: ShellState, e: Event)
    requires Sound(s) && Step(valid, s, e).current != s.current
    ensures !Step(valid, s, e).confirmed <==> !s.confirmed || (s.current == Summary && (e == Back || e.Select?))
  {
    match e
    case Next => assert Step(valid, s, e) == Advance(s);
    case AcceptSimulation =>
    case _ =>
  }

  /** An edit never takes a confirmation back, and finds one standing only after the installation was reached. */
  lemma {:induction false} EditUnderConfirmation(valid: Validator, s: ShellState, section: string)
    requires Sound(s) && Step(valid, s, Edit(section)).config != s.config
    ensures Step(valid, s, Edit(section)).confirmed == s.confirmed
    ensures s.confirmed ==> StepIndex(s.furthest) >= StepIndex(Install)
  {
    assert IsConfigStep(s.current);
  }

  lemma {:induction false} ConfirmedStep(valid: Validator, config: Config, events: seq<Event>,
      states: seq<ShellState>, i: nat)
    requires Run(valid, config, events, states) && i < |events| && Sound(states[i])
    requires states[i + 1].confirmed && StepIndex(states[i + 1].furthest) <= StepIndex(Summary)
    ensures states[i + 1].current == Summary && StepIndex(states[i].furthest) <= StepIndex(Summary)
    ensures states[i + 1].config == states[i].config
    ensures states[i].confirmed || events[i] == Confirm(true)
  {
    StepInRun(valid, config, events, states, i);
    assert StepAt(valid, events, states, i);
  }

  /**
   * The configuration installed is the one confirmed: until the installation is first
   * reached, a standing confirmation was given on the summary and nothing was edited since.
   */
  lemma {:induction false} ConfirmedSinceLastEdit(valid: Validator, config: Config, events: seq<Event>,
      states: seq<ShellState>, n: nat)
    returns (i: nat)
    requires Run(valid, config, events, states) && n <= |events|
    requires states[n].confirmed && StepIndex(states[n].furthest) <= StepIndex(Summary)
    ensures i < n && events[i] == Confirm(true)
    ensures forall j :: i < j <= n ==>
        states[j].current == Summary && states[j].confirmed && states[j].config == states[n].config
  {
    RunSound(valid, config, events, states, n - 1);
    ConfirmedStep(valid, config, events, states, n - 1);
    if states[n - 1].confirmed {
      i := ConfirmedSinceLastEdit(valid, config, events, states, n - 1);
    } else {
      i := n - 1;
    }
  }

  // ------------------------------------------------------------------
  // Editing after the installation was reached
  // ------------------------------------------------------------------

  lemma {:induction false} ExtendRun(valid: Validator, config: Config, events: seq<Event>, states: seq<ShellState>,
      e: Event)
    returns (events': seq<Event>, states': seq<ShellState>)
    requires Run(valid, config, events, states)
    ensures Run(valid, config, events', states') && events' == events + [e]
    ensures states' == states + [Step(valid, states[|events|], e)]
  {
    events', states' := events + [e], states + [Step(valid, states[|events|], e)];
    forall i | 0 <= i < |events'|
      ensures StepAt(valid, events', states', i)
    {
      if i < |events| {
        assert StepAt(valid, events, states, i);
      }
    }
  }

  lemma {:induction false} ExtendByNext(valid: Validator, config: Config, events: seq<Event>, states: seq<ShellState>,
      s: ShellState, after: StepId)
    returns (events': seq<Event>, states': seq<ShellState>)
    requires Run(valid, config, events, states) && states[|events|] == s
    requires s.current == s.furthest && NextStepId(s.current) == Some(after) && MayPass(valid, s, Next)
    ensures Run(valid, config, events', states') && |events'| == |events| + 1
    ensures states'[|events'|] == s.(current := after, furthest := after)
  {
    events', states' := ExtendRun(valid, config, events, states, Next);
  }

  /** A configuration all of whose sections are valid. */
  ghost predicate AllValid(valid: Validator, config: Config) {
    forall step :: IsConfigStep(step) ==> valid(step, config.Section(step))
  }

  /** The first page of an installer that is no simulation, the prerequisites checked. */
  function Ready(config: Config): ShellState {
    Initial(config).(mode := Mode(false, true), prereqGateOpen := true)
  }

  lemma {:induction false} ReachSummary(valid: Validator, config: Config)
    returns (events: seq<Event>, states: seq<ShellState>)
    requires AllValid(valid, config)
    ensures Run(valid, config, events, states)
    ensures states[|events|] == Ready(config).(current := Summary, furthest := Summary)
  {
    var s := Ready(config);
    events, states := [], [Initial(config)];
    events, states := ExtendRun(valid, config, events, states, ModeLoaded(Mode(false, true)));
    events, states := ExtendRun(valid, config, events, states, PrereqsChecked(true));
    assert states[|events|] == s;
    events, states := ExtendByNext(valid, config, events, states, s, Basics);
    events, states := ExtendByNext(valid, config, events, states, s.(current := Basics, furthest := Basics), Resources);
    events, states := ExtendByNext(valid, config, events, states, s.(current := Resources, furthest := Resources),
      Storage);
    events, states := ExtendByNext(valid, config, events, states, s.(current := Storage, furthest := Storage),
      Providers);
    events, states := ExtendByNext(valid, config, events, states, s.(current := Providers, furthest := Providers),
      Tenant);
    events, states := ExtendByNext(valid, config, events, states, s.(current := Tenant, furthest := Tenant), Summary);
  }

  lemma {:induction false} ReachInstall(valid: Validator, config: Config)
    returns (events: seq<Event>, states: seq<ShellState>)
    requires AllValid(valid, config)
    ensures Run(valid, config, events, states)
    ensures states[|events|] == Ready(config).(current := Install, furthest := Install, confirmed := true)
  {
    events, states := ReachSummary(valid, config);
    var s := Ready(config).(current := Summary, furthest := Summary);
    events, states := ExtendRun(valid, config, events, states, Confirm(true));
    events, states := ExtendByNext(valid, config, events, states, s.(confirmed := true), Install);
  }

  /**
   * A run in which nothing is checked again: it reaches the installation with every gate
   * passed, goes to a configuration step by the stepper, writes anything at all there, and is
   * back at the installation with the confirmation standing.
   */
  lemma {:induction false} ReturnToInstallUnchecked(valid: Validator, config: Config, step: StepId, section: string)
    returns (events: seq<Event>, states: seq<ShellState>, n: nat)
    requires AllValid(valid, config) && IsConfigStep(step)
    ensures Run(valid, config, events, states)
    ensures |events| == n + 3 && events[n..] == [Select(step), Edit(section), Select(Install)]
    ensures states[n].current == Install && states[n].confirmed && states[n].config == config
    ensures states[n + 3].current == Install && states[n + 3].confirmed
    ensures states[n + 3].config == config.Patch(step, section) && states[n + 3].config.Section(step) == section
  {
    events, states := ReachInstall(valid, config);
    n := |events|;
    events, states := ExtendRun(valid, config, events, states, Select(step));
    var s := Ready(config).(current := step, furthest := Install, confirmed := true);
    assert states[n + 1] == s;
    events, states := ExtendRun(valid, config, events, states, Edit(section));
    assert states[n + 2] == s.(config := config.Patch(step, section));
    events, states := ExtendRun(valid, config, events, states, Select(Install));
  }
}
