/**
 * The installer wizard: the order of its steps, the navigation hook and the shell
 * whose gates decide when the wizard may move on.
 */
module Wizard {
  import opened Prelude

  datatype StepId = Welcome | Basics | Resources | Storage | Providers | Tenant | Summary | Install | Done

  const WIZARD_STEPS := [Welcome, Basics, Resources, Storage, Providers, Tenant, Summary, Install, Done]

  function StepIndex(id: StepId): nat {
    match id
    case Welcome => 0
    case Basics => 1
    case Resources => 2
    case Storage => 3
    case Providers => 4
    case Tenant => 5
    case Summary => 6
    case Install => 7
    case Done => 8
  }

  function NextStepId(id: StepId): Option<StepId> {
    match id
    case Welcome => Some(Basics)
    case Basics => Some(Resources)
    case Resources => Some(Storage)
    case Storage => Some(Providers)
    case Providers => Some(Tenant)
    case Tenant => Some(Summary)
    case Summary => Some(Install)
    case Install => Some(Done)
    case Done => None
  }

  function PreviousStepId(id: StepId): Option<StepId> {
    match id
    case Welcome => None
    case Basics => Some(Welcome)
    case Resources => Some(Basics)
    case Storage => Some(Resources)
    case Providers => Some(Storage)
    case Tenant => Some(Providers)
    case Summary => Some(Tenant)
    case Install => Some(Summary)
    case Done => Some(Install)
  }

  /** The three agree with the one list of steps: its positions, and its neighbours on either side. */
  lemma {:induction false} StepOrder(id: StepId)
    ensures StepIndex(id) < |WIZARD_STEPS| && WIZARD_STEPS[StepIndex(id)] == id
    ensures NextStepId(id) == if StepIndex(id) + 1 < |WIZARD_STEPS| then Some(WIZARD_STEPS[StepIndex(id) + 1]) else None
    ensures PreviousStepId(id) == if StepIndex(id) > 0 then Some(WIZARD_STEPS[StepIndex(id) - 1]) else None
  {
    match id
    case Welcome =>
    case Basics =>
    case Resources =>
    case Storage =>
    case Providers =>
    case Tenant =>
    case Summary =>
    case Install =>
    case Done =>
  }

  predicate IsConfigStep(id: StepId) {
    id == Basics || id == Resources || id == Storage || id == Providers || id == Tenant
  }

  /** The steps that capture something are those between the welcome and the summary. */
  lemma {:induction false} ConfigSteps(id: StepId)
    ensures IsConfigStep(id) <==> StepIndex(Welcome) < StepIndex(id) < StepIndex(Summary)
  {
  }

  /** What the five configuration steps capture; each step edits and validates its own section. */
  datatype Config = Config(basics: string, resources: string, storage: string, providers: string, tenant: string) {
    function Section(step: StepId): string {
      match step
      case Basics => basics
      case Resources => resources
      case Storage => storage
      case Providers => providers
      case Tenant => tenant
      case _ => ""
    }

    function Patch(step: StepId, section: string): Config {
      match step
      case Basics => this.(basics := section)
      case Resources => this.(resources := section)
      case Storage => this.(storage := section)
      case Providers => this.(providers := section)
      case Tenant => this.(tenant := section)
      case _ => this
    }
  }

  /** A patch writes the section of its step and no other. */
  lemma {:induction false} PatchedSection(c: Config, step: StepId, section: string, other: StepId)
    requires IsConfigStep(step) && IsConfigStep(other)
    ensures c.Patch(step, section).Section(other) == if other == step then section else c.Section(other)
  {
  }

  /** Whether the section of a step has no error. */
  type Validator = (StepId, string) -> bool

  datatype Mode = Mode(simulated: bool, installEnabled: bool)

  /** The mode until the backend answers, and for ever if it does not. */
  const ASSUMED_SIMULATION := Mode(true, false)

  // ------------------------------------------------------------------
  // The state and what each user action or callback does to it
  // ------------------------------------------------------------------

  datatype ShellState = ShellState(
    current: StepId, furthest: StepId,
    config: Config, mode: Mode,
    gateOpen: bool, acknowledged: bool,
    prereqGateOpen: bool, confirmed: bool, installComplete: bool,
    showErrorsFor: set<StepId>)

  datatype Event =
    | Next | Back | Select(id: StepId)
    | Acknowledge(value: bool) | AcceptSimulation | CancelSimulation
    | Confirm(value: bool) | Edit(section: string)
    | PrereqsChecked(canProceed: bool) | ModeLoaded(mode: Mode) | InstallFinished

  function Initial(config: Config): ShellState {
    ShellState(Welcome, Welcome, config, ASSUMED_SIMULATION, false, false, false, false, false, {})
  }

  function Advance(s: ShellState): ShellState {
    match NextStepId(s.current)
    case None => s
    case Some(next) =>
      s.(current := next, furthest := if StepIndex(next) > StepIndex(s.furthest) then next else s.furthest)
  }

  predicate NextDisabled(s: ShellState) {
    || s.current == Done
    || (s.current == Resources && !s.prereqGateOpen)
    || (s.current == Summary && !s.confirmed)
    || (s.current == Install && !s.installComplete)
  }

  /** The checks behind the next button, in their order. */
  function OnNext(valid: Validator, s: ShellState): ShellState {
    if s.current == Summary && s.mode.simulated && !s.gateOpen then s.(gateOpen := true, acknowledged := false)
    else if IsConfigStep(s.current) && !valid(s.current, s.config.Section(s.current)) then
      s.(showErrorsFor := s.showErrorsFor + {s.current})
    else if s.current == Resources && !s.prereqGateOpen then s
    else if s.current == Summary && !s.confirmed then s
    else if s.current == Install && !s.installComplete then s
    else Advance(s)
  }

  function OnBack(s: ShellState): ShellState {
    var unconfirmed := if s.current == Summary then s.(confirmed := false) else s;
    unconfirmed.(current := PreviousStepId(s.current).GetOr(s.current))
  }

  function OnSelect(s: ShellState, id: StepId): ShellState {
    var unconfirmed := if s.current == Summary && id != Summary then s.(confirmed := false) else s;
    if StepIndex(id) > StepIndex(s.furthest) then unconfirmed else unconfirmed.(current := id)
  }

  /** One atomic action; a control that is disabled, absent or behind the dialog does nothing. */
  function Step(valid: Validator, s: ShellState, e: Event): ShellState {
    match e
    case Next => if s.gateOpen || NextDisabled(s) then s else OnNext(valid, s)
    case Back => if s.gateOpen || s.current == Welcome || s.current == Install then s else OnBack(s)
    case Select(id) => if s.gateOpen || StepIndex(id) > StepIndex(s.furthest) then s else OnSelect(s, id)
    case Acknowledge(value) => if s.gateOpen && s.mode.installEnabled then s.(acknowledged := value) else s
    case AcceptSimulation =>
      if s.gateOpen && s.mode.installEnabled && s.acknowledged
      then Advance(s.(gateOpen := false, acknowledged := false))
      else s
    case CancelSimulation => if s.gateOpen then s.(gateOpen := false, acknowledged := false) else s
    case Confirm(value) => if s.current == Summary && !s.gateOpen then s.(confirmed := value) else s
    case Edit(section) =>
      if IsConfigStep(s.current) && !s.gateOpen then s.(config := s.config.Patch(s.current, section)) else s
    case PrereqsChecked(canProceed) => s.(prereqGateOpen := canProceed)
    case ModeLoaded(mode) => s.(mode := mode)
    case InstallFinished => if s.current == Install then s.(installComplete := true) else s
  }

  // ------------------------------------------------------------------
  // The navigation hook
  // ------------------------------------------------------------------

  class WizardController {
    var current: StepId
    var furthest: StepId

    constructor ()
      ensures current == furthest == Welcome
    {
      current, furthest := Welcome, Welcome;
    }

    /** One step forward; the furthest step only ever moves with it. */
    method Forward()
      modifies this
      ensures StepIndex(current) == if old(current) == Done then StepIndex(Done) else StepIndex(old(current)) + 1
      ensures furthest
          == if old(current) != Done && StepIndex(current) > StepIndex(old(furthest)) then current else old(furthest)
    {
      var next := NextStepId(current);
      if next == None {
        return;
      }
      if StepIndex(next.value) > StepIndex(furthest) {
        furthest := next.value;
      }
      current := next.value;
    }

    method GoBack()
      modifies this`current
      ensures StepIndex(current) == if old(current) == Welcome then 0 else StepIndex(old(current)) - 1
    {
      current := PreviousStepId(current).GetOr(current);
    }

    /** Jumps to a visited step and refuses any other. */
    method GoTo(id: StepId)
      modifies this`current
      ensures current == if StepIndex(id) <= StepIndex(furthest) then id else old(current)
    {
      if StepIndex(id) > StepIndex(furthest) {
        return;
      }
      current := id;
    }
  }

  // ------------------------------------------------------------------
  // The shell
  // ------------------------------------------------------------------

  class WizardShell {
    const valid: Validator
    const wizard: WizardController
    var config: Config
    var mode: Mode
    var gateOpen: bool
    var acknowledged: bool
    var prereqGateOpen: bool
    var confirmed: bool
    var installComplete: bool
    var showErrorsFor: set<StepId>

    constructor (valid: Validator, config: Config)
      ensures fresh(wizard) && this.valid == valid && State() == Initial(config)
    {
      this.valid := valid;
      this.wizard := new WizardController();
      this.config, this.mode := config, ASSUMED_SIMULATION;
      this.gateOpen, this.acknowledged, this.prereqGateOpen := false, false, false;
      this.confirmed, this.installComplete, this.showErrorsFor := false, false, {};
    }

    function State(): ShellState
      reads this, wizard
    {
      ShellState(wizard.current, wizard.furthest, config, mode, gateOpen, acknowledged,
                 prereqGateOpen, confirmed, installComplete, showErrorsFor)
    }

    method AdvanceWizard()
      modifies wizard
      ensures State() == Advance(old(State()))
    {
      wizard.Forward();
    }

    method HandleNext()
      modifies this, wizard
      ensures State() == OnNext(valid, old(State()))
    {
      var step := wizard.current;
      if step == Summary && mode.simulated && !gateOpen {
        gateOpen, acknowledged := true, false;
        return;
      }
      if IsConfigStep(step) && !valid(step, config.Section(step)) {
        showErrorsFor := showErrorsFor + {step};
        return;
      }
      if step == Resources && !prereqGateOpen {
        return;
      }
      if step == Summary && !confirmed {
        return;
      }
      if step == Install && !installComplete {
        return;
      }
      AdvanceWizard();
    }

    method HandleBack()
      modifies this, wizard
      ensures State() == OnBack(old(State()))
    {
      if wizard.current == Summary {
        confirmed := false;
      }
      wizard.GoBack();
    }

    method HandleGoTo(id: StepId)
      modifies this, wizard
      ensures State() == OnSelect(old(State()), id)
    {
      if wizard.current == Summary && id != Summary {
        confirmed := false;
      }
      wizard.GoTo(id);
    }

    method HandleAccept()
      requires gateOpen && mode.installEnabled && acknowledged
      modifies this, wizard
      ensures State() == Step(valid, old(State()), AcceptSimulation)
    {
      gateOpen, acknowledged := false, false;
      AdvanceWizard();
    }

    /** The page reacting to one action or callback. */
    method Handle(e: Event)
      modifies this, wizard
      ensures State() == Step(valid, old(State()), e)
    {
      match e
      case Next =>
        if !gateOpen && !NextDisabled(State()) {
          HandleNext();
        }
      case Back =>
        if !gateOpen && wizard.current != Welcome && wizard.current != Install {
          HandleBack();
        }
      case Select(id) =>
        if !gateOpen && StepIndex(id) <= StepIndex(wizard.furthest) {
          HandleGoTo(id);
        }
      case Acknowledge(value) =>
        if gateOpen && mode.installEnabled {
          acknowledged := value;
        }
      case AcceptSimulation =>
        if gateOpen && mode.installEnabled && acknowledged {
          HandleAccept();
        }
      case CancelSimulation =>
        if gateOpen {
          gateOpen, acknowledged := false, false;
        }
      case Confirm(value) =>
        if wizard.current == Summary && !gateOpen {
          confirmed := value;
        }
      case Edit(section) =>
        if IsConfigStep(wizard.current) && !gateOpen {
          config := config.Patch(wizard.current, section);
        }
      case PrereqsChecked(canProceed) => prereqGateOpen := canProceed;
      case ModeLoaded(m) => mode := m;
      case InstallFinished =>
        if wizard.current == Install {
          installComplete := true;
        }
    }
  }
}
