/**
 * The progress of an installation: events cut out of a stream of text, and the
 * state they are folded into.
 */
module InstallStream {
  import opened Prelude
  import opened Text
  import opened SseFrames

  const STEP_IDS: seq<string> := ["generate_config", "pull_images", "start_stack", "bootstrap_vault", "seed_tenant"]

  datatype ProgressEvent = ProgressEvent(stage: string, message: string, percent: int, done: bool, failed: bool)
  datatype LogLine = LogLine(stage: string, message: string, failed: bool)
  datatype StepStatus = Pending | Running | Completed | StepFailed
  datatype Phase = Idle | InProgress | Done | Failed | Aborted

  datatype InstallState = InstallState(
    phase: Phase, stepStatus: map<string, StepStatus>, log: seq<LogLine>, percent: int, error: Option<string>)

  function InitialStatus(): (m: map<string, StepStatus>)
    ensures forall s :: s in m <==> s in STEP_IDS
    ensures forall s :: s in m ==> m[s] == Pending
  {
    map s | s in STEP_IDS :: Pending
  }

  const COMPLETED_SUFFIX := "completado."

  predicate Completes(message: string) {
    EndsWith(message, COMPLETED_SUFFIX)
  }

  /** What one event makes of the status of its step. */
  function StepAfter(status: StepStatus, e: ProgressEvent): StepStatus {
    if e.failed then StepFailed
    else if e.done then status
    else if Completes(e.message) then Completed
    else if status == Pending then Running
    else status
  }

  function StatusAfter(status: map<string, StepStatus>, e: ProgressEvent): map<string, StepStatus> {
    if e.stage in STEP_IDS && e.stage in status then status[e.stage := StepAfter(status[e.stage], e)] else status
  }

  /** The state after one event. */
  function Apply(s: InstallState, e: ProgressEvent): InstallState {
    InstallState(
      if e.failed then Failed else if e.done then Done else s.phase,
      StatusAfter(s.stepStatus, e),
      if e.done && !e.failed then s.log else s.log + [LogLine(e.stage, e.message, e.failed)],
      if e.done && !e.failed then 100 else e.percent,
      if e.failed then Some(e.message) else s.error)
  }

  function ApplyAll(s: InstallState, events: seq<ProgressEvent>): InstallState {
    if events == [] then s else Apply(ApplyAll(s, events[..|events| - 1]), events[|events| - 1])
  }

  // ------------------------------------------------------------------
  // From text to events
  // ------------------------------------------------------------------

  function LinePayload(line: string): Option<string> {
    if StartsWith(line, "data:") && Trim(line[5..]) != "" then Some(Trim(line[5..])) else None
  }

  /** The payloads of the data lines, one event each. */
  function LinesPayloads(lines: seq<string>): seq<string> {
    if lines == [] then []
    else
      var n := |lines| - 1;
      LinesPayloads(lines[..n]) + (if LinePayload(lines[n]).Some? then [LinePayload(lines[n]).value] else [])
  }

  function FramesPayloads(frames: seq<string>): seq<string> {
    if frames == [] then []
    else
      var n := |frames| - 1;
      FramesPayloads(frames[..n]) + LinesPayloads(SplitLines(frames[n]))
  }

  /** JSON.parse, as a partial function. */
  type Parser = string -> Option<ProgressEvent>

  /** Events up to the first payload that does not parse; that one throws. */
  datatype Delivery = Delivery(events: seq<ProgressEvent>, threw: bool)

  function Deliver(parse: Parser, payloads: seq<string>): Delivery {
    if payloads == [] then Delivery([], false)
    else
      var before := Deliver(parse, payloads[..|payloads| - 1]);
      if before.threw then before
      else
        match parse(payloads[|payloads| - 1])
        case None => Delivery(before.events, true)
        case Some(e) => Delivery(before.events + [e], false)
  }

  lemma {:induction false} PayloadsJoin(a: seq<string>, b: seq<string>)
    ensures FramesPayloads(a + b) == FramesPayloads(a) + FramesPayloads(b)
  {
    if b == [] {
      assert a + b == a;
    } else {
      var front, last := b[..|b| - 1], b[|b| - 1];
      PayloadsJoin(a, front);
      FrontLast(b);
      Associative(a, front, [last]);
      FramesPayloadsSnoc(front, last);
      FramesPayloadsSnoc(a + front, last);
      Associative(FramesPayloads(a), FramesPayloads(front), LinesPayloads(SplitLines(last)));
    }
  }

  /** After a payload that throws, the rest does not matter. */
  lemma {:induction false} DeliverStopped(parse: Parser, a: seq<string>, b: seq<string>)
    requires Deliver(parse, a).threw
    ensures Deliver(parse, a + b) == Deliver(parse, a)
  {
    if b == [] {
      assert a + b == a;
    } else {
      DeliverStopped(parse, a, b[..|b| - 1]);
      assert (a + b)[..|a + b| - 1] == a + b[..|b| - 1];
    }
  }

  // ------------------------------------------------------------------
  // The controller
  // ------------------------------------------------------------------

  class Install {
    var phase: Phase
    var stepStatus: map<string, StepStatus>
    var log: seq<LogLine>
    var percent: int
    var error: Option<string>

    ghost function State(): InstallState
      reads this
    {
      InstallState(phase, stepStatus, log, percent, error)
    }

    ghost predicate Valid()
      reads this
    {
      forall s :: s in stepStatus <==> s in STEP_IDS
    }

    constructor ()
      ensures Valid() && State() == InstallState(Idle, InitialStatus(), [], 0, None)
    {
      phase, stepStatus, log, percent, error := Idle, InitialStatus(), [], 0, None;
    }

    method HandleEvent(e: ProgressEvent)
      requires Valid()
      modifies this
      ensures Valid() && State() == Apply(old(State()), e)
    {
      percent := e.percent;
      if e.failed {
        error := Some(e.message);
        phase := Failed;
        if e.stage in STEP_IDS {
          stepStatus := stepStatus[e.stage := StepFailed];
        }
        log := log + [LogLine(e.stage, e.message, true)];
        return;
      }
      if e.done {
        phase := Done;
        percent := 100;
        if e.stage in STEP_IDS {
          assert stepStatus == stepStatus[e.stage := stepStatus[e.stage]];
        }
        return;
      }
      if e.stage in STEP_IDS {
        if Completes(e.message) {
          stepStatus := stepStatus[e.stage := Completed];
        } else if stepStatus[e.stage] == Pending {
          stepStatus := stepStatus[e.stage := Running];
        } else {
          assert stepStatus == stepStatus[e.stage := stepStatus[e.stage]];
        }
      }
      log := log + [LogLine(e.stage, e.message, false)];
    }
  }

  /** One line of a frame: the state after it, and whether its payload failed to parse. */
  ghost function AfterLine(parse: Parser, s: InstallState, line: string): (InstallState, bool) {
    match LinePayload(line)
    case None => (s, false)
    case Some(payload) =>
      match parse(payload)
      case None => (s, true)
      case Some(e) => (Apply(s, e), false)
  }

  method HandleLine(install: Install, parse: Parser, line: string) returns (threw: bool)
    requires install.Valid()
    modifies install
    ensures install.Valid() && (install.State(), threw) == AfterLine(parse, old(install.State()), line)
  {
    threw := false;
    if StartsWith(line, "data:") {
      var payload := Trim(line[5..]);
      if payload != "" {
        match parse(payload)
        case None => threw := true;
        case Some(e) => install.HandleEvent(e);
      }
    }
  }

  /** The i-th line of a frame, after the payloads and lines seen so far. */
  method HandleNextLine(install: Install, parse: Parser, lines: seq<string>, i: nat, ghost payloads: seq<string>,
      ghost start: InstallState)
    returns (threw: bool)
    requires install.Valid() && i < |lines| && !DeliveredLines(parse, payloads, lines, i).threw
    requires install.State() == ApplyAll(start, DeliveredLines(parse, payloads, lines, i).events)
    modifies install
    ensures install.Valid()
    ensures var d := DeliveredLines(parse, payloads, lines, if threw then |lines| else i + 1);
      d.threw == threw && install.State() == ApplyAll(start, d.events)
  {
    LinesEnds(parse, payloads, lines);
    LineApplied(parse, payloads, lines, i, start);
    threw := HandleLine(install, parse, lines[i]);
  }

  /** The handler of one frame; a payload that does not parse throws and ends the stream. */
  method HandleFrame(install: Install, parse: Parser, frame: string, ghost seen: seq<string>, ghost start: InstallState)
    returns (threw: bool)
    requires install.Valid() && !Deliver(parse, FramesPayloads(seen)).threw
    requires install.State() == ApplyAll(start, Deliver(parse, FramesPayloads(seen)).events)
    modifies install
    ensures install.Valid()
    ensures threw == Deliver(parse, FramesPayloads(seen + [frame])).threw
    ensures install.State() == ApplyAll(start, Deliver(parse, FramesPayloads(seen + [frame])).events)
  {
    var lines := SplitLines(frame);
    ghost var payloads := FramesPayloads(seen);
    FramesPayloadsSnoc(seen, frame);
    threw := false;
    var i := 0;
    LinesEnds(parse, payloads, lines);
    while i < |lines|
      invariant 0 <= i <= |lines| && install.Valid() && !threw
      invariant !DeliveredLines(parse, payloads, lines, i).threw
      invariant install.State() == ApplyAll(start, DeliveredLines(parse, payloads, lines, i).events)
    {
      threw := HandleNextLine(install, parse, lines, i, payloads, start);
      if threw {
        return;
      }
      i := i + 1;
    }
  }

  lemma {:induction false} LineApplied(parse: Parser, payloads: seq<string>, lines: seq<string>, i: nat,
      start: InstallState)
    requires i < |lines| && !DeliveredLines(parse, payloads, lines, i).threw
    ensures var after := AfterLine(parse, ApplyAll(start, DeliveredLines(parse, payloads, lines, i).events), lines[i]);
            var next := DeliveredLines(parse, payloads, lines, i + 1);
            var whole := Deliver(parse, payloads + LinesPayloads(lines));
            if after.1 then whole.threw && after.0 == ApplyAll(start, whole.events)
            else !next.threw && after.0 == ApplyAll(start, next.events)
  {
    LineStep(parse, payloads, lines, i);
    var payload := LinePayload(lines[i]);
    if payload.Some? && parse(payload.value).Some? {
      ApplySnoc(start, DeliveredLines(parse, payloads, lines, i).events, parse(payload.value).value);
    }
  }

  lemma {:induction false} ApplySnoc(s: InstallState, events: seq<ProgressEvent>, e: ProgressEvent)
    ensures ApplyAll(s, events + [e]) == Apply(ApplyAll(s, events), e)
  {
    assert (events + [e])[..|events|] == events;
  }

  /** What has been delivered once the first i lines of a frame are read. */
  ghost function DeliveredLines(parse: Parser, payloads: seq<string>, lines: seq<string>, i: nat): Delivery
    requires i <= |lines|
  {
    Deliver(parse, payloads + LinesPayloads(lines[..i]))
  }

  lemma {:induction false} LinesEnds(parse: Parser, payloads: seq<string>, lines: seq<string>)
    ensures DeliveredLines(parse, payloads, lines, 0) == Deliver(parse, payloads)
    ensures DeliveredLines(parse, payloads, lines, |lines|) == Deliver(parse, payloads + LinesPayloads(lines))
  {
    assert payloads + LinesPayloads(lines[..0]) == payloads;
    assert lines[..|lines|] == lines;
  }

  lemma {:induction false} LinesPayloadsTake(lines: seq<string>, i: nat)
    requires i < |lines|
    ensures LinesPayloads(lines[..i + 1])
         == LinesPayloads(lines[..i]) + (if LinePayload(lines[i]).Some? then [LinePayload(lines[i]).value] else [])
  {
    assert lines[..i + 1][..i] == lines[..i];
  }

  lemma {:induction false} LineStep(parse: Parser, payloads: seq<string>, lines: seq<string>, i: nat)
    requires i < |lines| && !DeliveredLines(parse, payloads, lines, i).threw
    ensures LinePayload(lines[i]) == None ==>
      DeliveredLines(parse, payloads, lines, i + 1) == DeliveredLines(parse, payloads, lines, i)
    ensures LinePayload(lines[i]).Some? && parse(LinePayload(lines[i]).value) == None ==>
      Deliver(parse, payloads + LinesPayloads(lines))
        == Delivery(DeliveredLines(parse, payloads, lines, i).events, true)
    ensures LinePayload(lines[i]).Some? && parse(LinePayload(lines[i]).value).Some? ==>
      DeliveredLines(parse, payloads, lines, i + 1)
        == Delivery(DeliveredLines(parse, payloads, lines, i).events
          + [parse(LinePayload(lines[i]).value).value], false)
  {
    LinesPayloadsTake(lines, i);
    if LinePayload(lines[i]).Some? {
      PayloadStep(parse, payloads, lines, i);
      if parse(LinePayload(lines[i]).value) == None {
        RestIgnored(parse, payloads, lines, i + 1);
      }
    } else {
      assert LinesPayloads(lines[..i]) + [] == LinesPayloads(lines[..i]);
    }
  }

  lemma {:induction false} DeliverSnoc(parse: Parser, payloads: seq<string>, payload: string)
    requires !Deliver(parse, payloads).threw
    ensures Deliver(parse, payloads + [payload]) ==
      match parse(payload)
      case None => Delivery(Deliver(parse, payloads).events, true)
      case Some(e) => Delivery(Deliver(parse, payloads).events + [e], false)
  {
    assert (payloads + [payload])[..|payloads|] == payloads;
  }

  lemma {:induction false} PayloadStep(parse: Parser, payloads: seq<string>, lines: seq<string>, i: nat)
    requires i < |lines| && LinePayload(lines[i]).Some?
    requires !DeliveredLines(parse, payloads, lines, i).threw
    ensures DeliveredLines(parse, payloads, lines, i + 1) ==
      match parse(LinePayload(lines[i]).value)
      case None => Delivery(DeliveredLines(parse, payloads, lines, i).events, true)
      case Some(e) => Delivery(DeliveredLines(parse, payloads, lines, i).events + [e], false)
  {
    LinesPayloadsTake(lines, i);
    Associative(payloads, LinesPayloads(lines[..i]), [LinePayload(lines[i]).value]);
    DeliverSnoc(parse, payloads + LinesPayloads(lines[..i]), LinePayload(lines[i]).value);
  }

  lemma {:induction false} RestIgnored(parse: Parser, payloads: seq<string>, lines: seq<string>, i: nat)
    requires i <= |lines| && DeliveredLines(parse, payloads, lines, i).threw
    ensures Deliver(parse, payloads + LinesPayloads(lines)) == DeliveredLines(parse, payloads, lines, i)
  {
    SplitPayloads(payloads, lines, i);
    DeliverStopped(parse, payloads + LinesPayloads(lines[..i]), LinesPayloads(lines[i..]));
  }

  lemma {:induction false} PayloadsOfHalves(lines: seq<string>, i: nat)
    requires i <= |lines|
    ensures LinesPayloads(lines) == LinesPayloads(lines[..i]) + LinesPayloads(lines[i..])
  {
    LinesPayloadsJoin(lines[..i], lines[i..]);
    TakeDrop(lines, i);
  }

  lemma {:induction false} SplitPayloads(payloads: seq<string>, lines: seq<string>, i: nat)
    requires i <= |lines|
    ensures payloads + LinesPayloads(lines) == (payloads + LinesPayloads(lines[..i])) + LinesPayloads(lines[i..])
  {
    PayloadsOfHalves(lines, i);
    Associative(payloads, LinesPayloads(lines[..i]), LinesPayloads(lines[i..]));
  }

  lemma {:induction false} LinesPayloadsJoin(a: seq<string>, b: seq<string>)
    ensures LinesPayloads(a + b) == LinesPayloads(a) + LinesPayloads(b)
  {
    if b == [] {
      assert a + b == a;
    } else {
      LinesPayloadsJoin(a, b[..|b| - 1]);
      assert (a + b)[..|a + b| - 1] == a + b[..|b| - 1];
    }
  }

  // ------------------------------------------------------------------
  // The stream
  // ------------------------------------------------------------------

  /** Everything the complete frames of a text deliver. */
  ghost function DeliveredBy(parse: Parser, text: string): Delivery {
    Deliver(parse, FramesPayloads(CutFrames(text).frames))
  }

  /** The loop over the frames in the buffer: what is left has no complete frame. */
  method FlushFrames(install: Install, parse: Parser, buffer0: string, ghost before: seq<string>,
      ghost start: InstallState)
    returns (buffer: string, threw: bool)
    requires install.Valid() && !Deliver(parse, FramesPayloads(before)).threw
    requires install.State() == ApplyAll(start, Deliver(parse, FramesPayloads(before)).events)
    modifies install
    ensures install.Valid()
    ensures threw == Deliver(parse, FramesPayloads(before + CutFrames(buffer0).frames)).threw
    ensures install.State() == ApplyAll(start,
        Deliver(parse, FramesPayloads(before + CutFrames(buffer0).frames)).events)
    ensures !threw ==> buffer == CutFrames(buffer0).rest
  {
    buffer, threw := buffer0, false;
    ghost var seen := before;
    ghost var total, rest := before + CutFrames(buffer0).frames, CutFrames(buffer0).rest;
    var delimiter := FrameEnd(buffer);
    while delimiter.Some?
      invariant install.Valid() && !threw && delimiter == FrameEnd(buffer)
      invariant !Deliver(parse, FramesPayloads(seen)).threw
      invariant install.State() == ApplyAll(start, Deliver(parse, FramesPayloads(seen)).events)
      invariant seen + CutFrames(buffer).frames == total
      invariant CutFrames(buffer).rest == rest
      decreases |buffer|
    {
      ghost var frame := buffer[..delimiter.value];
      buffer, threw := HandleNextFrame(install, parse, buffer, delimiter.value, seen, start);
      if threw {
        return;
      }
      seen := seen + [frame];
      delimiter := FrameEnd(buffer);
    }
    NothingLeft(seen, buffer, total);
  }

  /** One round of the loop: the frame before the n-th character, after those seen so far. */
  method HandleNextFrame(install: Install, parse: Parser, buffer0: string, n: nat, ghost seen: seq<string>,
      ghost start: InstallState)
    returns (buffer: string, threw: bool)
    requires install.Valid() && !Deliver(parse, FramesPayloads(seen)).threw && FrameEnd(buffer0) == Some(n)
    requires install.State() == ApplyAll(start, Deliver(parse, FramesPayloads(seen)).events)
    modifies install
    ensures install.Valid() && n + 2 <= |buffer0| && buffer == buffer0[n + 2..]
    ensures seen + CutFrames(buffer0).frames == seen + [buffer0[..n]] + CutFrames(buffer).frames
    ensures CutFrames(buffer0).rest == CutFrames(buffer).rest
    ensures var d := Deliver(parse, FramesPayloads(if threw then seen + CutFrames(buffer0).frames
                                                   else seen + [buffer0[..n]]));
      d.threw == threw && install.State() == ApplyAll(start, d.events)
  {
    FrameMoves(seen, buffer0, n);
    var frame := buffer0[..n];
    buffer := buffer0[n + 2..];
    threw := HandleFrame(install, parse, frame, seen, start);
    if threw {
      StoppedWithin(parse, seen + [frame], CutFrames(buffer).frames, seen + CutFrames(buffer0).frames);
    }
  }

  lemma {:induction false} StoppedWithin(parse: Parser, a: seq<string>, b: seq<string>, all: seq<string>)
    requires a + b == all && Deliver(parse, FramesPayloads(a)).threw
    ensures Deliver(parse, FramesPayloads(all)) == Deliver(parse, FramesPayloads(a))
  {
    FramesStopped(parse, a, b);
  }

  lemma {:induction false} NothingLeft(seen: seq<string>, buffer: string, all: seq<string>)
    requires FrameEnd(buffer) == None && seen + CutFrames(buffer).frames == all
    ensures seen == all && CutFrames(buffer).rest == buffer
  {
    CutRest(buffer);
  }

  lemma {:induction false} FramesPayloadsSnoc(frames: seq<string>, frame: string)
    ensures FramesPayloads(frames + [frame]) == FramesPayloads(frames) + LinesPayloads(SplitLines(frame))
  {
    assert (frames + [frame])[..|frames|] == frames;
  }

  lemma {:induction false} FramesStopped(parse: Parser, a: seq<string>, b: seq<string>)
    requires Deliver(parse, FramesPayloads(a)).threw
    ensures Deliver(parse, FramesPayloads(a + b)) == Deliver(parse, FramesPayloads(a))
  {
    PayloadsJoin(a, b);
    DeliverStopped(parse, FramesPayloads(a), FramesPayloads(b));
  }

  /** How reading the response ends: by itself, or with an error. */
  datatype StreamEnd = Complete | Broke(message: string)

  /** The text whose complete frames count: a stream that ends by itself has its last frame closed. */
  function TextRead(chunks: seq<string>, end: StreamEnd): string {
    if end.Broke? then Concat(chunks) else Concat(chunks) + "\n\n"
  }

  /**
   * Reading the stream chunk by chunk delivers what one pass over the whole text
   * delivers, and fails with the first payload that does not parse, else with the
   * error that broke the stream off.
   */
  method StreamInstall(install: Install, parse: Parser, parseError: string, chunks: seq<string>, end: StreamEnd)
    returns (error: Option<string>)
    requires install.Valid()
    modifies install
    ensures install.Valid()
    ensures var d := DeliveredBy(parse, TextRead(chunks, end));
      && install.State() == ApplyAll(old(install.State()), d.events)
      && error == if d.threw then Some(parseError) else if end.Broke? then Some(end.message) else None
  {
    ghost var start := install.State();
    var buffer, threw := "", false;
    var i := 0;
    assert chunks[..0] == [];
    while i < |chunks|
      invariant 0 <= i <= |chunks| && install.Valid()
      invariant !DeliveredBy(parse, Concat(chunks[..i])).threw
      invariant install.State() == ApplyAll(start, DeliveredBy(parse, Concat(chunks[..i])).events)
      invariant buffer == CutFrames(Concat(chunks[..i])).rest
    {
      ghost var text := Concat(chunks[..i]);
      ConcatTake(chunks, i);
      CutJoin(text, chunks[i]);
      buffer := buffer + chunks[i];
      buffer, threw := FlushFrames(install, parse, buffer, CutFrames(text).frames, start);
      i := i + 1;
      if threw {
        LaterIgnored(parse, chunks, i, "\n\n");
        LaterIgnored(parse, chunks, i, "");
        assert Concat(chunks) + "" == Concat(chunks);
        return Some(parseError);
      }
    }
    assert chunks[..|chunks|] == chunks;
    if end.Broke? {
      return Some(end.message);
    }
    CutJoin(Concat(chunks), "\n\n");
    buffer := buffer + "\n\n";
    buffer, threw := FlushFrames(install, parse, buffer, CutFrames(Concat(chunks)).frames, start);
    error := if threw then Some(parseError) else None;
  }

  /** After a payload that throws, no later text matters. */
  lemma {:induction false} LaterIgnored(parse: Parser, chunks: seq<string>, i: nat, tail: string)
    requires i <= |chunks| && DeliveredBy(parse, Concat(chunks[..i])).threw
    ensures DeliveredBy(parse, Concat(chunks) + tail) == DeliveredBy(parse, Concat(chunks[..i]))
    decreases |chunks| - i
  {
    if i == |chunks| {
      assert chunks[..i] == chunks;
      TextStopped(parse, Concat(chunks), tail);
    } else {
      ConcatTake(chunks, i);
      TextStopped(parse, Concat(chunks[..i]), chunks[i]);
      LaterIgnored(parse, chunks, i + 1, tail);
    }
  }

  lemma {:induction false} TextStopped(parse: Parser, a: string, b: string)
    requires DeliveredBy(parse, a).threw
    ensures DeliveredBy(parse, a + b) == DeliveredBy(parse, a)
  {
    CutJoin(a, b);
    FramesStopped(parse, CutFrames(a).frames, CutFrames(CutFrames(a).rest + b).frames);
  }

  // ------------------------------------------------------------------
  // What a server has to write
  // ------------------------------------------------------------------

  /** A payload is what stands behind "data:", without the blanks around it ... */
  lemma {:induction false} LinePayloadIs(a: string, p: string, b: string)
    requires AllBlank(a) && AllBlank(b) && Trimmed(p) && p != ""
    ensures LinePayload("data:" + a + p + b) == Some(p)
  {
    var line := "data:" + a + p + b;
    assert line[5..] == a + p + b && line[..5] == "data:";
    TrimIs(a, p, b);
  }

  /** ... and a line that does not begin so, or has only blanks behind it, carries none. */
  lemma {:induction false} NoPayloadIff(line: string)
    ensures LinePayload(line) == None <==> !("data:" <= line) || AllBlank(line[5..])
  {
    if "data:" <= line {
      TrimAgree(line[5..]);
      NoWords(line[5..]);
    }
  }

  /** The events are those of the payloads, in order, up to the first that does not parse. */
  lemma {:induction false} DeliveredInOrder(parse: Parser, payloads: seq<string>)
    ensures var d := Deliver(parse, payloads);
      && |d.events| <= |payloads|
      && (forall k :: 0 <= k < |d.events| ==> parse(payloads[k]) == Some(d.events[k]))
      && (if d.threw then |d.events| < |payloads| && parse(payloads[|d.events|]) == None
          else |d.events| == |payloads|)
  {
    if payloads != [] {
      DeliveredInOrder(parse, payloads[..|payloads| - 1]);
    }
  }

  function Lined(frames: seq<seq<string>>): seq<string> {
    if frames == [] then [] else frames[0] + Lined(frames[1..])
  }

  lemma {:induction false} FrameCarries(lines: seq<string>)
    requires Sendable(lines)
    ensures FramesPayloads([JoinLines(lines)]) == LinesPayloads(lines)
  {
    SplitOfJoined(lines);
    FramesPayloadsSnoc([], JoinLines(lines));
    assert [] + [JoinLines(lines)] == [JoinLines(lines)];
  }

  lemma {:induction false} JoinedPayloads(frames: seq<seq<string>>)
    requires forall f :: f in frames ==> Sendable(f)
    ensures FramesPayloads(Joined(frames)) == LinesPayloads(Lined(frames))
  {
    if frames != [] {
      JoinedPayloads(frames[1..]);
      assert Sendable(frames[0]);
      FrameCarries(frames[0]);
      PayloadsJoin([JoinLines(frames[0])], Joined(frames[1..]));
      LinesPayloadsJoin(frames[0], Lined(frames[1..]));
    }
  }

  /** The text of whole frames, and of one that ends without its blank line; [] if there is none. */
  function SentText(frames: seq<seq<string>>, last: seq<string>): string {
    FramesText(frames) + JoinLines(last)
  }

  lemma {:induction false} WholeFramesDeliver(parse: Parser, frames: seq<seq<string>>, tail: string)
    requires (forall f :: f in frames ==> Sendable(f)) && FrameEnd(tail) == None
    ensures DeliveredBy(parse, FramesText(frames) + tail) == Deliver(parse, LinesPayloads(Lined(frames)))
  {
    FramesArrive(frames, tail);
    JoinedPayloads(frames);
  }

  /** Closed by a blank line, the last frame counts too. */
  lemma {:induction false} LastFrameDelivers(parse: Parser, frames: seq<seq<string>>, last: seq<string>)
    requires (forall f :: f in frames ==> Sendable(f)) && (last == [] || Sendable(last))
    ensures DeliveredBy(parse, SentText(frames, last) + "\n\n")
         == Deliver(parse, LinesPayloads(Lined(frames) + last))
  {
    if last == [] {
      EmptyLastFrame(parse, frames);
      assert SentText(frames, []) == FramesText(frames) && Lined(frames) + [] == Lined(frames);
    } else {
      FramesTextSnoc(frames, last);
      WholeFramesDeliver(parse, frames + [last], "");
      assert FramesText(frames + [last]) + "" == FramesText(frames + [last]);
      LinedSnoc(frames, last);
    }
  }

  /** A blank line after the last frame adds a frame without lines. */
  lemma {:induction false} EmptyLastFrame(parse: Parser, frames: seq<seq<string>>)
    requires forall f :: f in frames ==> Sendable(f)
    ensures DeliveredBy(parse, FramesText(frames) + "\n\n") == Deliver(parse, LinesPayloads(Lined(frames)))
  {
    var text := FramesText(frames);
    FramesArrive(frames, "");
    assert text + "" == text;
    CutJoin(text, "\n\n");
    assert CutFrames(text).rest + "\n\n" == "\n\n";
    EmptyFrame();
    assert CutFrames(text + "\n\n").frames == Joined(frames) + [""];
    PayloadsJoin(Joined(frames), [""]);
    assert FramesPayloads(Joined(frames)) + [] == FramesPayloads(Joined(frames));
    JoinedPayloads(frames);
  }

  lemma {:induction false} LinedSnoc(frames: seq<seq<string>>, last: seq<string>)
    ensures Lined(frames + [last]) == Lined(frames) + last
  {
    if frames == [] {
      assert [] + [last] == [last] && [last][1..] == [];
    } else {
      assert (frames + [last])[1..] == frames[1..] + [last];
      LinedSnoc(frames[1..], last);
    }
  }

  lemma {:induction false} LastUnfinished(last: seq<string>)
    requires last == [] || Sendable(last)
    ensures FrameEnd(JoinLines(last)) == None
  {
    if last != [] {
      JoinedHasNoBlankLine(last);
      FrameEndAfter(JoinLines(last), "");
    }
  }

  lemma {:induction false} EmptyFrame()
    ensures CutFrames("\n\n") == Cut([""], "") && FramesPayloads([""]) == []
  {
    assert FrameEnd("\n\n") == Some(0);
    assert "\n\n"[2..] == "" && "\n\n"[..0] == "";
    assert [""][..0] == [] && SplitLines("") == [""];
    NoPayloadIff("");
  }

  /**
   * However the text is split into chunks, what is delivered is what its data lines carry; those
   * of a last frame without its blank line count unless the stream broke off.
   */
  lemma {:induction false} LinesDeliver(parse: Parser, frames: seq<seq<string>>, last: seq<string>,
      chunks: seq<string>, end: StreamEnd)
    requires (forall f :: f in frames ==> Sendable(f)) && (last == [] || Sendable(last))
    requires Concat(chunks) == SentText(frames, last)
    ensures DeliveredBy(parse, TextRead(chunks, end))
         == Deliver(parse, LinesPayloads(Lined(frames) + if end.Broke? then [] else last))
  {
    if end.Broke? {
      LastUnfinished(last);
      WholeFramesDeliver(parse, frames, JoinLines(last));
      assert Lined(frames) + [] == Lined(frames);
    } else {
      LastFrameDelivers(parse, frames, last);
    }
  }

  /** One frame for each payload, written as it usually is. */
  function DataFrames(payloads: seq<string>): seq<seq<string>> {
    if payloads == [] then [] else [["data: " + payloads[0]]] + DataFrames(payloads[1..])
  }

  ghost predicate Payload(p: string) {
    p != "" && Trimmed(p) && '\n' !in p
  }

  lemma {:induction false} DataFramesCarry(payloads: seq<string>)
    requires forall p :: p in payloads ==> Payload(p)
    ensures forall f :: f in DataFrames(payloads) ==> Sendable(f)
    ensures LinesPayloads(Lined(DataFrames(payloads))) == payloads
  {
    if payloads != [] {
      var line := "data: " + payloads[0];
      assert Payload(payloads[0]);
      DataFramesCarry(payloads[1..]);
      DataLine(payloads[0]);
      LinesPayloadsJoin([line], Lined(DataFrames(payloads[1..])));
      assert payloads == [payloads[0]] + payloads[1..];
    }
  }

  lemma {:induction false} DataLine(p: string)
    requires Payload(p)
    ensures Sendable(["data: " + p]) && LinesPayloads(["data: " + p]) == [p]
  {
    LinePayloadIs(" ", p, "");
    assert "data:" + " " + p + "" == "data: " + p;
    assert ["data: " + p][..0] == [];
  }

  /** The payloads arrive as they were sent, the last even without its blank line. */
  lemma {:induction false} PayloadsArrive(parse: Parser, payloads: seq<string>, last: string, chunks: seq<string>)
    requires (forall p :: p in payloads ==> Payload(p)) && Payload(last)
    requires Concat(chunks) == FramesText(DataFrames(payloads)) + "data: " + last
    ensures DeliveredBy(parse, TextRead(chunks, Complete)) == Deliver(parse, payloads + [last])
    ensures forall error :: DeliveredBy(parse, TextRead(chunks, Broke(error))) == Deliver(parse, payloads)
  {
    var frames := DataFrames(payloads);
    DataFramesCarry(payloads);
    DataLine(last);
    assert JoinLines(["data: " + last]) == "data: " + last;
    assert Concat(chunks) == SentText(frames, ["data: " + last]);
    LinesDeliver(parse, frames, ["data: " + last], chunks, Complete);
    LinesPayloadsJoin(Lined(frames), ["data: " + last]);
    forall error
      ensures DeliveredBy(parse, TextRead(chunks, Broke(error))) == Deliver(parse, payloads)
    {
      LinesDeliver(parse, frames, ["data: " + last], chunks, Broke(error));
      assert Lined(frames) + [] == Lined(frames);
    }
  }

  // ------------------------------------------------------------------
  // A run
  // ------------------------------------------------------------------

  const FRESH := InstallState(InProgress, InitialStatus(), [], 0, None)

  /** start(): reset everything, read the stream, and turn an error into a failure. */
  method Start(install: Install, parse: Parser, parseError: string, chunks: seq<string>, end: StreamEnd)
    requires install.Valid()
    modifies install
    ensures install.Valid()
    ensures var d := DeliveredBy(parse, TextRead(chunks, end)); var s := ApplyAll(FRESH, d.events);
      install.State() ==
        if d.threw then s.(error := Some(parseError), phase := Failed)
        else if end.Broke? then s.(error := Some(end.message), phase := Failed)
        else s
  {
    install.error := None;
    install.log := [];
    install.stepStatus := InitialStatus();
    install.percent := 0;
    install.phase := InProgress;
    var error := StreamInstall(install, parse, parseError, chunks, end);
    if error.Some? {
      install.error := error;
      install.phase := Failed;
    }
  }

  // ------------------------------------------------------------------
  // What the state says about the events
  // ------------------------------------------------------------------

  /** A step is completed by a message that ends in the one word. */
  lemma {:induction false} CompletesIff(message: string)
    ensures Completes(message) <==> exists before :: message == before + "completado."
  {
    if Completes(message) {
      assert message == message[..|message| - 11] + "completado.";
    }
  }

  /** The last event that settles a step, if there is one. */
  ghost function Verdict(events: seq<ProgressEvent>, step: string): (v: Option<StepStatus>)
    ensures v == None || v == Some(StepFailed) || v == Some(Completed)
  {
    if events == [] then None
    else
      var e := events[|events| - 1];
      if e.stage == step && e.failed then Some(StepFailed)
      else if e.stage == step && !e.done && Completes(e.message) then Some(Completed)
      else Verdict(events[..|events| - 1], step)
  }

  ghost predicate Progressed(events: seq<ProgressEvent>, step: string) {
    exists i :: 0 <= i < |events| && events[i].stage == step && !events[i].failed && !events[i].done
  }

  /** The phase the last terminal event decides. */
  ghost function LastPhase(events: seq<ProgressEvent>): Phase {
    if events == [] then InProgress
    else if events[|events| - 1].failed then Failed
    else if events[|events| - 1].done then Done
    else LastPhase(events[..|events| - 1])
  }

  ghost function LastFailure(events: seq<ProgressEvent>): Option<string> {
    if events == [] then None
    else if events[|events| - 1].failed then Some(events[|events| - 1].message)
    else LastFailure(events[..|events| - 1])
  }

  lemma {:induction false} ProgressedSnoc(events: seq<ProgressEvent>, step: string)
    requires events != []
    ensures var n := |events| - 1;
      Progressed(events, step) <==>
      Progressed(events[..n], step) || (events[n].stage == step && !events[n].failed && !events[n].done)
  {
    var n := |events| - 1;
    if Progressed(events[..n], step) {
      var i :| 0 <= i < n && events[..n][i].stage == step && !events[..n][i].failed && !events[..n][i].done;
      assert events[i] == events[..n][i];
    }
    if Progressed(events, step) {
      var i :| 0 <= i < |events| && events[i].stage == step && !events[i].failed && !events[i].done;
      assert i < n ==> events[..n][i] == events[i];
    }
  }

  /**
   * A step shows its last verdict; without one it runs once it has been heard of,
   * and is pending before. Phase and error are those of the last terminal event
   * and the last failure.
   */
  lemma {:induction false} StateOfRun(events: seq<ProgressEvent>, step: string)
    requires step in STEP_IDS
    ensures var s := ApplyAll(FRESH, events);
      && step in s.stepStatus
      && s.stepStatus[step] == (match Verdict(events, step)
                                case Some(v) => v
                                case None => if Progressed(events, step) then Running else Pending)
      && s.phase == LastPhase(events)
      && s.error == LastFailure(events)
  {
    if events != [] {
      StateOfRun(events[..|events| - 1], step);
      ProgressedSnoc(events, step);
    }
  }

  /** Every event but a successful end leaves a line. */
  ghost function Lines(events: seq<ProgressEvent>): seq<LogLine> {
    if events == [] then []
    else if events[0].done && !events[0].failed then Lines(events[1..])
    else [LogLine(events[0].stage, events[0].message, events[0].failed)] + Lines(events[1..])
  }

  lemma {:induction false} LinesSnoc(events: seq<ProgressEvent>, e: ProgressEvent)
    ensures Lines(events + [e]) == Lines(events) + if e.done && !e.failed then []
        else [LogLine(e.stage, e.message, e.failed)]
    decreases |events|
  {
    if events == [] {
      assert [] + [e] == [e] && [e][1..] == [];
    } else {
      assert (events + [e])[1..] == events[1..] + [e];
      LinesSnoc(events[1..], e);
    }
  }

  /** The log keeps every line in the order of the events; the bar shows the last event, and 100
   *  after a successful end. */
  lemma {:induction false} LogOfRun(events: seq<ProgressEvent>)
    ensures var s := ApplyAll(FRESH, events);
      && s.log == Lines(events)
      && s.percent == if events == [] then 0
                      else if events[|events| - 1].done && !events[|events| - 1].failed then 100
                      else events[|events| - 1].percent
  {
    if events != [] {
      LogOfRun(events[..|events| - 1]);
      FrontLast(events);
      LinesSnoc(events[..|events| - 1], events[|events| - 1]);
    }
  }
}
