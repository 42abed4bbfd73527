/**
 * The assistant's answer stream: named frames, of which only complete ones count,
 * and what the caller gets at the end.
 */
module AssistantStream {
  import opened Prelude
  import opened Text
  import opened SseFrames

  /**
   * JSON values stay abstract: parsing is partial; reading a property of null
   * throws (None); a value is truthy or not.
   */
  datatype Json<!J> = Json(parse: string -> Option<J>, deltaText: J -> Option<string>, detail: J -> Option<string>,
      truthy: J -> bool)

  datatype Call<J> = Progress(data: J) | Delta(text: string)

  /** What the loop has seen: the calls it made, the last answer, the last error, and whether it threw. */
  datatype ChatState<J> = ChatState(calls: seq<Call<J>>, answer: Option<J>, error: string, threw: bool)

  function StartState<J>(): ChatState<J> {
    ChatState([], None, "", false)
  }

  /** Line k is the first with that beginning. */
  ghost predicate FirstAt(lines: seq<string>, prefix: string, k: int) {
    0 <= k < |lines| && StartsWith(lines[k], prefix) && forall i :: 0 <= i < k ==> !StartsWith(lines[i], prefix)
  }

  /** lines.find(l => l.startsWith(prefix)) */
  function FindLine(lines: seq<string>, prefix: string): (r: Option<string>)
    ensures r.Some? ==> StartsWith(r.value, prefix) && exists k :: FirstAt(lines, prefix, k) && lines[k] == r.value
    ensures r.None? ==> forall l :: l in lines ==> !StartsWith(l, prefix)
  {
    if lines == [] then None
    else if StartsWith(lines[0], prefix) then
      assert FirstAt(lines, prefix, 0);
      Some(lines[0])
    else
      var r := FindLine(lines[1..], prefix);
      assert forall k: nat :: FirstAt(lines[1..], prefix, k) ==> FirstAt(lines, prefix, k + 1);
      r
  }

  /** A frame that names an event and carries data that parses. */
  datatype Named<J> = Named(kind: string, data: J)

  function ReadFrame<J>(j: Json<J>, frame: string): Option<Named<J>> {
    var event, data := FindLine(SplitLines(frame), "event:"), FindLine(SplitLines(frame), "data:");
    if event.None? || data.None? then None
    else
      match j.parse(Trim(data.value[5..]))
      case None => None
      case Some(d) => Some(Named(Trim(event.value[6..]), d))
  }

  /** What one complete frame does. */
  function Handle<J>(j: Json<J>, wantsDelta: bool, s: ChatState<J>, frame: string): ChatState<J> {
    match ReadFrame(j, frame)
    case None => s
    case Some(named) => Heed(j, wantsDelta, s, named.kind, named.data)
  }

  function Heed<J>(j: Json<J>, wantsDelta: bool, s: ChatState<J>, kind: string, data: J): ChatState<J> {
    if kind == "progress" then s.(calls := s.calls + [Progress(data)])
    else if kind == "answer_delta" then
      if !wantsDelta then s
      else if j.deltaText(data).None? then s.(threw := true)
      else s.(calls := s.calls + [Delta(j.deltaText(data).value)])
    else if kind == "answer" then s.(answer := Some(data))
    else if kind == "error" then
      if j.detail(data).None? then s.(threw := true) else s.(error := j.detail(data).value)
    else s
  }

  /** All frames in order, up to one that throws. */
  function HandleAll<J>(j: Json<J>, wantsDelta: bool, frames: seq<string>): ChatState<J> {
    if frames == [] then StartState()
    else
      var s := HandleAll(j, wantsDelta, frames[..|frames| - 1]);
      if s.threw then s else Handle(j, wantsDelta, s, frames[|frames| - 1])
  }

  datatype Outcome<J> = Answered(answer: J) | Refused(detail: string) | Threw

  const NO_ANSWER := "el stream terminó sin respuesta"

  function Conclude<J>(j: Json<J>, s: ChatState<J>): Outcome<J> {
    if s.threw then Threw
    else if s.error != "" then Refused(s.error)
    else if s.answer.None? || !j.truthy(s.answer.value) then Refused(NO_ANSWER)
    else Answered(s.answer.value)
  }

  lemma {:induction false} HandleSnoc<J>(j: Json<J>, wantsDelta: bool, frames: seq<string>, frame: string)
    ensures HandleAll(j, wantsDelta, frames + [frame]) ==
      if HandleAll(j, wantsDelta, frames).threw then HandleAll(j, wantsDelta, frames)
      else Handle(j, wantsDelta, HandleAll(j, wantsDelta, frames), frame)
  {
    assert (frames + [frame])[..|frames|] == frames;
  }

  lemma {:induction false} HandleStopped<J>(j: Json<J>, wantsDelta: bool, a: seq<string>, b: seq<string>)
    requires HandleAll(j, wantsDelta, a).threw
    ensures HandleAll(j, wantsDelta, a + b) == HandleAll(j, wantsDelta, a)
  {
    if b == [] {
      assert a + b == a;
    } else {
      var n := |b| - 1;
      HandleStopped(j, wantsDelta, a, b[..n]);
      assert (a + b)[..|a + b| - 1] == a + b[..n];
    }
  }

  /** The body of the loop over the frames in the buffer. */
  method HandleFrame<J>(j: Json<J>, wantsDelta: bool, s0: ChatState<J>, frame: string) returns (s: ChatState<J>)
    requires !s0.threw
    ensures s == Handle(j, wantsDelta, s0, frame)
  {
    s := s0;
    var lines := SplitLines(frame);
    var eventLine := FindLine(lines, "event:");
    var dataLine := FindLine(lines, "data:");
    if eventLine.None? || dataLine.None? {
      return;
    }
    var kind := Trim(eventLine.value[6..]);
    var data := j.parse(Trim(dataLine.value[5..]));
    if data.None? {
      return;
    }
    if kind == "progress" {
      s := s.(calls := s.calls + [Progress(data.value)]);
    } else if kind == "answer_delta" {
      if wantsDelta {
        var text := j.deltaText(data.value);
        if text.None? {
          s := s.(threw := true);
        } else {
          s := s.(calls := s.calls + [Delta(text.value)]);
        }
      }
    } else if kind == "answer" {
      s := s.(answer := data);
    } else if kind == "error" {
      var detail := j.detail(data.value);
      if detail.None? {
        s := s.(threw := true);
      } else {
        s := s.(error := detail.value);
      }
    }
  }

  /** One round of the loop: the frame before the n-th character, after those seen so far. */
  method HandleNext<J>(j: Json<J>, wantsDelta: bool, s0: ChatState<J>, buffer0: string, n: nat,
      ghost seen: seq<string>)
    returns (s: ChatState<J>, buffer: string)
    requires s0 == HandleAll(j, wantsDelta, seen) && !s0.threw && FrameEnd(buffer0) == Some(n)
    ensures n + 2 <= |buffer0| && buffer == buffer0[n + 2..]
    ensures seen + CutFrames(buffer0).frames == seen + [buffer0[..n]] + CutFrames(buffer).frames
    ensures CutFrames(buffer0).rest == CutFrames(buffer).rest
    ensures s == HandleAll(j, wantsDelta, seen + [buffer0[..n]])
    ensures s.threw ==> s == HandleAll(j, wantsDelta, seen + CutFrames(buffer0).frames)
  {
    FrameMoves(seen, buffer0, n);
    var frame := buffer0[..n];
    buffer := buffer0[n + 2..];
    HandleSnoc(j, wantsDelta, seen, frame);
    s := HandleFrame(j, wantsDelta, s0, frame);
    if s.threw {
      HandleStopped(j, wantsDelta, seen + [frame], CutFrames(buffer).frames);
    }
  }

  /** One chunk: every frame it completes. */
  method HandleChunk<J>(j: Json<J>, wantsDelta: bool, s0: ChatState<J>, buffer0: string, ghost before: seq<string>)
    returns (s: ChatState<J>, buffer: string)
    requires s0 == HandleAll(j, wantsDelta, before) && !s0.threw
    ensures s == HandleAll(j, wantsDelta, before + CutFrames(buffer0).frames)
    ensures !s.threw ==> buffer == CutFrames(buffer0).rest
  {
    s, buffer := s0, buffer0;
    ghost var seen := before;
    ghost var total := before + CutFrames(buffer0).frames;
    var sep := FrameEnd(buffer);
    while sep.Some?
      invariant sep == FrameEnd(buffer) && !s.threw
      invariant s == HandleAll(j, wantsDelta, seen)
      invariant seen + CutFrames(buffer).frames == total
      invariant CutFrames(buffer).rest == CutFrames(buffer0).rest
      decreases |buffer|
    {
      ghost var frame := buffer[..sep.value];
      s, buffer := HandleNext(j, wantsDelta, s, buffer, sep.value, seen);
      if s.threw {
        return;
      }
      seen := seen + [frame];
      sep := FrameEnd(buffer);
    }
    CutRest(buffer);
    assert seen == total;
  }

  /**
   * Reading the answer chunk by chunk makes the calls, and ends in the outcome, of
   * one pass over the complete frames of the whole text; a last frame without its
   * blank line does not count.
   */
  method StreamChat<J>(j: Json<J>, wantsDelta: bool, chunks: seq<string>)
    returns (calls: seq<Call<J>>, outcome: Outcome<J>)
    ensures var s := HandleAll(j, wantsDelta, CutFrames(Concat(chunks)).frames);
      calls == s.calls && outcome == Conclude(j, s)
  {
    var s, buffer := StartState<J>(), "";
    var i := 0;
    assert chunks[..0] == [];
    while i < |chunks|
      invariant 0 <= i <= |chunks|
      invariant s == HandleAll(j, wantsDelta, CutFrames(Concat(chunks[..i])).frames) && !s.threw
      invariant buffer == CutFrames(Concat(chunks[..i])).rest
    {
      ConcatTake(chunks, i);
      CutJoin(Concat(chunks[..i]), chunks[i]);
      buffer := buffer + chunks[i];
      s, buffer := HandleChunk(j, wantsDelta, s, buffer, CutFrames(Concat(chunks[..i])).frames);
      i := i + 1;
      if s.threw {
        LaterChunks(j, wantsDelta, chunks, i);
        return s.calls, Threw;
      }
    }
    assert chunks[..|chunks|] == chunks;
    calls, outcome := s.calls, Conclude(j, s);
  }

  lemma {:induction false} LaterChunks<J>(j: Json<J>, wantsDelta: bool, chunks: seq<string>, i: nat)
    requires i <= |chunks| && HandleAll(j, wantsDelta, CutFrames(Concat(chunks[..i])).frames).threw
    ensures HandleAll(j, wantsDelta, CutFrames(Concat(chunks)).frames)
        == HandleAll(j, wantsDelta, CutFrames(Concat(chunks[..i])).frames)
    decreases |chunks| - i
  {
    if i == |chunks| {
      assert chunks[..i] == chunks;
    } else {
      ConcatTake(chunks, i);
      CutJoin(Concat(chunks[..i]), chunks[i]);
      HandleStopped(j, wantsDelta, CutFrames(Concat(chunks[..i])).frames,
                    CutFrames(CutFrames(Concat(chunks[..i])).rest + chunks[i]).frames);
      LaterChunks(j, wantsDelta, chunks, i + 1);
    }
  }

  /** Text after the last blank line changes nothing, here; the installer's parser reads it. */
  lemma {:induction false} UnfinishedFrameIgnored<J>(j: Json<J>, wantsDelta: bool, text: string, tail: string)
    requires FrameEnd(CutFrames(text).rest + tail) == None
    ensures HandleAll(j, wantsDelta, CutFrames(text + tail).frames) == HandleAll(j, wantsDelta, CutFrames(text).frames)
  {
    CutJoin(text, tail);
    CutRest(CutFrames(text).rest + tail);
    assert CutFrames(text).frames + [] == CutFrames(text).frames;
  }

  /** The answer is the last one sent, unless an error was sent with a detail, or a frame threw. */
  ghost function LastAnswer<J>(j: Json<J>, frames: seq<string>): Option<J> {
    if frames == [] then None
    else
      var named := ReadFrame(j, frames[|frames| - 1]);
      if named.Some? && named.value.kind == "answer" then Some(named.value.data)
        else LastAnswer(j, frames[..|frames| - 1])
  }

  lemma {:induction false} AnswerIsLast<J>(j: Json<J>, wantsDelta: bool, frames: seq<string>)
    requires !HandleAll(j, wantsDelta, frames).threw
    ensures HandleAll(j, wantsDelta, frames).answer == LastAnswer(j, frames)
  {
    if frames != [] {
      AnswerIsLast(j, wantsDelta, frames[..|frames| - 1]);
    }
  }

  // ------------------------------------------------------------------
  // What a server has to write
  // ------------------------------------------------------------------

  /** A frame as it is written: the name of the event on one line, its data on the next. */
  datatype Message = Message(kind: string, payload: string)

  ghost predicate Writable(m: Message) {
    Trimmed(m.kind) && '\n' !in m.kind && Trimmed(m.payload) && '\n' !in m.payload
  }

  function FrameOf(m: Message): seq<string> {
    ["event: " + m.kind, "data: " + m.payload]
  }

  function FramesOf(messages: seq<Message>): seq<seq<string>> {
    seq(|messages|, i requires 0 <= i < |messages| => FrameOf(messages[i]))
  }

  lemma {:induction false} FieldRead(name: string, value: string)
    requires Trimmed(value)
    ensures Trim((name + " " + value)[|name|..]) == value
  {
    assert (name + " " + value)[|name|..] == " " + value + "";
    TrimIs(" ", value, "");
  }

  /** The two lines are found, and are all there is. */
  lemma {:induction false} FrameLines(m: Message)
    requires Writable(m)
    ensures Sendable(FrameOf(m)) && SplitLines(JoinLines(FrameOf(m))) == FrameOf(m)
    ensures FindLine(FrameOf(m), "event:") == Some("event: " + m.kind)
    ensures FindLine(FrameOf(m), "data:") == Some("data: " + m.payload)
  {
    var lines := FrameOf(m);
    assert lines[0][0] == 'e' && lines[1][0] == 'd';
    assert "event:" <= lines[0] && "data:" <= lines[1] && !("data:" <= lines[0]);
    SplitOfJoined(lines);
  }

  lemma {:induction false} FrameRead<J>(j: Json<J>, m: Message)
    requires Writable(m)
    ensures ReadFrame(j, JoinLines(FrameOf(m)))
         == match j.parse(m.payload) case None => None case Some(data) => Some(Named(m.kind, data))
  {
    FrameLines(m);
    FieldRead("event:", m.kind);
    FieldRead("data:", m.payload);
    assert "event:" + " " + m.kind == "event: " + m.kind && "data:" + " " + m.payload == "data: " + m.payload;
  }

  /** A text of the wrong type in a delta that is wanted, or in an error, throws. */
  ghost predicate Throws<J>(j: Json<J>, wantsDelta: bool, m: Message) {
    match j.parse(m.payload)
    case None => false
    case Some(data) =>
      || (m.kind == "answer_delta" && wantsDelta && j.deltaText(data).None?)
      || (m.kind == "error" && j.detail(data).None?)
  }

  /** The messages before the first that throws. */
  ghost function BeforeThrow<J>(j: Json<J>, wantsDelta: bool, messages: seq<Message>): (before: seq<Message>)
    ensures before <= messages && forall m :: m in before ==> !Throws(j, wantsDelta, m)
    ensures |before| < |messages| ==> Throws(j, wantsDelta, messages[|before|])
  {
    if messages == [] || Throws(j, wantsDelta, messages[0]) then []
    else [messages[0]] + BeforeThrow(j, wantsDelta, messages[1..])
  }

  /** A progress message is passed on, and a delta to a caller who wants it; nothing else is. */
  ghost function CallsFor<J>(j: Json<J>, wantsDelta: bool, messages: seq<Message>): seq<Call<J>> {
    if messages == [] then []
    else
      var m, data := messages[|messages| - 1], j.parse(messages[|messages| - 1].payload);
      CallsFor(j, wantsDelta, messages[..|messages| - 1])
      + if data.None? then []
        else if m.kind == "progress" then [Progress(data.value)]
        else if m.kind == "answer_delta" && wantsDelta && j.deltaText(data.value).Some?
        then [Delta(j.deltaText(data.value).value)]
        else []
  }

  /** The data of the last message of a kind that parses. */
  ghost function LastOf<J>(j: Json<J>, kind: string, messages: seq<Message>): Option<J> {
    if messages == [] then None
    else
      var m := messages[|messages| - 1];
      if m.kind == kind && j.parse(m.payload).Some? then j.parse(m.payload)
      else LastOf(j, kind, messages[..|messages| - 1])
  }

  /** What the last error message says, "" if there is none. */
  ghost function LastDetail<J>(j: Json<J>, messages: seq<Message>): string {
    match LastOf(j, "error", messages)
    case None => ""
    case Some(data) => j.detail(data).GetOr("")
  }

  lemma {:induction false} FramesOfSplit(messages: seq<Message>, k: nat)
    requires k <= |messages|
    ensures Joined(FramesOf(messages)) == Joined(FramesOf(messages[..k])) + Joined(FramesOf(messages[k..]))
  {
  }

  lemma {:induction false} FramesOfFront(messages: seq<Message>)
    requires messages != []
    ensures Joined(FramesOf(messages))[..|messages| - 1] == Joined(FramesOf(messages[..|messages| - 1]))
  {
  }

  /** What the messages add up to, as long as none throws. */
  ghost function Said<J>(j: Json<J>, wantsDelta: bool, messages: seq<Message>): ChatState<J> {
    ChatState(CallsFor(j, wantsDelta, messages), LastOf(j, "answer", messages), LastDetail(j, messages), false)
  }

  lemma {:induction false} SaysMore<J>(j: Json<J>, wantsDelta: bool, messages: seq<Message>)
    requires messages != [] && !Throws(j, wantsDelta, messages[|messages| - 1])
    ensures var m := messages[|messages| - 1];
      Said(j, wantsDelta, messages) ==
        match j.parse(m.payload)
        case None => Said(j, wantsDelta, messages[..|messages| - 1])
        case Some(data) => Heed(j, wantsDelta, Said(j, wantsDelta, messages[..|messages| - 1]), m.kind, data)
  {
    var before := CallsFor(j, wantsDelta, messages[..|messages| - 1]);
    assert before + [] == before;
  }

  lemma {:induction false} MessageHandled<J>(j: Json<J>, wantsDelta: bool, s: ChatState<J>, m: Message)
    requires Writable(m)
    ensures Handle(j, wantsDelta, s, JoinLines(FrameOf(m))) ==
      match j.parse(m.payload) case None => s case Some(data) => Heed(j, wantsDelta, s, m.kind, data)
  {
    FrameRead(j, m);
  }

  /** Messages none of which throws. */
  lemma {:induction false} MessagesHandled<J>(j: Json<J>, wantsDelta: bool, messages: seq<Message>)
    requires forall m :: m in messages ==> Writable(m) && !Throws(j, wantsDelta, m)
    ensures HandleAll(j, wantsDelta, Joined(FramesOf(messages))) == Said(j, wantsDelta, messages)
  {
    if messages != [] {
      var n := |messages| - 1;
      MessagesHandled(j, wantsDelta, messages[..n]);
      FramesOfFront(messages);
      MessageHandled(j, wantsDelta, Said(j, wantsDelta, messages[..n]), messages[n]);
      SaysMore(j, wantsDelta, messages);
    }
  }

  /** Messages of which the last throws. */
  lemma {:induction false} LastThrows<J>(j: Json<J>, wantsDelta: bool, messages: seq<Message>)
    requires messages != [] && Throws(j, wantsDelta, messages[|messages| - 1])
    requires forall m :: m in messages ==> Writable(m)
    requires forall m :: m in messages[..|messages| - 1] ==> !Throws(j, wantsDelta, m)
    ensures var s := HandleAll(j, wantsDelta, Joined(FramesOf(messages)));
      s.threw && s.calls == CallsFor(j, wantsDelta, messages[..|messages| - 1])
  {
    var n := |messages| - 1;
    var before, last := Joined(FramesOf(messages[..n])), JoinLines(FrameOf(messages[n]));
    MessagesHandled(j, wantsDelta, messages[..n]);
    HandleSnoc(j, wantsDelta, before, last);
    FramesOfSplit(messages, n);
    assert Joined(FramesOf(messages[n..])) == [last];
    MessageHandled(j, wantsDelta, Said(j, wantsDelta, messages[..n]), messages[n]);
  }

  /** After a message that throws, the rest does not matter. */
  lemma {:induction false} RestUnheard<J>(j: Json<J>, wantsDelta: bool, messages: seq<Message>, k: nat)
    requires k <= |messages| && HandleAll(j, wantsDelta, Joined(FramesOf(messages[..k]))).threw
    ensures HandleAll(j, wantsDelta, Joined(FramesOf(messages)))
         == HandleAll(j, wantsDelta, Joined(FramesOf(messages[..k])))
  {
    var upto := Joined(FramesOf(messages[..k]));
    FramesOfSplit(messages, k);
    HandleStopped(j, wantsDelta, upto, Joined(FramesOf(messages[k..])));
  }

  /** The first message that throws ends the stream. */
  lemma {:induction false} MessagesStopped<J>(j: Json<J>, wantsDelta: bool, messages: seq<Message>)
    requires forall m :: m in messages ==> Writable(m)
    ensures var s := HandleAll(j, wantsDelta, Joined(FramesOf(messages)));
      var before := BeforeThrow(j, wantsDelta, messages);
      && s.calls == CallsFor(j, wantsDelta, before)
      && (if |before| < |messages| then s.threw else before == messages && s == Said(j, wantsDelta, messages))
  {
    var before := BeforeThrow(j, wantsDelta, messages);
    var k := |before|;
    if k < |messages| {
      assert messages[..k + 1][..k] == before;
      LastThrows(j, wantsDelta, messages[..k + 1]);
      RestUnheard(j, wantsDelta, messages, k + 1);
    } else {
      assert before == messages;
      MessagesHandled(j, wantsDelta, messages);
    }
  }

  /**
   * However the text is split, an unfinished frame at its end or not: the calls are those the
   * messages ask for, up to one that throws; an error counts more than any answer, and of
   * several errors or answers the last counts.
   */
  lemma {:induction false} MessagesDecide<J>(j: Json<J>, wantsDelta: bool, messages: seq<Message>, unfinished: string,
      chunks: seq<string>)
    requires (forall m :: m in messages ==> Writable(m)) && FrameEnd(unfinished) == None
    requires Concat(chunks) == FramesText(FramesOf(messages)) + unfinished
    ensures var s := HandleAll(j, wantsDelta, CutFrames(Concat(chunks)).frames);
      var error, answer := LastDetail(j, messages), LastOf(j, "answer", messages);
      && s.calls == CallsFor(j, wantsDelta, BeforeThrow(j, wantsDelta, messages))
      && (Conclude(j, s) == Threw <==> exists m :: m in messages && Throws(j, wantsDelta, m))
      && (Conclude(j, s) == Threw
          || Conclude(j, s) == if error != "" then Refused(error)
                               else if answer.Some? && j.truthy(answer.value) then Answered(answer.value)
                               else Refused("el stream terminó sin respuesta"))
  {
    FramesSendable(messages);
    FramesArrive(FramesOf(messages), unfinished);
    MessagesStopped(j, wantsDelta, messages);
    SomeThrows(j, wantsDelta, messages);
  }

  lemma {:induction false} FramesSendable(messages: seq<Message>)
    requires forall m :: m in messages ==> Writable(m)
    ensures forall f :: f in FramesOf(messages) ==> Sendable(f)
  {
    forall i | 0 <= i < |messages|
      ensures Sendable(FramesOf(messages)[i])
    {
      FrameLines(messages[i]);
    }
  }

  lemma {:induction false} SomeThrows<J>(j: Json<J>, wantsDelta: bool, messages: seq<Message>)
    ensures |BeforeThrow(j, wantsDelta, messages)| < |messages|
      <==> exists m :: m in messages && Throws(j, wantsDelta, m)
  {
    var before := BeforeThrow(j, wantsDelta, messages);
    if |before| < |messages| {
      assert messages[|before|] in messages;
    } else {
      assert before == messages;
    }
  }
}
