/**
 * Cutting a stream of text into frames at blank lines, chunk by chunk or at once:
 * what is left in the buffer is all that the next chunk needs to know.
 */
module SseFrames {
  import opened Prelude
  import opened Text

  /** indexOf("\n\n"): where the first blank line begins. */
  function FrameEnd(s: string): (r: Option<nat>)
    ensures r.Some? ==> r.value + 2 <= |s| && s[r.value] == '\n' && s[r.value + 1] == '\n'
    ensures r.Some? ==> forall i :: 0 <= i < r.value ==> !(s[i] == '\n' && s[i + 1] == '\n')
    ensures r.None? ==> forall i :: 0 <= i < |s| - 1 ==> !(s[i] == '\n' && s[i + 1] == '\n')
  {
    if |s| < 2 then None
    else if s[0] == '\n' && s[1] == '\n' then Some(0)
    else
      match FrameEnd(s[1..])
      case None =>
        assert forall i :: 0 < i < |s| - 1 ==> s[i] == s[1..][i - 1] && s[i + 1] == s[1..][i];
        None
      case Some(n) =>
        assert forall i :: 0 < i <= n ==> s[i] == s[1..][i - 1] && s[i + 1] == s[1..][i];
        Some(n + 1)
  }

  /** The complete frames of a text, and what follows the last of them. */
  datatype Cut = Cut(frames: seq<string>, rest: string)

  function CutFrames(s: string): (c: Cut)
    ensures FrameEnd(c.rest) == None
    decreases |s|
  {
    match FrameEnd(s)
    case None => Cut([], s)
    case Some(n) =>
      var c := CutFrames(s[n + 2..]);
      Cut([s[..n]] + c.frames, c.rest)
  }

  lemma {:induction false} FrameEndIs(s: string, n: nat)
    requires n + 2 <= |s| && s[n] == '\n' && s[n + 1] == '\n'
    requires forall i :: 0 <= i < n ==> !(s[i] == '\n' && s[i + 1] == '\n')
    ensures FrameEnd(s) == Some(n)
  {
  }

  /** More text does not move the first blank line. */
  lemma {:induction false} FrameEndPrefix(a: string, b: string)
    requires FrameEnd(a).Some?
    ensures FrameEnd(a + b) == FrameEnd(a)
  {
    var n := FrameEnd(a).value;
    assert forall i :: 0 <= i < n + 2 ==> (a + b)[i] == a[i];
    FrameEndIs(a + b, n);
  }

  lemma {:induction false} CutStep(s: string, n: nat)
    requires FrameEnd(s) == Some(n)
    ensures CutFrames(s) == Cut([s[..n]] + CutFrames(s[n + 2..]).frames, CutFrames(s[n + 2..]).rest)
  {
  }

  /** Moving the first frame of the buffer over to those seen changes neither the frames nor the rest. */
  lemma {:induction false} FrameMoves(seen: seq<string>, buffer: string, n: nat)
    requires FrameEnd(buffer) == Some(n)
    ensures n + 2 <= |buffer|
    ensures seen + CutFrames(buffer).frames == seen + [buffer[..n]] + CutFrames(buffer[n + 2..]).frames
    ensures CutFrames(buffer).rest == CutFrames(buffer[n + 2..]).rest
  {
    CutStep(buffer, n);
    Associative(seen, [buffer[..n]], CutFrames(buffer[n + 2..]).frames);
  }

  lemma {:induction false} SliceJoin(a: string, b: string, n: nat)
    requires n + 2 <= |a|
    ensures (a + b)[..n] == a[..n] && (a + b)[n + 2..] == a[n + 2..] + b
  {
  }

  /** Cutting a text in two steps: cut the first part, then what it left together with the second. */
  lemma {:induction false} CutJoin(a: string, b: string)
    ensures CutFrames(a + b).frames == CutFrames(a).frames + CutFrames(CutFrames(a).rest + b).frames
    ensures CutFrames(a + b).rest == CutFrames(CutFrames(a).rest + b).rest
    decreases |a|
  {
    match FrameEnd(a)
    case None =>
    case Some(n) =>
      FrameEndPrefix(a, b);
      CutStep(a, n);
      CutStep(a + b, n);
      SliceJoin(a, b, n);
      CutJoin(a[n + 2..], b);
      CutJoinStep(a, b, n);
  }

  lemma {:induction false} CutJoinStep(a: string, b: string, n: nat)
    requires FrameEnd(a) == Some(n)
    requires CutFrames(a) == Cut([a[..n]] + CutFrames(a[n + 2..]).frames, CutFrames(a[n + 2..]).rest)
    requires CutFrames(a + b) == Cut([a[..n]] + CutFrames(a[n + 2..] + b).frames, CutFrames(a[n + 2..] + b).rest)
    requires CutFrames(a[n + 2..] + b).frames == CutFrames(a[n + 2..]).frames
        + CutFrames(CutFrames(a[n + 2..]).rest + b).frames
    ensures CutFrames(a + b).frames == CutFrames(a).frames + CutFrames(CutFrames(a).rest + b).frames
  {
    Associative([a[..n]], CutFrames(a[n + 2..]).frames, CutFrames(CutFrames(a).rest + b).frames);
  }

  /** A text without a blank line is all rest. */
  lemma {:induction false} CutRest(s: string)
    requires FrameEnd(s) == None
    ensures CutFrames(s) == Cut([], s)
  {
  }

  // ------------------------------------------------------------------
  // What a sender writes
  // ------------------------------------------------------------------

  /** A frame is lines with text. */
  ghost predicate Sendable(lines: seq<string>) {
    lines != [] && forall l :: l in lines ==> l != "" && '\n' !in l
  }

  /** Every frame's lines, then a blank line. */
  function FramesText(frames: seq<seq<string>>): string {
    if frames == [] then "" else JoinLines(frames[0]) + "\n\n" + FramesText(frames[1..])
  }

  function Joined(frames: seq<seq<string>>): (texts: seq<string>)
    ensures |texts| == |frames| && forall i :: 0 <= i < |frames| ==> texts[i] == JoinLines(frames[i])
  {
    if frames == [] then [] else [JoinLines(frames[0])] + Joined(frames[1..])
  }

  ghost predicate NoBlankLine(s: string) {
    && s != [] && s[|s| - 1] != '\n'
    && forall i :: 0 <= i < |s| - 1 ==> !(s[i] == '\n' && s[i + 1] == '\n')
  }

  lemma {:induction false} JoinedHasNoBlankLine(lines: seq<string>)
    requires Sendable(lines)
    ensures NoBlankLine(JoinLines(lines)) && JoinLines(lines)[0] != '\n'
  {
    assert lines[0] in lines;
    if |lines| > 1 {
      assert forall l :: l in lines[1..] ==> l in lines;
      JoinedHasNoBlankLine(lines[1..]);
      var a, b := lines[0], JoinLines(lines[1..]);
      var s := a + ['\n'] + b;
      assert s[|s| - 1] == b[|b| - 1] && s[0] == a[0];
      forall i | 0 <= i < |s| - 1
        ensures !(s[i] == '\n' && s[i + 1] == '\n')
      {
        if i < |a| {
          assert s[i] == a[i] && a[i] in a;
        } else if i > |a| {
          assert s[i] == b[i - |a| - 1] && s[i + 1] == b[i - |a|];
        }
      }
    }
  }

  lemma {:induction false} FrameEndAfter(s: string, rest: string)
    requires NoBlankLine(s)
    ensures FrameEnd(s + "\n\n" + rest) == Some(|s|)
    ensures FrameEnd(s) == None
  {
    var text := s + "\n\n" + rest;
    assert text[|s|] == text[|s| + 1] == '\n';
    forall i | 0 <= i < |s|
      ensures !(text[i] == '\n' && text[i + 1] == '\n')
    {
      assert text[i] == s[i] && (i + 1 < |s| ==> text[i + 1] == s[i + 1]);
    }
    FrameEndIs(text, |s|);
  }

  /** What is cut out of the text is the frames as they were written; an unfinished one is left over. */
  lemma {:induction false} FramesArrive(frames: seq<seq<string>>, tail: string)
    requires (forall f :: f in frames ==> Sendable(f)) && FrameEnd(tail) == None
    ensures CutFrames(FramesText(frames) + tail) == Cut(Joined(frames), tail)
    decreases |frames|
  {
    var text := FramesText(frames) + tail;
    if frames == [] {
      assert text == tail;
    } else {
      var s := JoinLines(frames[0]);
      assert text == s + "\n\n" + (FramesText(frames[1..]) + tail);
      JoinedHasNoBlankLine(frames[0]);
      FrameEndAfter(s, FramesText(frames[1..]) + tail);
      assert text[..|s|] == s && text[|s| + 2..] == FramesText(frames[1..]) + tail;
      FramesArrive(frames[1..], tail);
    }
  }

  lemma {:induction false} FramesTextSnoc(frames: seq<seq<string>>, last: seq<string>)
    ensures FramesText(frames + [last]) == FramesText(frames) + JoinLines(last) + "\n\n"
  {
    if frames == [] {
      assert [] + [last] == [last] && [last][1..] == [];
    } else {
      FramesTextSnoc(frames[1..], last);
      assert (frames + [last])[1..] == frames[1..] + [last];
      Regrouped(JoinLines(frames[0]) + "\n\n", FramesText(frames[1..]), JoinLines(last), "\n\n");
    }
  }

  lemma {:induction false} Regrouped(a: string, b: string, c: string, d: string)
    ensures a + (b + c + d) == a + b + c + d
  {
  }

  function Concat(chunks: seq<string>): string {
    if chunks == [] then "" else Concat(chunks[..|chunks| - 1]) + chunks[|chunks| - 1]
  }

  lemma {:induction false} ConcatTake(chunks: seq<string>, i: nat)
    requires i < |chunks|
    ensures Concat(chunks[..i + 1]) == Concat(chunks[..i]) + chunks[i]
  {
    assert chunks[..i + 1][..i] == chunks[..i];
  }

  predicate StartsWith(s: string, prefix: string) {
    prefix <= s
  }

  /** What a buffered reader has cut so far: frames, and the buffer. */
  function CutChunks(chunks: seq<string>): Cut {
    if chunks == [] then Cut([], "")
    else
      var before := CutChunks(chunks[..|chunks| - 1]);
      var now := CutFrames(before.rest + chunks[|chunks| - 1]);
      Cut(before.frames + now.frames, now.rest)
  }

  /** However the text is chunked, buffered cutting is cutting the whole text. */
  lemma {:induction false} ChunkingDoesNotMatter(chunks: seq<string>)
    ensures CutChunks(chunks) == CutFrames(Concat(chunks))
  {
    if chunks != [] {
      ChunkingDoesNotMatter(chunks[..|chunks| - 1]);
      CutJoin(Concat(chunks[..|chunks| - 1]), chunks[|chunks| - 1]);
    }
  }
}
