/** The search of one file for a Vault token, and the report over the whole tree. */
module TokenSearch {
  import opened Prelude
  import opened SecretScan

  const TOKEN_PREFIX := "hvs."
  const MIN_MATERIAL := 16
  const TOKEN_LENGTH := |TOKEN_PREFIX| + MIN_MATERIAL

  /** The one literal exempt from the search. */
  const FAKE_TOKEN_SENTINEL := TOKEN_PREFIX + "token-de-mentira-para-tests"

  predicate TokenChar(c: char) {
    'A' <= c <= 'Z' || 'a' <= c <= 'z' || '0' <= c <= '9' || c == '_' || c == '-'
  }

  /** The same characters by their codes. */
  lemma {:induction false} TokenCodes(c: char)
    ensures TokenChar(c) <==>
      0x30 <= c as int <= 0x39 || 0x41 <= c as int <= 0x5A || 0x61 <= c as int <= 0x7A || c as int in {0x2D, 0x5F}
  {
  }

  /** The shortest token that can be matched stands at position i. */
  predicate TokenAt(text: string, i: nat) {
    && i + TOKEN_LENGTH <= |text|
    && text[i..i + |TOKEN_PREFIX|] == TOKEN_PREFIX
    && forall k :: i + |TOKEN_PREFIX| <= k < i + TOKEN_LENGTH ==> TokenChar(text[k])
  }

  /** The search of the pattern: the first position that matches. */
  predicate HasToken(text: string)
    ensures HasToken(text) <==> exists i: nat :: TokenAt(text, i)
  {
    if text == [] then false
    else
      assert forall i: nat :: i > 0 && TokenAt(text, i) ==> TokenAt(text[1..], i - 1) by {
        forall i: nat | i > 0 && TokenAt(text, i)
          ensures TokenAt(text[1..], i - 1)
        {
          TokenMoves(text, i);
        }
      }
      assert forall i: nat :: TokenAt(text[1..], i) ==> TokenAt(text, i + 1) by {
        forall i: nat | TokenAt(text[1..], i)
          ensures TokenAt(text, i + 1)
        {
          TokenMoves(text, i + 1);
        }
      }
      TokenAt(text, 0) || HasToken(text[1..])
  }

  lemma {:induction false} TokenMoves(text: string, i: nat)
    requires 0 < i && text != []
    ensures TokenAt(text, i) <==> TokenAt(text[1..], i - 1)
  {
    if i + TOKEN_LENGTH <= |text| {
      assert text[1..][i - 1..i - 1 + |TOKEN_PREFIX|] == text[i..i + |TOKEN_PREFIX|];
      assert forall k :: i <= k < i + TOKEN_LENGTH ==> text[1..][k - 1] == text[k];
      assert forall k :: i - 1 <= k < i - 1 + TOKEN_LENGTH ==> text[k + 1] == text[1..][k];
    }
  }

  // ------------------------------------------------------------------
  // Taking a literal out
  // ------------------------------------------------------------------

  /** text.replace(cut, ""): every occurrence, from left to right, without overlap. */
  function Remove(text: string, cut: string): string
    requires cut != []
    decreases |text|
  {
    if |text| < |cut| then text
    else if cut <= text then Remove(text[|cut|..], cut)
    else [text[0]] + Remove(text[1..], cut)
  }

  /** The occurrence at position c is one of those removed. */
  ghost predicate RemovedAt(text: string, cut: string, c: nat)
    requires cut != []
    decreases |text|
  {
    if |text| < |cut| then false
    else if cut <= text then c == 0 || (c >= |cut| && RemovedAt(text[|cut|..], cut, c - |cut|))
    else c > 0 && RemovedAt(text[1..], cut, c - 1)
  }

  ghost predicate OccursAt(text: string, cut: string, c: nat) {
    c + |cut| <= |text| && text[c..c + |cut|] == cut
  }

  lemma {:induction false} AtTheStart(text: string, cut: string)
    requires cut != []
    ensures cut <= text ==> OccursAt(text, cut, 0) && RemovedAt(text, cut, 0)
  {
  }

  lemma {:induction false} OccursShifted(text: string, cut: string, n: nat, c: nat)
    requires n <= c && n <= |text|
    ensures OccursAt(text, cut, c) <==> OccursAt(text[n..], cut, c - n)
  {
    if c + |cut| <= |text| {
      assert text[n..][c - n..c - n + |cut|] == text[c..c + |cut|];
    }
  }

  lemma {:induction false} RemovedOccurs(text: string, cut: string, c: nat)
    requires cut != [] && RemovedAt(text, cut, c)
    ensures OccursAt(text, cut, c)
    decreases |text|
  {
    if cut <= text {
      if c > 0 {
        RemovedOccurs(text[|cut|..], cut, c - |cut|);
        OccursShifted(text, cut, |cut|, c);
      }
    } else {
      RemovedOccurs(text[1..], cut, c - 1);
      OccursShifted(text, cut, 1, c);
    }
  }

  /** An occurrence stays only because a removed one reaches into it. */
  lemma {:induction false} LeftBecauseOverlapped(text: string, cut: string, c: nat) returns (before: nat)
    requires cut != [] && OccursAt(text, cut, c) && !RemovedAt(text, cut, c)
    ensures before < c < before + |cut| && RemovedAt(text, cut, before)
    decreases |text|
  {
    if cut <= text {
      if c < |cut| {
        before := 0;
      } else {
        OccursShifted(text, cut, |cut|, c);
        var inner := LeftBecauseOverlapped(text[|cut|..], cut, c - |cut|);
        before := inner + |cut|;
      }
    } else {
      AtTheStart(text, cut);
      OccursShifted(text, cut, 1, c);
      var inner := LeftBecauseOverlapped(text[1..], cut, c - 1);
      before := inner + 1;
    }
  }

  lemma {:induction false} RemovedDisjoint(text: string, cut: string, c: nat, d: nat)
    requires cut != [] && RemovedAt(text, cut, c) && RemovedAt(text, cut, d) && c < d
    ensures c + |cut| <= d
    decreases |text|
  {
    if cut <= text {
      if c > 0 {
        RemovedDisjoint(text[|cut|..], cut, c - |cut|, d - |cut|);
      }
    } else {
      RemovedDisjoint(text[1..], cut, c - 1, d - 1);
    }
  }

  ghost predicate Overlapped(text: string, cut: string, c: nat)
    requires cut != []
  {
    exists before: nat :: RemovedAt(text, cut, before) && before < c < before + |cut|
  }

  /** Left to right: an occurrence is removed exactly when no removed one before it reaches into it. */
  lemma {:induction false} RemovedIffFree(text: string, cut: string, c: nat)
    requires cut != []
    ensures RemovedAt(text, cut, c) <==>
      OccursAt(text, cut, c) && !Overlapped(text, cut, c)
  {
    if RemovedAt(text, cut, c) {
      RemovedOccurs(text, cut, c);
      forall before: nat | before < c && RemovedAt(text, cut, before)
        ensures before + |cut| <= c
      {
        RemovedDisjoint(text, cut, before, c);
      }
    } else if OccursAt(text, cut, c) {
      var before := LeftBecauseOverlapped(text, cut, c);
    }
  }

  // ------------------------------------------------------------------
  // What is found
  // ------------------------------------------------------------------

  /** No removed occurrence touches the n characters from i on. */
  ghost predicate Untouched(text: string, cut: string, i: nat, n: nat)
    requires cut != []
  {
    forall c: nat :: RemovedAt(text, cut, c) ==> c + |cut| <= i || i + n <= c
  }

  lemma {:induction false} UntouchedStart(text: string, cut: string, n: nat)
    requires cut != [] && 0 < n <= |text| && Untouched(text, cut, 0, n)
    ensures n <= |Remove(text, cut)| && Remove(text, cut)[..n] == text[..n]
    decreases |text|
  {
    if |text| >= |cut| {
      AtTheStart(text, cut);
      if n > 1 {
        forall c: nat | RemovedAt(text[1..], cut, c)
          ensures n - 1 <= c
        {
          assert RemovedAt(text, cut, c + 1);
        }
        UntouchedStart(text[1..], cut, n - 1);
        assert text[..n] == [text[0]] + text[1..][..n - 1];
        assert ([text[0]] + Remove(text[1..], cut))[..n] == [text[0]] + Remove(text[1..], cut)[..n - 1];
      }
    }
  }

  lemma {:induction false} TokenInFront(text: string, rest: string)
    requires TokenAt(text, 0) && |rest| >= TOKEN_LENGTH && rest[..TOKEN_LENGTH] == text[..TOKEN_LENGTH]
    ensures TokenAt(rest, 0)
  {
    assert rest[0..|TOKEN_PREFIX|] == rest[..TOKEN_LENGTH][0..|TOKEN_PREFIX|];
    assert text[0..|TOKEN_PREFIX|] == text[..TOKEN_LENGTH][0..|TOKEN_PREFIX|];
    assert forall k :: 0 <= k < TOKEN_LENGTH ==>
      rest[k] == rest[..TOKEN_LENGTH][k] == text[..TOKEN_LENGTH][k] == text[k];
  }

  lemma {:induction false} TokenFurther(text: string, i: nat, n: nat)
    requires 0 < n <= i && n <= |text| && TokenAt(text, i)
    ensures TokenAt(text[n..], i - n)
    decreases n
  {
    TokenMoves(text, i);
    if n > 1 {
      TokenFurther(text[1..], i - 1, n - 1);
      assert text[1..][n - 1..] == text[n..];
    }
  }

  /** A token no removed occurrence overlaps is still found after the removal. */
  lemma {:induction false} TokenSurvives(text: string, cut: string, i: nat)
    requires cut != [] && TokenAt(text, i) && Untouched(text, cut, i, TOKEN_LENGTH)
    ensures HasToken(Remove(text, cut))
    decreases |text|
  {
    if |text| < |cut| {
    } else if cut <= text {
      assert RemovedAt(text, cut, 0);
      var n := |cut|;
      TokenFurther(text, i, n);
      forall c: nat | RemovedAt(text[n..], cut, c)
        ensures c + |cut| <= i - n || i - n + TOKEN_LENGTH <= c
      {
        assert RemovedAt(text, cut, c + n);
      }
      TokenSurvives(text[n..], cut, i - n);
    } else if i == 0 {
      UntouchedStart(text, cut, TOKEN_LENGTH);
      TokenInFront(text, Remove(text, cut));
    } else {
      TokenMoves(text, i);
      forall c: nat | RemovedAt(text[1..], cut, c)
        ensures c + |cut| <= i - 1 || i - 1 + TOKEN_LENGTH <= c
      {
        assert RemovedAt(text, cut, c + 1);
      }
      TokenSurvives(text[1..], cut, i - 1);
      var rest := Remove(text[1..], cut);
      assert ([text[0]] + rest)[1..] == rest;
    }
  }

  lemma {:induction false} NothingToRemove(text: string, cut: string)
    requires cut != [] && forall c: nat :: !OccursAt(text, cut, c)
    ensures Remove(text, cut) == text
    decreases |text|
  {
    if |text| >= |cut| {
      AtTheStart(text, cut);
      forall c: nat
        ensures !OccursAt(text[1..], cut, c)
      {
        OccursShifted(text, cut, 1, c + 1);
      }
      NothingToRemove(text[1..], cut);
    }
  }

  predicate Flagged(text: string) {
    HasToken(Remove(text, FAKE_TOKEN_SENTINEL))
  }

  /** Without the fake token the verdict is exactly whether a token stands in the text. */
  lemma {:induction false} FlaggedWithoutSentinel(text: string)
    requires forall c: nat :: !OccursAt(text, FAKE_TOKEN_SENTINEL, c)
    ensures Flagged(text) <==> exists i: nat :: TokenAt(text, i)
  {
    NothingToRemove(text, FAKE_TOKEN_SENTINEL);
  }

  /** The first occurrence splits the text: what is before it stays, what is after it is treated alike. */
  lemma {:induction false} RemoveSplits(a: string, cut: string, b: string)
    requires cut != [] && forall c: nat :: c < |a| ==> !OccursAt(a + cut + b, cut, c)
    ensures Remove(a + cut + b, cut) == a + Remove(b, cut)
    decreases |a|
  {
    var text := a + cut + b;
    if a == [] {
      assert text[|cut|..] == b && cut <= text;
      assert a + Remove(b, cut) == Remove(b, cut);
    } else {
      var shorter := a[1..] + cut + b;
      assert text[1..] == shorter;
      assert !OccursAt(text, cut, 0);
      AtTheStart(text, cut);
      forall c: nat | c < |a[1..]|
        ensures !OccursAt(shorter, cut, c)
      {
        assert !OccursAt(text, cut, c + 1);
        OccursShifted(text, cut, 1, c + 1);
      }
      RemoveSplits(a[1..], cut, b);
      assert [a[0]] + (a[1..] + Remove(b, cut)) == a + Remove(b, cut);
    }
  }

  /**
   * A file with the fake token is flagged exactly when a token stands in what is left once the
   * pieces around the fake token are put together: one that reaches into it goes unseen, one
   * that forms across the gap is reported.
   */
  lemma {:induction false} FlaggedAround(a: string, b: string)
    requires forall c: nat :: c < |a| ==> !OccursAt(a + FAKE_TOKEN_SENTINEL + b, FAKE_TOKEN_SENTINEL, c)
    ensures Flagged(a + FAKE_TOKEN_SENTINEL + b) <==> HasToken(a + Remove(b, FAKE_TOKEN_SENTINEL))
  {
    RemoveSplits(a, FAKE_TOKEN_SENTINEL, b);
  }

  /** In particular a longer token that begins with the fake one is reported only for what follows it. */
  lemma {:induction false} LeadingSentinelIgnored(rest: string)
    ensures TokenAt(FAKE_TOKEN_SENTINEL + rest, 0)
    ensures Flagged(FAKE_TOKEN_SENTINEL + rest) == Flagged(rest)
  {
    var cut := FAKE_TOKEN_SENTINEL;
    FlaggedAround([], rest);
    assert [] + cut + rest == cut + rest && [] + Remove(rest, cut) == Remove(rest, cut);
    assert (cut + rest)[0..|TOKEN_PREFIX|] == TOKEN_PREFIX;
    SentinelChars();
    assert forall k :: |TOKEN_PREFIX| <= k < TOKEN_LENGTH ==> (cut + rest)[k] == cut[k];
  }

  lemma {:induction false} SentinelChars()
    ensures |FAKE_TOKEN_SENTINEL| == 31 && FAKE_TOKEN_SENTINEL[3] == '.'
    ensures TOKEN_PREFIX <= FAKE_TOKEN_SENTINEL
    ensures forall k :: |TOKEN_PREFIX| <= k < 31 ==> TokenChar(FAKE_TOKEN_SENTINEL[k])
  {
    var material := "token-de-mentira-para-tests";
    assert forall k :: 0 <= k < |material| ==> TokenChar(material[k]);
    assert forall k :: |TOKEN_PREFIX| <= k < 31 ==> FAKE_TOKEN_SENTINEL[k] == material[k - |TOKEN_PREFIX|];
  }

  ghost predicate Material(s: string) {
    forall k :: 0 <= k < |s| ==> TokenChar(s[k])
  }

  /** Only its dot can begin a token, so a single prefix has one chance. */
  lemma {:induction false} TokenIffLong(m: string)
    requires Material(m)
    ensures HasToken(TOKEN_PREFIX + m) <==> |m| >= MIN_MATERIAL
  {
    var text := TOKEN_PREFIX + m;
    forall i: nat | i > 0
      ensures !TokenAt(text, i)
    {
      if i + TOKEN_LENGTH <= |text| {
        assert text[i..i + |TOKEN_PREFIX|][3] == text[i + 3] == m[i - 1];
        assert TokenChar(m[i - 1]);
      }
    }
    assert text[0..|TOKEN_PREFIX|] == TOKEN_PREFIX;
    assert |m| >= MIN_MATERIAL ==> TokenAt(text, 0);
  }

  lemma {:induction false} SentinelNotBefore(m: string, b: string, c: nat)
    requires Material(m) && Material(b) && |m| < MIN_MATERIAL && c < |TOKEN_PREFIX + m|
    ensures !OccursAt(TOKEN_PREFIX + m + FAKE_TOKEN_SENTINEL + b, FAKE_TOKEN_SENTINEL, c)
  {
    var a, cut := TOKEN_PREFIX + m, FAKE_TOKEN_SENTINEL;
    var text := a + cut + b;
    SentinelChars();
    if c + |cut| <= |text| {
      var k, piece := |a| + 3 - c, text[c..c + |cut|];
      assert piece[k] == text[|a| + 3] == '.' && TokenChar(cut[k]);
    }
  }

  lemma {:induction false} NoDotNoSentinel(b: string)
    requires Material(b)
    ensures Remove(b, FAKE_TOKEN_SENTINEL) == b
  {
    forall c: nat
      ensures !OccursAt(b, FAKE_TOKEN_SENTINEL, c)
    {
      SentinelChars();
      if c + |FAKE_TOKEN_SENTINEL| <= |b| {
        assert b[c..c + |FAKE_TOKEN_SENTINEL|][3] == b[c + 3];
      }
    }
    NothingToRemove(b, FAKE_TOKEN_SENTINEL);
  }

  /**
   * Too little material before the fake token and some after it: flagged exactly when both
   * together would do, although what stands in the file is a token as soon as there are 13
   * characters before it, completed by the fake token's own first letters.
   */
  lemma {:induction false} TokenIntoSentinel(m: string, b: string)
    requires Material(m) && Material(b) && |m| < MIN_MATERIAL
    ensures var text := TOKEN_PREFIX + m + FAKE_TOKEN_SENTINEL + b;
            && (Flagged(text) <==> |m| + |b| >= MIN_MATERIAL)
            && (TokenAt(text, 0) <==> |m| >= 13)
  {
    var a := TOKEN_PREFIX + m;
    forall c: nat | c < |a|
      ensures !OccursAt(a + FAKE_TOKEN_SENTINEL + b, FAKE_TOKEN_SENTINEL, c)
    {
      SentinelNotBefore(m, b, c);
    }
    FlaggedAround(a, b);
    NoDotNoSentinel(b);
    TokenIffLong(m + b);
    assert a + b == TOKEN_PREFIX + (m + b);
    TokenReaches(m, b);
  }

  lemma {:induction false} TokenReaches(m: string, b: string)
    requires Material(m) && |m| < MIN_MATERIAL
    ensures TokenAt(TOKEN_PREFIX + m + FAKE_TOKEN_SENTINEL + b, 0) <==> |m| >= 13
  {
    var a := TOKEN_PREFIX + m;
    var text := a + FAKE_TOKEN_SENTINEL + b;
    SentinelChars();
    assert text[0..|TOKEN_PREFIX|] == TOKEN_PREFIX;
    assert forall k :: |TOKEN_PREFIX| <= k < |a| ==> text[k] == m[k - |TOKEN_PREFIX|];
    assert forall k :: 0 <= k < 31 ==> text[|a| + k] == FAKE_TOKEN_SENTINEL[k];
    assert text[|a|] == 'h' && text[|a| + 1] == 'v' && text[|a| + 2] == 's' && text[|a| + 3] == '.';
  }

  // ------------------------------------------------------------------
  // The report
  // ------------------------------------------------------------------

  ghost function Readable(found: seq<Found>): set<Found> {
    set f | f in found && f.text.Some?
  }

  lemma {:induction false} LastInPrefix(found: seq<Found>, i: nat)
    requires DistinctPaths(found) && i < |found|
    ensures found[i] !in found[..i]
  {
    assert forall k :: 0 <= k < i ==> found[k].path != found[i].path;
  }

  lemma {:induction false} ReadableSnoc(found: seq<Found>, f: Found)
    requires f !in found
    ensures |Readable(found + [f])| == |Readable(found)| + if f.text.Some? then 1 else 0
  {
    assert Readable(found + [f]) == Readable(found) + if f.text.Some? then {f} else {};
  }

  /** The paths of the flagged files, and the number of files read. */
  method TokenFindings(root: Node) returns (findings: seq<Path>, scanned: nat)
    requires root.Dir? && DistinctNames(root.entries)
    ensures NoDuplicates(findings)
    ensures forall p :: p in findings <==> exists text :: LeadsTo(root.entries, p, Some(text)) && Flagged(text)
    ensures scanned == |Readable(FilesOf([], root))|
  {
    var found := EligibleFiles(root);
    findings, scanned := [], 0;
    var i := 0;
    while i < |found|
      invariant 0 <= i <= |found|
      invariant scanned == |Readable(found[..i])|
      invariant Reported(found, i, findings)
    {
      assert found[..i + 1] == found[..i] + [found[i]];
      LastInPrefix(found, i);
      ReadableSnoc(found[..i], found[i]);
      ReportedSnoc(found, i, findings);
      var text := found[i].text;
      if text.Some? {
        scanned := scanned + 1;
        if Flagged(text.value) {
          findings := findings + [found[i].path];
        }
      }
      i := i + 1;
    }
    assert found[..i] == found;
    ReportComplete(root, found, findings);
    SameReadable(root, found);
  }

  ghost predicate FlaggedFile(f: Found, p: Path) {
    f.path == p && f.text.Some? && Flagged(f.text.value)
  }

  /** The paths of the flagged files among the first i, each once. */
  ghost predicate Reported(found: seq<Found>, i: nat, findings: seq<Path>)
    requires i <= |found|
  {
    && NoDuplicates(findings)
    && (forall p :: p in findings ==> exists k :: 0 <= k < i && FlaggedFile(found[k], p))
    && (forall k :: 0 <= k < i && FlaggedFile(found[k], found[k].path) ==> found[k].path in findings)
  }

  lemma {:induction false} ReportedSnoc(found: seq<Found>, i: nat, findings: seq<Path>)
    requires i < |found| && DistinctPaths(found) && Reported(found, i, findings)
    ensures Reported(found, i + 1, if FlaggedFile(found[i], found[i].path) then findings + [found[i].path]
        else findings)
  {
    assert found[i].path !in findings;
  }

  lemma {:induction false} ReportComplete(root: Node, found: seq<Found>, findings: seq<Path>)
    requires root.Dir? && forall f :: f in found <==> LeadsTo(root.entries, f.path, f.text)
    requires Reported(found, |found|, findings)
    ensures forall p :: p in findings <==> exists text :: LeadsTo(root.entries, p, Some(text)) && Flagged(text)
  {
    forall p
      ensures p in findings <==> exists text :: LeadsTo(root.entries, p, Some(text)) && Flagged(text)
    {
      if p in findings {
        var k :| 0 <= k < |found| && FlaggedFile(found[k], p);
        assert found[k] in found && found[k].text == Some(found[k].text.value);
        assert LeadsTo(root.entries, p, Some(found[k].text.value));
      }
      if text :| LeadsTo(root.entries, p, Some(text)) && Flagged(text) {
        assert Found(p, Some(text)) in found;
        var k :| 0 <= k < |found| && found[k] == Found(p, Some(text));
        assert FlaggedFile(found[k], found[k].path);
      }
    }
  }

  lemma {:induction false} SameReadable(root: Node, found: seq<Found>)
    requires root.Dir? && forall f :: f in found <==> LeadsTo(root.entries, f.path, f.text)
    ensures Readable(found) == Readable(FilesOf([], root))
  {
    forall f
      ensures f in found <==> f in FilesOf([], root)
    {
      EntriesListed([], root.entries, f);
      assert f.path != [] ==> f.path[0..] == f.path;
    }
  }
}
