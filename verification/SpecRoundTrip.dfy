/**
 * Opening the editor and saving without a change: exactly when the criteria come
 * back as they were, and what that means for the whole specification.
 */
module SpecRoundTrip {
  import opened Prelude
  import opened Text
  import opened AcceptanceCriteria
  import opened PlanSpecEdit
  import opened CriteriaClaims

  /** A criterion as saving may leave it: prose is trimmed, everything else stays. */
  function Settled(c: Criterion): Criterion {
    if c.Prose? then Prose(Trim(c.text)) else c
  }

  ghost predicate SettledAs(cs: seq<Criterion>, out: seq<Criterion>) {
    |out| == |cs| && forall i :: 0 <= i < |cs| ==> out[i] == Settled(cs[i])
  }

  function UneditedText(h: Host, cs: seq<Criterion>): string {
    JoinLines(CriteriaTexts(h, cs))
  }

  // ------------------------------------------------------------------
  // One text, one line
  // ------------------------------------------------------------------

  lemma {:induction false} TextLinesJoin(a: seq<string>, b: seq<string>)
    ensures TextLines(a + b) == TextLines(a) + TextLines(b)
  {
    if b == [] {
      assert a + b == a;
    } else {
      var n := |b| - 1;
      TextLinesJoin(a, b[..n]);
      assert (a + b)[..|a + b| - 1] == a + b[..n];
    }
  }

  lemma {:induction false} TextLinesOne(line: string)
    ensures TextLines([line]) == if Trim(line) == "" then [] else [line]
  {
    assert [line][..0] == [];
  }

  /** How many lines with text a text has: none if it is blank, one if its trimmed form is a single line. */
  lemma {:induction false} LinesOfText(t: string)
    ensures |TextLines(SplitLines(t))| == 0 <==> Trim(t) == ""
    ensures |TextLines(SplitLines(t))| == 1 <==> Trim(t) != "" && '\n' !in Trim(t)
    ensures |TextLines(SplitLines(t))| == 1 ==> Trim(TextLines(SplitLines(t))[0]) == Trim(t)
    decreases |t|
  {
    if '\n' !in t {
      SplitSingle(t);
      TextLinesOne(t);
      TrimWithin(t, '\n');
    } else {
      var a, b := FirstNewline(t);
      LinesOfText(b);
      SplitSingle(a);
      SplitJoined(a, b);
      TextLinesJoin([a], SplitLines(b));
      TextLinesOne(a);
      TrimWithin(a, '\n');
      TrimAgree(a);
      TrimAgree(b);
      TrimSplit(a, b);
    }
  }

  lemma {:induction false} TrimBlankBefore(a: string, b: string)
    requires Words(a) == []
    ensures Trim(a + ['\n'] + b) == Trim(b)
  {
    NewlineAddsNoWords(a, b);
    TrimLead(a + ['\n'], b);
  }

  lemma {:induction false} TrimBlankAfter(a: string, b: string)
    requires Words(a) != [] && Words(b) == []
    ensures Trim(a + ['\n'] + b) == Trim(a)
  {
    NewlineAddsNoWords(a, b);
    Associative(a, ['\n'], b);
    TrimTail(a, ['\n'] + b);
  }

  lemma {:induction false} TrimSplit(a: string, b: string)
    ensures Words(a) == [] ==> Trim(a + ['\n'] + b) == Trim(b)
    ensures Words(a) != [] && Words(b) == [] ==> Trim(a + ['\n'] + b) == Trim(a)
    ensures Words(a) != [] && Words(b) != [] ==> '\n' in Trim(a + ['\n'] + b)
  {
    if Words(a) == [] {
      TrimBlankBefore(a, b);
    } else if Words(b) == [] {
      TrimBlankAfter(a, b);
    } else {
      TrimMiddle(a, b);
      Associative(a, ['\n'], b);
    }
  }

  lemma {:induction false} NewlineAddsNoWords(a: string, b: string)
    ensures Words(a + ['\n']) == Words(a)
    ensures Words(['\n'] + b) == Words(b)
  {
    WordsJoin(a, [], '\n');
    assert a + ['\n'] + [] == a + ['\n'];
    assert (['\n'] + b)[1..] == b;
  }

  /** The lines of several texts, one after the other. */
  function AllLines(texts: seq<string>): seq<string> {
    if texts == [] then [] else SplitLines(texts[0]) + AllLines(texts[1..])
  }

  lemma {:induction false} SplitJoinedAll(texts: seq<string>)
    requires texts != []
    ensures SplitLines(JoinLines(texts)) == AllLines(texts)
  {
    if |texts| > 1 {
      SplitJoinedAll(texts[1..]);
      SplitJoined(texts[0], JoinLines(texts[1..]));
    } else {
      assert AllLines(texts[1..]) == [];
    }
  }

  lemma {:induction false} AllLinesCons(texts: seq<string>)
    requires texts != []
    ensures TextLines(AllLines(texts)) == TextLines(SplitLines(texts[0])) + TextLines(AllLines(texts[1..]))
  {
    TextLinesJoin(SplitLines(texts[0]), AllLines(texts[1..]));
  }

  /** Texts with at least one line each, and no more lines in all than texts, have one each. */
  lemma {:induction false} OneLineEach(texts: seq<string>)
    requires forall i :: 0 <= i < |texts| ==> Trim(texts[i]) != ""
    ensures |TextLines(AllLines(texts))| >= |texts|
    ensures |TextLines(AllLines(texts))| == |texts| ==> forall i :: 0 <= i < |texts| ==> '\n' !in Trim(texts[i])
  {
    if texts != [] {
      OneLineEach(texts[1..]);
      LinesOfText(texts[0]);
      AllLinesCons(texts);
      if |TextLines(AllLines(texts))| == |texts| {
        forall i | 0 <= i < |texts|
          ensures '\n' !in Trim(texts[i])
        {
          assert i > 0 ==> texts[i] == texts[1..][i - 1];
        }
      }
    }
  }

  ghost predicate SameTrimmed(a: seq<string>, b: seq<string>) {
    |a| == |b| && forall i :: 0 <= i < |a| ==> Trim(a[i]) == Trim(b[i])
  }

  /** When every trimmed text is a single line, the lines with text are the texts again, up to trimming. */
  lemma {:induction false} LinesAreTexts(texts: seq<string>)
    requires forall i :: 0 <= i < |texts| ==> Trim(texts[i]) != "" && '\n' !in Trim(texts[i])
    ensures SameTrimmed(TextLines(AllLines(texts)), texts)
  {
    if texts != [] {
      LinesAreTexts(texts[1..]);
      LinesOfText(texts[0]);
      AllLinesCons(texts);
    }
  }

  // ------------------------------------------------------------------
  // What is emitted depends on the trimmed lines only
  // ------------------------------------------------------------------

  lemma {:induction false} LinesWithPush(h: Host, lines: seq<string>, line: string, key: seq<string>)
    ensures LinesWith(h, lines + [line], key)
         == LinesWith(h, lines, key) + (if Trim(line) != "" && CriterionKey(h, line) == key then 1 else 0)
  {
    assert (lines + [line])[..|lines|] == lines;
  }

  lemma {:induction false} CountsTextLines(h: Host, lines: seq<string>, key: seq<string>)
    ensures LinesWith(h, lines, key) == LinesWith(h, TextLines(lines), key)
  {
    if lines != [] {
      var n := |lines| - 1;
      CountsTextLines(h, lines[..n], key);
      LinesWithPush(h, TextLines(lines[..n]), lines[n], key);
      if Trim(lines[n]) == "" {
        assert TextLines(lines) == TextLines(lines[..n]);
      }
    }
  }

  lemma {:induction false} OnlyTextLinesMatter(h: Host, originals: seq<Criterion>, lines: seq<string>)
    ensures EmittedFor(h, originals, lines) == EmittedFor(h, originals, TextLines(lines))
  {
    if lines != [] {
      var n := |lines| - 1;
      OnlyTextLinesMatter(h, originals, lines[..n]);
      EmittedSnoc(h, originals, lines);
      if Trim(lines[n]) != "" {
        assert TextLines(lines)[..|TextLines(lines)| - 1] == TextLines(lines[..n]);
        CountsTextLines(h, lines[..n], CriterionKey(h, lines[n]));
        EmittedSnoc(h, originals, TextLines(lines));
      } else {
        assert TextLines(lines) == TextLines(lines[..n]);
        assert EmittedFor(h, originals, lines) == EmittedFor(h, originals, lines[..n]);
      }
    }
  }

  lemma {:induction false} SameTrimmedSameKey(h: Host, a: string, b: string)
    requires Trim(a) == Trim(b)
    ensures PlanSpecEdit.CriterionKey(h, a) == PlanSpecEdit.CriterionKey(h, b)
  {
    WordsTrim(a);
    WordsTrim(b);
  }

  lemma {:induction false} CountsTrimmed(h: Host, a: seq<string>, b: seq<string>, key: seq<string>)
    requires SameTrimmed(a, b)
    ensures LinesWith(h, a, key) == LinesWith(h, b, key)
  {
    if a != [] {
      var n := |a| - 1;
      CountsTrimmed(h, a[..n], b[..n], key);
      SameTrimmedSameKey(h, a[n], b[n]);
    }
  }

  lemma {:induction false} OnlyTrimmedMatters(h: Host, originals: seq<Criterion>, a: seq<string>, b: seq<string>)
    requires SameTrimmed(a, b)
    ensures EmittedFor(h, originals, a) == EmittedFor(h, originals, b)
  {
    if a != [] {
      var n := |a| - 1;
      OnlyTrimmedMatters(h, originals, a[..n], b[..n]);
      SameTrimmedSameKey(h, a[n], b[n]);
      CountsTrimmed(h, a[..n], b[..n], CriterionKey(h, a[n]));
      EmittedSnoc(h, originals, a);
      EmittedSnoc(h, originals, b);
    }
  }

  /** Line by line, when every line has text. */
  lemma {:induction false} EmittedLength(h: Host, originals: seq<Criterion>, lines: seq<string>)
    requires forall k :: 0 <= k < |lines| ==> Trim(lines[k]) != ""
    ensures |EmittedFor(h, originals, lines)| == |lines|
  {
    if lines != [] {
      EmittedSnoc(h, originals, lines);
      EmittedLength(h, originals, lines[..|lines| - 1]);
    }
  }

  ghost function EmittedLine(h: Host, originals: seq<Criterion>, lines: seq<string>, i: nat): Criterion
    requires i < |lines|
  {
    var key := CriterionKey(h, lines[i]);
    Claim(Claimable(h, originals, key), LinesWith(h, lines[..i], key), Trim(lines[i]))
  }

  lemma {:induction false} EmittedLast(h: Host, originals: seq<Criterion>, lines: seq<string>)
    requires lines != [] && Trim(lines[|lines| - 1]) != ""
    ensures EmittedFor(h, originals, lines)
         == EmittedFor(h, originals, lines[..|lines| - 1]) + [EmittedLine(h, originals, lines, |lines| - 1)]
  {
  }

  lemma {:induction false} EmittedLinePrefix(h: Host, originals: seq<Criterion>, lines: seq<string>, i: nat)
    requires i < |lines| - 1
    ensures EmittedLine(h, originals, lines[..|lines| - 1], i) == EmittedLine(h, originals, lines, i)
  {
    assert lines[..|lines| - 1][..i] == lines[..i];
  }

  lemma {:induction false} EmittedAt(h: Host, originals: seq<Criterion>, lines: seq<string>, i: nat)
    requires forall k :: 0 <= k < |lines| ==> Trim(lines[k]) != ""
    requires i < |lines|
    ensures |EmittedFor(h, originals, lines)| == |lines|
    ensures EmittedFor(h, originals, lines)[i] == EmittedLine(h, originals, lines, i)
  {
    EmittedLast(h, originals, lines);
    EmittedLength(h, originals, lines[..|lines| - 1]);
    if i < |lines| - 1 {
      EmittedAt(h, originals, lines[..|lines| - 1], i);
      EmittedLinePrefix(h, originals, lines, i);
    }
  }

  // ------------------------------------------------------------------
  // Prose before a declaration with the same words
  // ------------------------------------------------------------------

  /** A prose criterion would claim the declaration of a later structured one. */
  ghost predicate ProseClaims(h: Host, cs: seq<Criterion>, i: nat, j: nat) {
    i < j < |cs| && cs[i].Prose? && cs[j].Record?
    && SameWords(h, CriterionText(h, cs[i]), CriterionText(h, cs[j]))
  }

  /** Trimmed, the criterion is one line with text, and it is prose or structured. */
  ghost predicate OneLine(h: Host, c: Criterion) {
    !c.Other? && Trim(CriterionText(h, c)) != "" && '\n' !in Trim(CriterionText(h, c))
  }

  lemma {:induction false} ClaimableSnoc(h: Host, cs: seq<Criterion>, n: nat, key: seq<string>)
    requires n < |cs|
    ensures Claimable(h, cs[..n + 1], key)
         == Claimable(h, cs[..n], key) + (if cs[n].Record? && KeyOf(h, cs[n]) == key && key != [] then [cs[n]] else [])
  {
    assert cs[..n + 1][..n] == cs[..n];
  }

  lemma {:induction false} LinesWithGrow(h: Host, lines: seq<string>, i: nat, j: nat, key: seq<string>)
    requires i <= j <= |lines|
    ensures LinesWith(h, lines[..i], key) <= LinesWith(h, lines[..j], key)
    decreases j
  {
    if i < j {
      LinesWithGrow(h, lines, i, j - 1, key);
      LinesWithSnoc(h, lines, j - 1, key);
    }
  }

  lemma {:induction false} ClaimableGrow(h: Host, cs: seq<Criterion>, i: nat, j: nat, key: seq<string>)
    requires i <= j <= |cs|
    ensures Claimable(h, cs[..i], key) <= Claimable(h, cs[..j], key)
    decreases j
  {
    if i < j {
      ClaimableGrow(h, cs, i, j - 1, key);
      ClaimableSnoc(h, cs, j - 1, key);
    }
  }

  ghost predicate NoProseBefore(h: Host, cs: seq<Criterion>, i: nat, key: seq<string>)
    requires i <= |cs|
  {
    forall k :: 0 <= k < i && cs[k].Prose? ==> KeyOf(h, cs[k]) != key
  }

  ghost predicate NoRecordFrom(h: Host, cs: seq<Criterion>, i: nat, key: seq<string>) {
    forall k :: i <= k < |cs| && cs[k].Record? ==> KeyOf(h, cs[k]) != key
  }

  /** Where no prose shares the key, the lines so far are exactly the structured criteria so far. */
  lemma {:induction false} LinesAreClaims(h: Host, cs: seq<Criterion>, i: nat, key: seq<string>)
    requires forall k :: 0 <= k < |cs| ==> OneLine(h, cs[k])
    requires i <= |cs| && key != []
    ensures LinesWith(h, CriteriaTexts(h, cs)[..i], key) >= |Claimable(h, cs[..i], key)|
    ensures NoProseBefore(h, cs, i, key) ==>
        LinesWith(h, CriteriaTexts(h, cs)[..i], key) == |Claimable(h, cs[..i], key)|
  {
    if i > 0 {
      LinesAreClaims(h, cs, i - 1, key);
      LineIsClaim(h, cs, i - 1, key);
    }
  }

  /** One criterion more: one line more with its key, and one claim more if it is structured. */
  lemma {:induction false} LineIsClaim(h: Host, cs: seq<Criterion>, i: nat, key: seq<string>)
    requires i < |cs| && OneLine(h, cs[i]) && key != []
    ensures LinesWith(h, CriteriaTexts(h, cs)[..i + 1], key)
         == LinesWith(h, CriteriaTexts(h, cs)[..i], key) + (if KeyOf(h, cs[i]) == key then 1 else 0)
    ensures |Claimable(h, cs[..i + 1], key)|
         == |Claimable(h, cs[..i], key)| + (if cs[i].Record? && KeyOf(h, cs[i]) == key then 1 else 0)
  {
    LinesWithSnoc(h, CriteriaTexts(h, cs), i, key);
    ClaimableSnoc(h, cs, i, key);
  }

  lemma {:induction false} NoneClaimableAfter(h: Host, cs: seq<Criterion>, i: nat, j: nat, key: seq<string>)
    requires i <= j <= |cs| && NoRecordFrom(h, cs, i, key)
    ensures Claimable(h, cs[..j], key) == Claimable(h, cs[..i], key)
    decreases j
  {
    if i < j {
      NoneClaimableAfter(h, cs, i, j - 1, key);
      ClaimableSnoc(h, cs, j - 1, key);
    }
  }

  lemma {:induction false} KeyNotEmpty(h: Host, c: Criterion)
    requires OneLine(h, c)
    ensures KeyOf(h, c) != []
  {
    TrimAgree(CriterionText(h, c));
  }

  // ------------------------------------------------------------------
  // The exact condition
  // ------------------------------------------------------------------

  ghost function Emitted(h: Host, cs: seq<Criterion>): seq<Criterion> {
    EmittedFor(h, cs, CriteriaTexts(h, cs))
  }

  /** When every criterion is one line, what is emitted for the joined text is what is emitted
   *  criterion by criterion. */
  lemma {:induction false} EmittedByCriterion(h: Host, cs: seq<Criterion>)
    requires forall i :: 0 <= i < |cs| ==> OneLine(h, cs[i])
    ensures EmittedFor(h, cs, SplitLines(UneditedText(h, cs))) == Emitted(h, cs)
  {
    var texts := CriteriaTexts(h, cs);
    if cs == [] {
      SplitSingle(JoinLines(texts));
      EmittedSnoc(h, cs, [""]);
      assert [""][..0] == [];
    } else {
      forall i | 0 <= i < |texts|
        ensures Trim(texts[i]) != "" && '\n' !in Trim(texts[i])
      {
        assert OneLine(h, cs[i]);
      }
      SplitJoinedAll(texts);
      LinesAreTexts(texts);
      OnlyTextLinesMatter(h, cs, AllLines(texts));
      OnlyTrimmedMatters(h, cs, TextLines(AllLines(texts)), texts);
    }
  }

  lemma {:induction false} CriterionEmittedAt(h: Host, cs: seq<Criterion>, i: nat)
    requires forall k :: 0 <= k < |cs| ==> OneLine(h, cs[k])
    requires i < |cs|
    ensures |Emitted(h, cs)| == |cs| && KeyOf(h, cs[i]) != []
    ensures var key := KeyOf(h, cs[i]);
      Emitted(h, cs)[i] == Claim(Claimable(h, cs, key), LinesWith(h, CriteriaTexts(h, cs)[..i], key),
        Trim(CriterionText(h, cs[i])))
  {
    var texts := CriteriaTexts(h, cs);
    forall k | 0 <= k < |texts|
      ensures Trim(texts[k]) != ""
    {
      assert OneLine(h, cs[k]);
    }
    EmittedAt(h, cs, texts, i);
    KeyNotEmpty(h, cs[i]);
  }

  /** A structured criterion with no prose of its words before it is given back. */
  lemma {:induction false} RecordGivenBack(h: Host, cs: seq<Criterion>, i: nat)
    requires forall k :: 0 <= k < |cs| ==> OneLine(h, cs[k])
    requires i < |cs| && cs[i].Record? && NoProseBefore(h, cs, i, KeyOf(h, cs[i]))
    ensures |Emitted(h, cs)| == |cs| && Emitted(h, cs)[i] == cs[i]
  {
    var key := KeyOf(h, cs[i]);
    CriterionEmittedAt(h, cs, i);
    LinesAreClaims(h, cs, i, key);
    ClaimableSnoc(h, cs, i, key);
    ClaimableGrow(h, cs, i + 1, |cs|, key);
    assert cs[..|cs|] == cs;
  }

  /** A prose criterion with no structured one of its words after it stays prose. */
  lemma {:induction false} ProseGivenBack(h: Host, cs: seq<Criterion>, i: nat)
    requires forall k :: 0 <= k < |cs| ==> OneLine(h, cs[k])
    requires i < |cs| && cs[i].Prose? && NoRecordFrom(h, cs, i, KeyOf(h, cs[i]))
    ensures |Emitted(h, cs)| == |cs| && Emitted(h, cs)[i] == Settled(cs[i])
  {
    var key := KeyOf(h, cs[i]);
    CriterionEmittedAt(h, cs, i);
    LinesAreClaims(h, cs, i, key);
    NoneClaimableAfter(h, cs, i, |cs|, key);
    assert cs[..|cs|] == cs;
  }

  /** Prose before a structured criterion of the same words: one of the two is not given back. */
  lemma {:induction false} ClaimingProseBreaks(h: Host, cs: seq<Criterion>, i: nat, j: nat)
    requires forall k :: 0 <= k < |cs| ==> OneLine(h, cs[k])
    requires ProseClaims(h, cs, i, j)
    ensures !SettledAs(cs, Emitted(h, cs))
  {
    var key := KeyOf(h, cs[i]);
    KeysAgreeIff(h, CriterionText(h, cs[i]), CriterionText(h, cs[j]));
    CriterionEmittedAt(h, cs, i);
    CriterionEmittedAt(h, cs, j);
    MoreLinesLater(h, CriteriaTexts(h, cs), i, j, key);
    assert OneLine(h, cs[i]);
    OneOfTwoClaims(h, cs, key, LinesWith(h, CriteriaTexts(h, cs)[..i], key),
      LinesWith(h, CriteriaTexts(h, cs)[..j], key),
                   Trim(CriterionText(h, cs[i])), Trim(CriterionText(h, cs[j])));
  }

  lemma {:induction false} MoreLinesLater(h: Host, lines: seq<string>, i: nat, j: nat, key: seq<string>)
    requires i < j < |lines| && Trim(lines[i]) != "" && CriterionKey(h, lines[i]) == key
    ensures LinesWith(h, lines[..i], key) < LinesWith(h, lines[..j], key)
  {
    LinesWithSnoc(h, lines, i, key);
    LinesWithGrow(h, lines, i + 1, j, key);
  }

  /** If the earlier of two lines stays prose, so does the later. */
  lemma {:induction false} OneOfTwoClaims(h: Host, cs: seq<Criterion>, key: seq<string>, c: nat, d: nat, text: string,
      later: string)
    requires c < d
    ensures Claim(Claimable(h, cs, key), c, text).Prose? ==> Claim(Claimable(h, cs, key), d, later).Prose?
  {
    ClaimableKeys(h, cs, key);
    var claimable := Claimable(h, cs, key);
    if c < |claimable| {
      assert claimable[c] in claimable;
    }
  }

  lemma {:induction false} OneLinesRoundTrip(h: Host, cs: seq<Criterion>)
    requires forall i :: 0 <= i < |cs| ==> OneLine(h, cs[i])
    ensures SettledAs(cs, Emitted(h, cs)) <==> forall i, j :: !ProseClaims(h, cs, i, j)
  {
    if forall i, j :: !ProseClaims(h, cs, i, j) {
      forall i | 0 <= i < |cs|
        ensures |Emitted(h, cs)| == |cs| && Emitted(h, cs)[i] == Settled(cs[i])
      {
        assert OneLine(h, cs[i]);
        if cs[i].Record? {
          forall k | 0 <= k < i && cs[k].Prose? ensures KeyOf(h, cs[k]) != KeyOf(h, cs[i]) {
            KeysAgreeIff(h, CriterionText(h, cs[k]), CriterionText(h, cs[i]));
            assert !ProseClaims(h, cs, k, i);
          }
          RecordGivenBack(h, cs, i);
        } else {
          forall k | i <= k < |cs| && cs[k].Record? ensures KeyOf(h, cs[k]) != KeyOf(h, cs[i]) {
            KeysAgreeIff(h, CriterionText(h, cs[i]), CriterionText(h, cs[k]));
            assert !ProseClaims(h, cs, i, k);
          }
          ProseGivenBack(h, cs, i);
        }
      }
    }
    forall i, j | ProseClaims(h, cs, i, j)
      ensures !SettledAs(cs, Emitted(h, cs))
    {
      ClaimingProseBreaks(h, cs, i, j);
    }
  }

  /** If the criteria come back, each of them is prose or structured, has text, and is one line. */
  lemma {:induction false} GivenBackMeansOneLine(h: Host, cs: seq<Criterion>)
    requires SettledAs(cs, EmittedFor(h, cs, SplitLines(UneditedText(h, cs))))
    ensures forall i :: 0 <= i < |cs| ==> OneLine(h, cs[i])
  {
    var texts := CriteriaTexts(h, cs);
    var lines := SplitLines(UneditedText(h, cs));
    LinesKeepTheirText(h, cs, lines);
    forall i | 0 <= i < |cs|
      ensures !cs[i].Other? && Trim(texts[i]) != ""
    {
      TextLinesNonBlank(lines);
      var line := TextLines(lines)[i];
      assert OwnText(h, cs, EmittedFor(h, cs, lines)[i], line);
      assert line in TextLines(lines);
      OwnTextHasText(h, cs, EmittedFor(h, cs, lines)[i], line);
      TrimShorterFixed(texts[i]);
    }
    if cs != [] {
      SplitJoinedAll(texts);
      OneLineEach(texts);
    }
  }

  lemma {:induction false} TrimShorterFixed(line: string)
    ensures Trim(Trim(line)) == Trim(line)
  {
    TrimFixed(Trim(line));
  }

  lemma {:induction false} TextLinesNonBlank(lines: seq<string>)
    ensures forall l :: l in TextLines(lines) ==> l in lines && Trim(l) != ""
  {
    if lines != [] {
      TextLinesNonBlank(lines[..|lines| - 1]);
      assert lines == lines[..|lines| - 1] + [lines[|lines| - 1]];
    }
  }

  /**
   * Opening the editor and saving without a change gives every criterion back, up
   * to trimming prose, exactly when each is prose or structured, reads as a single
   * line with text, and no prose stands before a structured one of the same words.
   */
  lemma {:induction false} CriteriaRoundTrip(h: Host, cs: seq<Criterion>)
    ensures SettledAs(cs, EmittedFor(h, cs, SplitLines(UneditedText(h, cs)))) <==>
      (forall i :: 0 <= i < |cs| ==> OneLine(h, cs[i])) && (forall i, j :: !ProseClaims(h, cs, i, j))
  {
    if forall i :: 0 <= i < |cs| ==> OneLine(h, cs[i]) {
      EmittedByCriterion(h, cs);
      OneLinesRoundTrip(h, cs);
    } else if SettledAs(cs, EmittedFor(h, cs, SplitLines(UneditedText(h, cs)))) {
      GivenBackMeansOneLine(h, cs);
    }
  }

  // ------------------------------------------------------------------
  // The whole specification
  // ------------------------------------------------------------------

  function TidyText(text: Option<string>): Option<string> {
    if text.Some? then NonEmpty(text.value) else None
  }

  /** The task with its texts trimmed and its empty fields omitted, and the criteria given. */
  function Tidy(task: TaskSpec, criteria: Option<seq<Criterion>>): TaskSpec {
    TaskSpec(
      Trim(task.id), Trim(task.title),
      TidyText(task.description), TidyText(task.role), TidyText(task.complexity),
      task.hours,
      if task.dependsOn == Some([]) then None else task.dependsOn,
      criteria,
      task.rest)
  }

  function SettledAll(cs: seq<Criterion>): seq<Criterion> {
    seq(|cs|, i requires 0 <= i < |cs| => Settled(cs[i]))
  }

  /** What a task should come back as. */
  function TidySpec(task: TaskSpec): TaskSpec {
    var cs := task.criteria.GetOr([]);
    Tidy(task, if cs == [] then None else Some(SettledAll(cs)))
  }

  /** The condition under which a task does come back so. */
  ghost predicate CriteriaSurvive(h: Host, task: TaskSpec) {
    var cs := task.criteria.GetOr([]);
    (forall i :: 0 <= i < |cs| ==> OneLine(h, cs[i])) && (forall i, j :: !ProseClaims(h, cs, i, j))
  }

  lemma {:induction false} TextRoundTrip(text: Option<string>)
    ensures NonEmpty(text.GetOr("")) == TidyText(text)
  {
    TrimFixed("");
  }

  lemma {:induction false} ShownHoursRead(n: Numbers, x: real)
    requires FaithfulNumbers(n)
    ensures n.parse(n.show(x)) == Some(x)
  {
  }

  lemma {:induction false} HoursRoundTrip(n: Numbers, hours: Option<real>)
    requires FaithfulNumbers(n)
    ensures n.parse(if hours.Some? then n.show(hours.value) else "") == hours
  {
    if hours.Some? {
      ShownHoursRead(n, hours.value);
    }
  }

  lemma {:induction false} DepsRoundTrip(deps: Option<seq<string>>)
    ensures (if deps.GetOr([]) != [] then Some(deps.GetOr([])) else None) == (if deps == Some([]) then None else deps)
  {
  }

  /** Everything but the criteria comes back tidied, whatever the criteria do. */
  lemma {:induction false} OtherFieldsRoundTrip(h: Host, n: Numbers, task: TaskSpec, key: nat)
    requires FaithfulNumbers(n)
    ensures var cs := task.criteria.GetOr([]); var out := EmittedFor(h, cs, SplitLines(UneditedText(h, cs)));
      SpecOf(h, n, ToDraft(h, n, task, key)) == Tidy(task, if out != [] then Some(out) else None)
  {
    TextRoundTrip(task.description);
    TextRoundTrip(task.role);
    TextRoundTrip(task.complexity);
    HoursRoundTrip(n, task.hours);
    DepsRoundTrip(task.dependsOn);
    SpecOfDraft(h, n, task, ToDraft(h, n, task, key));
  }

  lemma {:induction false} SpecOfDraft(h: Host, n: Numbers, task: TaskSpec, draft: TaskDraft)
    requires draft.id == task.id && draft.title == task.title && draft.rest == task.rest
    requires NonEmpty(draft.description) == TidyText(task.description)
    requires NonEmpty(draft.role) == TidyText(task.role)
    requires NonEmpty(draft.complexity) == TidyText(task.complexity)
    requires n.parse(draft.estimatedHours) == task.hours
    requires (if draft.dependsOn != [] then Some(draft.dependsOn) else None)
        == (if task.dependsOn == Some([]) then None else task.dependsOn)
    ensures var out := EmittedFor(h, draft.originals, SplitLines(draft.criteria));
      SpecOf(h, n, draft) == Tidy(task, if out != [] then Some(out) else None)
  {
  }

  lemma {:induction false} SettledAsAll(cs: seq<Criterion>, out: seq<Criterion>)
    ensures SettledAs(cs, out) <==> out == SettledAll(cs)
  {
  }

  /**
   * A task opened in the editor and saved unchanged comes back as it was, with
   * texts trimmed and empty fields omitted, exactly when its criteria survive.
   */
  lemma {:induction false} TaskRoundTrip(h: Host, n: Numbers, task: TaskSpec, key: nat)
    requires FaithfulNumbers(n)
    ensures SpecOf(h, n, ToDraft(h, n, task, key)) == TidySpec(task) <==> CriteriaSurvive(h, task)
  {
    var cs := task.criteria.GetOr([]);
    var out := EmittedFor(h, cs, SplitLines(UneditedText(h, cs)));
    OtherFieldsRoundTrip(h, n, task, key);
    CriteriaRoundTrip(h, cs);
    SettledAsAll(cs, out);
    SameOption(out, SettledAll(cs), cs);
    TidyInjective(task, if out != [] then Some(out) else None, if cs == [] then None else Some(SettledAll(cs)));
  }

  lemma {:induction false} SameOption(a: seq<Criterion>, b: seq<Criterion>, cs: seq<Criterion>)
    requires |b| == |cs|
    ensures a == b <==> (if a != [] then Some(a) else None) == (if cs == [] then None else Some(b))
  {
  }

  lemma {:induction false} TidyInjective(task: TaskSpec, a: Option<seq<Criterion>>, b: Option<seq<Criterion>>)
    ensures Tidy(task, a) == Tidy(task, b) <==> a == b
  {
  }
}
