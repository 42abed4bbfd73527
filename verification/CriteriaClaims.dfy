/**
 * Which line keeps which declaration: after any edit of the text, and when the
 * text is left as it was.
 */
module CriteriaClaims {
  import opened Prelude
  import opened Text
  import opened AcceptanceCriteria
  import opened PlanSpecEdit

  // ------------------------------------------------------------------
  // After any edit
  // ------------------------------------------------------------------

  /** The structured criteria with that key, in order. */
  ghost function StructuredWith(h: Host, out: seq<Criterion>, key: seq<string>): seq<Criterion> {
    if out == [] then []
    else
      var n := |out| - 1;
      StructuredWith(h, out[..n], key) + (if out[n].Record? && KeyOf(h, out[n]) == key then [out[n]] else [])
  }

  /** The lines with text. */
  ghost function TextLines(lines: seq<string>): seq<string> {
    if lines == [] then []
    else
      var n := |lines| - 1;
      TextLines(lines[..n]) + (if Trim(lines[n]) == "" then [] else [lines[n]])
  }

  function Least(a: nat, b: nat): nat {
    if a <= b then a else b
  }

  lemma {:induction false} ClaimableKeys(h: Host, originals: seq<Criterion>, key: seq<string>)
    ensures forall c :: c in Claimable(h, originals, key) ==>
        c in originals && c.Record? && KeyOf(h, c) == key && key != []
  {
    if originals != [] {
      var n := |originals| - 1;
      ClaimableKeys(h, originals[..n], key);
      assert originals == originals[..n] + [originals[n]];
    }
  }

  lemma {:induction false} StructuredSnoc(h: Host, before: seq<Criterion>, c: Criterion, key: seq<string>)
    ensures StructuredWith(h, before + [c], key)
         == StructuredWith(h, before, key) + (if c.Record? && KeyOf(h, c) == key then [c] else [])
  {
    assert (before + [c])[..|before|] == before;
  }

  /** A line with the key takes the next criterion of that key, if one is left ... */
  lemma {:induction false} ClaimSame(h: Host, before: seq<Criterion>, claimable: seq<Criterion>, m: nat, text: string,
      key: seq<string>)
    requires StructuredWith(h, before, key) == claimable[..Least(m, |claimable|)]
    requires forall c :: c in claimable ==> c.Record? && KeyOf(h, c) == key
    ensures StructuredWith(h, before + [Claim(claimable, m, text)], key) == claimable[..Least(m + 1, |claimable|)]
  {
    StructuredSnoc(h, before, Claim(claimable, m, text), key);
    if m < |claimable| {
      assert claimable[m] in claimable;
      assert claimable[..m + 1] == claimable[..m] + [claimable[m]];
    }
  }

  /** ... and a line with another key takes none of them. */
  lemma {:induction false} ClaimOther(h: Host, before: seq<Criterion>, claimable: seq<Criterion>, m: nat,
      text: string, key: seq<string>, lineKey: seq<string>)
    requires key != lineKey && forall c :: c in claimable ==> KeyOf(h, c) == lineKey
    ensures StructuredWith(h, before + [Claim(claimable, m, text)], key) == StructuredWith(h, before, key)
  {
    StructuredSnoc(h, before, Claim(claimable, m, text), key);
    if m < |claimable| {
      assert claimable[m] in claimable;
    }
  }

  /**
   * For every key, the structured criteria emitted are the first ones of the
   * originals with that key, as many as there are lines for them: each is emitted
   * at most once, first come first served, and none is lost while lines last.
   */
  lemma {:induction false} ClaimedInOrder(h: Host, originals: seq<Criterion>, lines: seq<string>, key: seq<string>)
    ensures StructuredWith(h, EmittedFor(h, originals, lines), key)
         == Claimable(h, originals, key)[..Least(LinesWith(h, lines, key), |Claimable(h, originals, key)|)]
  {
    if lines != [] {
      var n := |lines| - 1;
      var lineKey := CriterionKey(h, lines[n]);
      ClaimedInOrder(h, originals, lines[..n], key);
      EmittedSnoc(h, originals, lines);
      ClaimableKeys(h, originals, lineKey);
      if Trim(lines[n]) != "" {
        var before, m := EmittedFor(h, originals, lines[..n]), LinesWith(h, lines[..n], lineKey);
        if lineKey == key {
          ClaimSame(h, before, Claimable(h, originals, key), m, Trim(lines[n]), key);
        } else {
          ClaimOther(h, before, Claimable(h, originals, lineKey), m, Trim(lines[n]), key, lineKey);
        }
      } else {
        assert EmittedFor(h, originals, lines) == EmittedFor(h, originals, lines[..n]);
      }
    }
  }

  // ------------------------------------------------------------------
  // The same in words
  // ------------------------------------------------------------------

  /** The structured criteria that read as the text does, in order. */
  ghost function StructuredLike(h: Host, cs: seq<Criterion>, text: string): seq<Criterion> {
    if cs == [] then []
    else
      var n := |cs| - 1;
      StructuredLike(h, cs[..n], text)
      + (if cs[n].Record? && SameWords(h, CriterionText(h, cs[n]), text) then [cs[n]] else [])
  }

  ghost function LinesLike(h: Host, lines: seq<string>, text: string): nat {
    if lines == [] then 0
    else LinesLike(h, lines[..|lines| - 1], text) + if SameWords(h, lines[|lines| - 1], text) then 1 else 0
  }

  lemma {:induction false} StructuredWithIsLike(h: Host, cs: seq<Criterion>, text: string)
    ensures StructuredWith(h, cs, CriterionKey(h, text)) == StructuredLike(h, cs, text)
  {
    if cs != [] {
      StructuredWithIsLike(h, cs[..|cs| - 1], text);
      KeysAgreeIff(h, CriterionText(h, cs[|cs| - 1]), text);
    }
  }

  lemma {:induction false} ClaimableIsLike(h: Host, cs: seq<Criterion>, text: string)
    requires !AllBlank(text)
    ensures Claimable(h, cs, CriterionKey(h, text)) == StructuredLike(h, cs, text)
  {
    KeysAgreeIff(h, text, text);
    if cs != [] {
      ClaimableIsLike(h, cs[..|cs| - 1], text);
      KeysAgreeIff(h, CriterionText(h, cs[|cs| - 1]), text);
    }
  }

  lemma {:induction false} LinesWithIsLike(h: Host, lines: seq<string>, text: string)
    requires !AllBlank(text)
    ensures LinesWith(h, lines, CriterionKey(h, text)) == LinesLike(h, lines, text)
  {
    if lines != [] {
      var line := lines[|lines| - 1];
      LinesWithIsLike(h, lines[..|lines| - 1], text);
      KeysAgreeIff(h, line, text);
      KeysAgreeIff(h, text, text);
      TrimAgree(line);
      NoWords(line);
    }
  }

  /** For every text, the structured criteria that read like it are emitted as far as there are lines like it. */
  lemma {:induction false} ClaimedByWords(h: Host, originals: seq<Criterion>, lines: seq<string>, text: string)
    requires !AllBlank(text)
    ensures var like := StructuredLike(h, originals, text);
      StructuredLike(h, EmittedFor(h, originals, lines), text) == like[..Least(LinesLike(h, lines, text), |like|)]
  {
    ClaimedInOrder(h, originals, lines, CriterionKey(h, text));
    StructuredWithIsLike(h, EmittedFor(h, originals, lines), text);
    ClaimableIsLike(h, originals, text);
    LinesWithIsLike(h, lines, text);
  }

  /** Every line with text is emitted as one criterion: prose of its own, or one with its own words. */
  lemma {:induction false} LinesKeepTheirText(h: Host, originals: seq<Criterion>, lines: seq<string>)
    ensures |EmittedFor(h, originals, lines)| == |TextLines(lines)|
    ensures forall i :: 0 <= i < |TextLines(lines)| ==>
        OwnText(h, originals, EmittedFor(h, originals, lines)[i], TextLines(lines)[i])
  {
    if lines != [] {
      var n := |lines| - 1;
      LinesKeepTheirText(h, originals, lines[..n]);
      EmittedSnoc(h, originals, lines);
      if Trim(lines[n]) != "" {
        ClaimOwnText(h, originals, lines[n], LinesWith(h, lines[..n], CriterionKey(h, lines[n])));
      }
    }
  }

  lemma {:induction false} ClaimOwnText(h: Host, originals: seq<Criterion>, line: string, c: nat)
    ensures OwnText(h, originals, Claim(Claimable(h, originals, CriterionKey(h, line)), c, Trim(line)), line)
  {
    var claimable := Claimable(h, originals, CriterionKey(h, line));
    ClaimableKeys(h, originals, CriterionKey(h, line));
    if c < |claimable| {
      assert claimable[c] in claimable;
      KeysAgreeIff(h, CriterionText(h, claimable[c]), line);
      KeysAgreeIff(h, line, line);
    }
  }

  ghost predicate OwnText(h: Host, originals: seq<Criterion>, c: Criterion, line: string) {
    || c == Prose(Trim(line))
    || (c.Record? && c in originals && SameWords(h, CriterionText(h, c), line) && !AllBlank(line))
  }

  lemma {:induction false} OwnTextHasText(h: Host, originals: seq<Criterion>, c: Criterion, line: string)
    requires OwnText(h, originals, c, line) && Trim(line) != ""
    ensures !c.Other? && Trim(CriterionText(h, c)) != ""
  {
    TrimFixed(Trim(line));
    TrimAgree(CriterionText(h, c));
    NoWords(line);
  }
}
