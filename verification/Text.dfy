/** String primitives of the two languages: blank characters, trimming, lines, words. */
module Text {

  /** The characters that trim() and \s take for blank. */
  predicate Blank(c: char) {
    || c == ' ' || c == '\t' || c == '\n' || c == '\r'
    || c == '\U{000B}' || c == '\U{000C}' || c == '\U{00A0}' || c == '\U{1680}'
    || '\U{2000}' <= c <= '\U{200A}'
    || c == '\U{2028}' || c == '\U{2029}' || c == '\U{202F}' || c == '\U{205F}' || c == '\U{3000}' || c == '\U{FEFF}'
  }

  /** The same characters by their code points: WhiteSpace and LineTerminator of ECMA-262, sections 12.2 and 12.3. */
  lemma {:induction false} BlankCodes(c: char)
    ensures Blank(c) <==>
      c as int in {0x09, 0x0A, 0x0B, 0x0C, 0x0D, 0x20, 0xA0, 0x1680, 0x2028, 0x2029, 0x202F, 0x205F, 0x3000, 0xFEFF}
      || 0x2000 <= c as int <= 0x200A
  {
  }

  ghost predicate AllBlank(s: string) {
    forall i :: 0 <= i < |s| ==> Blank(s[i])
  }

  function TrimStart(s: string): (r: string)
    ensures r == [] || !Blank(r[0])
    ensures |r| <= |s|
  {
    if s != [] && Blank(s[0]) then TrimStart(s[1..]) else s
  }

  function TrimEnd(s: string): (r: string)
    ensures r <= s
    ensures r == [] || !Blank(r[|r| - 1])
  {
    if s != [] && Blank(s[|s| - 1]) then TrimEnd(s[..|s| - 1]) else s
  }

  function Trim(s: string): string {
    TrimEnd(TrimStart(s))
  }

  /** Neither end is blank. */
  predicate Trimmed(s: string) {
    s == [] || (!Blank(s[0]) && !Blank(s[|s| - 1]))
  }

  lemma {:induction false} TrimFixed(s: string)
    requires Trimmed(s)
    ensures Trim(s) == s
  {
  }

  lemma {:induction false} TrimStartTakes(s: string) returns (a: string)
    ensures s == a + TrimStart(s) && AllBlank(a)
  {
    a := [];
    if s != [] && Blank(s[0]) {
      a := TrimStartTakes(s[1..]);
      a := [s[0]] + a;
    }
  }

  lemma {:induction false} TrimEndTakes(s: string) returns (b: string)
    ensures s == TrimEnd(s) + b && AllBlank(b)
  {
    b := [];
    if s != [] && Blank(s[|s| - 1]) {
      b := TrimEndTakes(s[..|s| - 1]);
      b := b + [s[|s| - 1]];
    }
  }

  /** Trimming takes off a blank beginning and a blank end ... */
  lemma {:induction false} TrimTakes(s: string) returns (a: string, b: string)
    ensures s == a + Trim(s) + b && AllBlank(a) && AllBlank(b) && Trimmed(Trim(s))
  {
    a := TrimStartTakes(s);
    b := TrimEndTakes(TrimStart(s));
  }

  /** ... and there is one way to do that. */
  lemma {:induction false} TrimIs(a: string, t: string, b: string)
    requires AllBlank(a) && AllBlank(b) && Trimmed(t)
    ensures Trim(a + t + b) == t
  {
    NoWords(a);
    NoWords(b);
    TrimLead(a, t + b);
    assert a + t + b == a + (t + b);
    if t == [] {
      assert t + b == b;
      TrimAgree(b);
    } else {
      NoWords(t);
      TrimTail(t, b);
      TrimFixed(t);
    }
  }

  /** The part before the first blank, and the maximal runs of non-blank characters. */
  function Words(s: string): seq<string>
    decreases |s|
  {
    if s == [] then []
    else if Blank(s[0]) then Words(s[1..])
    else
      var n := WordLength(s);
      [s[..n]] + Words(s[n..])
  }

  function WordLength(s: string): (n: nat)
    requires s != [] && !Blank(s[0])
    ensures 0 < n <= |s|
    ensures forall i :: 0 <= i < n ==> !Blank(s[i])
    ensures n < |s| ==> Blank(s[n])
  {
    if |s| == 1 || Blank(s[1]) then 1 else 1 + WordLength(s[1..])
  }

  lemma {:induction false} WordLengthIs(s: string, n: nat)
    requires 0 < n <= |s| && (forall i :: 0 <= i < n ==> !Blank(s[i])) && (n < |s| ==> Blank(s[n]))
    ensures WordLength(s) == n
  {
  }

  /** A text without blanks is its own only word. */
  lemma {:induction false} WordsOfWord(w: string)
    requires w != [] && forall i :: 0 <= i < |w| ==> !Blank(w[i])
    ensures Words(w) == [w]
  {
    WordLengthIs(w, |w|);
    assert w[..|w|] == w && w[|w|..] == [];
  }

  /** A blank between two texts separates their words. */
  lemma {:induction false} WordsJoin(a: string, b: string, c: char)
    requires Blank(c)
    ensures Words(a + [c] + b) == Words(a) + Words(b)
    decreases |a|
  {
    var s := a + [c] + b;
    if a == [] {
      assert s[1..] == b;
    } else if Blank(a[0]) {
      WordsJoin(a[1..], b, c);
      assert s[1..] == a[1..] + [c] + b;
    } else {
      var n := WordLength(a);
      FirstWord(a, b, c);
      WordsJoin(a[n..], b, c);
      assert [a[..n]] + (Words(a[n..]) + Words(b)) == ([a[..n]] + Words(a[n..])) + Words(b);
    }
  }

  lemma {:induction false} FirstWordLength(a: string, tail: string)
    requires a != [] && !Blank(a[0]) && tail != [] && Blank(tail[0])
    ensures WordLength(a + tail) == WordLength(a)
  {
    WordLengthIs(a + tail, WordLength(a));
  }

  lemma {:induction false} FirstWord(a: string, b: string, c: char)
    requires Blank(c) && a != [] && !Blank(a[0])
    ensures WordLength(a + [c] + b) == WordLength(a)
    ensures (a + [c] + b)[..WordLength(a)] == a[..WordLength(a)]
    ensures (a + [c] + b)[WordLength(a)..] == a[WordLength(a)..] + [c] + b
  {
    FirstWordLength(a, [c] + b);
    assert a + [c] + b == a + ([c] + b);
  }

  lemma {:induction false} WordsTrimStart(s: string)
    ensures Words(TrimStart(s)) == Words(s)
  {
    if s != [] && Blank(s[0]) {
      WordsTrimStart(s[1..]);
    }
  }

  lemma {:induction false} WordsTrimEnd(s: string)
    ensures Words(TrimEnd(s)) == Words(s)
  {
    if s != [] && Blank(s[|s| - 1]) {
      var front := s[..|s| - 1];
      WordsTrimEnd(front);
      WordsJoin(front, [], s[|s| - 1]);
      assert s == front + [s[|s| - 1]] + [];
    }
  }

  lemma {:induction false} WordsTrim(s: string)
    ensures Words(Trim(s)) == Words(s)
  {
    WordsTrimStart(s);
    WordsTrimEnd(TrimStart(s));
  }

  // ------------------------------------------------------------------
  // Lines
  // ------------------------------------------------------------------

  /** s.split("\n"): one line more than there are newlines. */
  function SplitLines(s: string): (lines: seq<string>)
    ensures lines != []
    ensures forall i :: 0 <= i < |lines| ==> '\n' !in lines[i]
  {
    if s == [] then [[]]
    else
      ConsLine(s[0], SplitLines(s[1..]))
  }

  /** lines.join("\n") */
  function JoinLines(lines: seq<string>): string {
    if lines == [] then []
    else if |lines| == 1 then lines[0]
    else lines[0] + ['\n'] + JoinLines(lines[1..])
  }

  lemma {:induction false} SplitJoined(a: string, b: string)
    ensures SplitLines(a + ['\n'] + b) == SplitLines(a) + SplitLines(b)
  {
    var s := a + ['\n'] + b;
    if a == [] {
      assert s[1..] == b;
    } else {
      SplitJoined(a[1..], b);
      assert s[1..] == a[1..] + ['\n'] + b && s[0] == a[0];
      SplitCons(s[0], SplitLines(a[1..]), SplitLines(b));
    }
  }

  /** Putting a character in front of the first of several lines. */
  function ConsLine(c: char, lines: seq<string>): seq<string>
    requires lines != []
  {
    if c == '\n' then [[]] + lines else [[c] + lines[0]] + lines[1..]
  }

  lemma {:induction false} SplitCons(c: char, a: seq<string>, b: seq<string>)
    requires a != []
    ensures ConsLine(c, a + b) == ConsLine(c, a) + b
  {
    assert (a + b)[1..] == a[1..] + b;
  }

  lemma {:induction false} SplitSingle(s: string)
    requires '\n' !in s
    ensures SplitLines(s) == [s]
  {
    if s != [] {
      assert forall c :: c in s[1..] ==> c in s;
      SplitSingle(s[1..]);
      assert [s[0]] + s[1..] == s;
    }
  }

  /** Lines joined are the lines split again. */
  lemma {:induction false} SplitOfJoined(lines: seq<string>)
    requires lines != [] && forall l :: l in lines ==> '\n' !in l
    ensures SplitLines(JoinLines(lines)) == lines
  {
    SplitSingle(lines[0]);
    if |lines| > 1 {
      SplitOfJoined(lines[1..]);
      SplitJoined(lines[0], JoinLines(lines[1..]));
      assert lines == [lines[0]] + lines[1..];
    }
  }

  // ------------------------------------------------------------------
  // Trimming across a split
  // ------------------------------------------------------------------

  lemma {:induction false} TrimStartJoin(a: string, b: string)
    ensures TrimStart(a) != [] ==> TrimStart(a + b) == TrimStart(a) + b
    ensures TrimStart(a) == [] ==> TrimStart(a + b) == TrimStart(b)
  {
    if a == [] {
      assert a + b == b;
    } else if Blank(a[0]) {
      TrimStartJoin(a[1..], b);
      assert (a + b)[1..] == a[1..] + b;
    }
  }

  lemma {:induction false} TrimEndJoin(a: string, b: string)
    ensures TrimEnd(b) != [] ==> TrimEnd(a + b) == a + TrimEnd(b)
    ensures TrimEnd(b) == [] ==> TrimEnd(a + b) == TrimEnd(a)
  {
    if b == [] {
      assert a + b == a;
    } else if Blank(b[|b| - 1]) {
      TrimEndJoin(a, b[..|b| - 1]);
      assert (a + b)[..|a + b| - 1] == a + b[..|b| - 1];
    } else {
      assert TrimEnd(b) == b;
    }
  }

  /** A text without words is blank throughout. */
  lemma {:induction false} NoWords(s: string)
    ensures Words(s) == [] <==> forall i :: 0 <= i < |s| ==> Blank(s[i])
    decreases |s|
  {
    if s != [] && Blank(s[0]) {
      NoWords(s[1..]);
      if forall i :: 0 <= i < |s[1..]| ==> Blank(s[1..][i]) {
        forall i | 0 <= i < |s| ensures Blank(s[i]) {
          assert i > 0 ==> s[i] == s[1..][i - 1];
        }
      }
    }
  }

  /** All three trims agree on what is nothing. */
  lemma {:induction false} TrimAgree(s: string)
    ensures TrimStart(s) == [] <==> Words(s) == []
    ensures TrimEnd(s) == [] <==> Words(s) == []
    ensures Trim(s) == [] <==> Words(s) == []
  {
    WordsTrimStart(s);
    WordsTrimEnd(s);
    WordsTrim(s);
    NoWords(TrimStart(s));
    NoWords(TrimEnd(s));
    NoWords(Trim(s));
  }

  lemma {:induction false} TrimLead(a: string, b: string)
    requires Words(a) == []
    ensures Trim(a + b) == Trim(b)
  {
    TrimAgree(a);
    TrimStartJoin(a, b);
  }

  lemma {:induction false} TrimTail(a: string, b: string)
    requires Words(b) == [] && Words(a) != []
    ensures Trim(a + b) == Trim(a)
  {
    TrimAgree(a);
    TrimAgree(b);
    TrimStartJoin(a, b);
    TrimEndJoin(TrimStart(a), b);
  }

  lemma {:induction false} TrimEndThrough(x: string, c: string, b: string)
    requires TrimEnd(b) != []
    ensures TrimEnd(x + (c + b)) == x + c + TrimEnd(b)
  {
    TrimEndJoin(x + c, b);
    assert x + (c + b) == x + c + b;
  }

  lemma {:induction false} TrimBothEnds(a: string, c: string, b: string)
    requires TrimStart(a) != [] && TrimEnd(b) != []
    ensures Trim(a + (c + b)) == TrimStart(a) + c + TrimEnd(b)
  {
    TrimStartJoin(a, c + b);
    TrimEndThrough(TrimStart(a), c, b);
  }

  lemma {:induction false} TrimMiddle(a: string, b: string)
    requires Words(a) != [] && Words(b) != []
    ensures '\n' in Trim(a + (['\n'] + b))
  {
    TrimAgree(a);
    TrimAgree(b);
    TrimBothEnds(a, ['\n'], b);
    assert (TrimStart(a) + ['\n'] + TrimEnd(b))[|TrimStart(a)|] == '\n';
  }

  lemma {:induction false} TrimWithin(s: string, c: char)
    requires c !in s
    ensures c !in Trim(s)
  {
    TrimStartWithin(s, c);
    var t := TrimStart(s);
    assert forall i :: 0 <= i < |TrimEnd(t)| ==> TrimEnd(t)[i] == t[i];
  }

  lemma {:induction false} TrimStartWithin(s: string, c: char)
    requires c !in s
    ensures c !in TrimStart(s)
  {
    if s != [] && Blank(s[0]) {
      assert forall x :: x in s[1..] ==> x in s;
      TrimStartWithin(s[1..], c);
    }
  }

  /** The text before the first newline, and the text after it. */
  lemma {:induction false} FirstNewline(s: string) returns (a: string, b: string)
    requires '\n' in s
    ensures s == a + ['\n'] + b && '\n' !in a && |b| < |s|
  {
    if s[0] == '\n' {
      a, b := [], s[1..];
    } else {
      assert s == [s[0]] + s[1..];
      a, b := FirstNewline(s[1..]);
      a := [s[0]] + a;
    }
  }
}
