/** Small value types shared by every part of the model. */
module Prelude {

  datatype Option<+T> = None | Some(value: T) {
    function GetOr(default: T): T {
      match this
      case Some(v) => v
      case None => default
    }
  }

  function LowerAscii(s: string): string {
    if s == [] then []
    else [if 'A' <= s[0] <= 'Z' then s[0] - 'A' + 'a' else s[0]] + LowerAscii(s[1..])
  }

  lemma {:induction false} LowerAsciiAt(s: string)
    ensures |LowerAscii(s)| == |s|
    ensures forall i :: 0 <= i < |s| ==> LowerAscii(s)[i] == if 'A' <= s[i] <= 'Z' then s[i] - 'A' + 'a' else s[i]
  {
    if s != [] {
      LowerAsciiAt(s[1..]);
    }
  }

  predicate EndsWith(s: string, suffix: string) {
    |s| >= |suffix| && s[|s| - |suffix|..] == suffix
  }

  /** The same letters, each small or capital. */
  ghost predicate ReadsAs(name: string, lower: string) {
    && |name| == |lower|
    && forall i :: 0 <= i < |name| ==>
        name[i] == lower[i] || ('a' <= lower[i] <= 'z' && name[i] as int == lower[i] as int - 32)
  }

  lemma {:induction false} LowerAsciiIff(name: string, lower: string)
    requires forall c :: c in lower ==> !('A' <= c <= 'Z')
    ensures LowerAscii(name) == lower <==> ReadsAs(name, lower)
  {
    LowerAsciiAt(name);
    if |name| == |lower| {
      forall i | 0 <= i < |name|
        ensures LowerAscii(name)[i] == lower[i] <==>
          name[i] == lower[i] || ('a' <= lower[i] <= 'z' && name[i] as int == lower[i] as int - 32)
      {
        assert lower[i] in lower;
      }
    }
  }

  lemma {:induction false} EndsWithIff(s: string, suffix: string)
    ensures EndsWith(s, suffix) <==> exists before :: s == before + suffix
  {
    if EndsWith(s, suffix) {
      assert s == s[..|s| - |suffix|] + suffix;
    }
  }

  ghost predicate NoDuplicates<T>(s: seq<T>) {
    forall i, j :: 0 <= i < j < |s| ==> s[i] != s[j]
  }

  ghost function Elements<T>(s: seq<T>): set<T> {
    set x | x in s
  }

  lemma {:induction false} ElementsSnoc<T>(s: seq<T>, x: T)
    ensures Elements(s + [x]) == Elements(s) + {x}
  {
  }

  lemma {:induction false} Associative<T>(a: seq<T>, b: seq<T>, c: seq<T>)
    ensures a + (b + c) == (a + b) + c
  {
  }

  lemma {:induction false} FrontLast<T>(s: seq<T>)
    requires s != []
    ensures s[..|s| - 1] + [s[|s| - 1]] == s
  {
  }

  lemma {:induction false} TakeDrop<T>(s: seq<T>, i: nat)
    requires i <= |s|
    ensures s[..i] + s[i..] == s
  {
  }

  /** Position of the first occurrence of x in s. */
  ghost function IndexIn<T>(s: seq<T>, x: T): (i: nat)
    requires x in s
    ensures i < |s| && s[i] == x && x !in s[..i]
  {
    if s[0] == x then 0 else 1 + IndexIn(s[1..], x)
  }

  /** A duplicate-free sequence has exactly as many entries as elements. */
  lemma {:induction false} NoDuplicatesCardinality<T>(s: seq<T>)
    requires NoDuplicates(s)
    ensures |Elements(s)| == |s|
  {
    if s != [] {
      var front, last := s[..|s| - 1], s[|s| - 1];
      NoDuplicatesCardinality(front);
      assert Elements(s) == Elements(front) + {last};
      assert last !in Elements(front);
    }
  }

  /** A subset is no larger. */
  lemma {:induction false} SubsetCardinality<T>(a: set<T>, b: set<T>)
    requires a <= b
    ensures |a| <= |b|
    decreases b
  {
    assert b == a + (b - a);
  }

  /** Pigeonhole: a duplicate-free sequence over the entries of another is no longer. */
  lemma {:induction false} Pigeonhole<T>(s: seq<T>, pool: seq<T>)
    requires NoDuplicates(s)
    requires forall x :: x in s ==> x in pool
    ensures |s| <= |pool|
  {
    NoDuplicatesCardinality(s);
    SubsetCardinality(Elements(s), Elements(pool));
    ElementsAtMost(pool);
  }

  lemma {:induction false} ElementsAtMost<T>(s: seq<T>)
    ensures |Elements(s)| <= |s|
  {
    if s != [] {
      var front, last := s[..|s| - 1], s[|s| - 1];
      ElementsAtMost(front);
      assert Elements(s) == Elements(front) + {last};
    }
  }
}
