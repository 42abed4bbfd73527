/** The order in which a column lists its ids: code unit by code unit, shorter first. */
module SortedIds {
  predicate LexLeq(a: string, b: string) {
    a == [] || (b != [] && (a[0] < b[0] || (a[0] == b[0] && LexLeq(a[1..], b[1..]))))
  }

  /** One text comes before another: it is the beginning of it, or the smaller at the first difference. */
  lemma {:induction false} LexOrder(a: string, b: string)
    ensures LexLeq(a, b) <==> a <= b || exists k :: FirstDifference(a, b, k) && a[k] < b[k]
  {
    if a != [] && b != [] {
      if a[0] == b[0] {
        LexOrder(a[1..], b[1..]);
        assert a <= b <==> a[1..] <= b[1..] by {
          assert a == [a[0]] + a[1..] && b == [b[0]] + b[1..];
        }
        forall k: nat
          ensures FirstDifference(a, b, k + 1) <==> FirstDifference(a[1..], b[1..], k)
        {
          DifferenceMoves(a, b, k);
        }
        if k :| FirstDifference(a, b, k) && a[k] < b[k] {
          assert FirstDifference(a[1..], b[1..], k - 1);
        }
        if k :| FirstDifference(a[1..], b[1..], k) && a[1..][k] < b[1..][k] {
          assert FirstDifference(a, b, k + 1);
        }
      } else {
        assert FirstDifference(a, b, 0);
        assert !(a <= b);
        assert forall k :: FirstDifference(a, b, k) ==> k == 0;
      }
    }
  }

  /** The texts agree up to position k and differ there. */
  ghost predicate FirstDifference(a: string, b: string, k: int) {
    0 <= k < |a| && k < |b| && a[k] != b[k] && forall i :: 0 <= i < k ==> a[i] == b[i]
  }

  lemma {:induction false} DifferenceMoves(a: string, b: string, k: nat)
    requires a != [] && b != [] && a[0] == b[0]
    ensures FirstDifference(a, b, k + 1) <==> FirstDifference(a[1..], b[1..], k)
  {
    if FirstDifference(a[1..], b[1..], k) {
      forall i | 0 <= i < k + 1 ensures a[i] == b[i] {
        assert i > 0 ==> a[1..][i - 1] == b[1..][i - 1];
      }
    }
  }

  lemma {:induction false} LexTotal(a: string, b: string)
    ensures LexLeq(a, b) || LexLeq(b, a)
  {
    if a != [] && b != [] {
      LexTotal(a[1..], b[1..]);
    }
  }

  lemma {:induction false} LexTransitive(a: string, b: string, c: string)
    requires LexLeq(a, b) && LexLeq(b, c)
    ensures LexLeq(a, c)
  {
    if a != [] {
      if a[0] == b[0] == c[0] {
        LexTransitive(a[1..], b[1..], c[1..]);
      }
    }
  }

  lemma {:induction false} LexAntisymmetric(a: string, b: string)
    requires LexLeq(a, b) && LexLeq(b, a)
    ensures a == b
  {
    if a != [] {
      LexAntisymmetric(a[1..], b[1..]);
      assert a == [a[0]] + a[1..] && b == [b[0]] + b[1..];
    }
  }

  ghost predicate Sorted(s: seq<string>) {
    forall i, j :: 0 <= i < j < |s| ==> LexLeq(s[i], s[j])
  }

  function Insert(x: string, s: seq<string>): (r: seq<string>)
    ensures |r| == |s| + 1
    ensures multiset(r) == multiset(s) + multiset{x}
  {
    if s == [] then [x]
    else if LexLeq(x, s[0]) then [x] + s
    else
      assert s == [s[0]] + s[1..];
      [s[0]] + Insert(x, s[1..])
  }

  /** ids.sort() */
  function SortIds(s: seq<string>): (r: seq<string>)
    ensures |r| == |s| && multiset(r) == multiset(s)
  {
    if s == [] then []
    else
      assert s == [s[0]] + s[1..];
      Insert(s[0], SortIds(s[1..]))
  }

  lemma {:induction false} InsertMembers(x: string, s: seq<string>, y: string)
    ensures y in Insert(x, s) <==> y == x || y in s
  {
    assert y in multiset(Insert(x, s)) <==> y in multiset(s) + multiset{x};
  }

  lemma {:induction false} InsertSorted(x: string, s: seq<string>)
    requires Sorted(s)
    ensures Sorted(Insert(x, s))
  {
    if s != [] {
      if LexLeq(x, s[0]) {
        forall j | 0 <= j < |s| ensures LexLeq(x, s[j]) {
          if j > 0 {
            LexTransitive(x, s[0], s[j]);
          }
        }
      } else {
        var rest := Insert(x, s[1..]);
        InsertSorted(x, s[1..]);
        LexTotal(x, s[0]);
        forall j | 0 <= j < |rest| ensures LexLeq(s[0], rest[j]) {
          InsertMembers(x, s[1..], rest[j]);
        }
      }
    }
  }

  lemma {:induction false} SortIdsSorted(s: seq<string>)
    ensures Sorted(SortIds(s))
  {
    if s != [] {
      SortIdsSorted(s[1..]);
      InsertSorted(s[0], SortIds(s[1..]));
    }
  }

  /** There is one way to sort: any sorted list of the same ids, each as often, is this one. */
  lemma {:induction false} SortedUnique(a: seq<string>, b: seq<string>)
    requires Sorted(a) && Sorted(b) && multiset(a) == multiset(b)
    ensures a == b
    decreases |a|
  {
    SameLength(a, b);
    if a != [] {
      SameFirst(a, b);
      SameRest(a, b);
      SortedUnique(a[1..], b[1..]);
      assert a == [a[0]] + a[1..] && b == [b[0]] + b[1..];
    }
  }

  lemma {:induction false} SameLength<T>(a: seq<T>, b: seq<T>)
    requires multiset(a) == multiset(b)
    ensures |a| == |b|
  {
    assert |multiset(a)| == |a| && |multiset(b)| == |b|;
  }

  lemma {:induction false} SameFirst(a: seq<string>, b: seq<string>)
    requires Sorted(a) && Sorted(b) && multiset(a) == multiset(b) && a != [] && b != []
    ensures a[0] == b[0]
  {
    assert a[0] in multiset(b) && b[0] in multiset(a);
    FirstIsLeast(a, b[0]);
    FirstIsLeast(b, a[0]);
    LexAntisymmetric(a[0], b[0]);
  }

  lemma {:induction false} SameRest<T>(a: seq<T>, b: seq<T>)
    requires multiset(a) == multiset(b) && a != [] && b != [] && a[0] == b[0]
    ensures multiset(a[1..]) == multiset(b[1..])
  {
    assert a == [a[0]] + a[1..] && b == [b[0]] + b[1..];
    assert multiset(a[1..]) == multiset(a) - multiset{a[0]};
  }

  lemma {:induction false} FirstIsLeast(s: seq<string>, x: string)
    requires Sorted(s) && x in s
    ensures LexLeq(s[0], x)
  {
    LexTotal(x, x);
  }
}
