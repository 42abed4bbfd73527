/**
 * Zero slack and critical chains: a processed task has no slack exactly when it
 * lies on a dependency chain whose durations add up to the project end.
 */
module CriticalChain {
  import opened Prelude
  import opened PlanGraph
  import opened PlanGantt
  import opened CriticalPath

  /** Total duration of a chain. */
  ghost function Sum(dur: map<Id, real>, p: seq<Id>): real {
    if p == [] then 0.0 else Sum(dur, p[..|p| - 1]) + At(dur, p[|p| - 1], 0.0)
  }

  lemma {:induction false} SumJoin(dur: map<Id, real>, a: seq<Id>, b: seq<Id>)
    ensures Sum(dur, a + b) == Sum(dur, a) + Sum(dur, b)
  {
    if b == [] {
      assert a + b == a;
    } else {
      SumJoin(dur, a, b[..|b| - 1]);
      assert (a + b)[..|a + b| - 1] == a + b[..|b| - 1];
    }
  }

  lemma {:induction false} SumOne(dur: map<Id, real>, v: Id)
    ensures Sum(dur, [v]) == At(dur, v, 0.0)
  {
    assert [v][..0] == [];
  }

  /** A chain of processed tasks that no chain of processed tasks extends at either end. */
  ghost predicate RootToSink(g: Graph, order: seq<Id>, p: seq<Id>) {
    && Chain(g, p)
    && g.deps[p[0]] == []
    && (forall w :: w in order && w in g.deps ==> Last(p) !in g.deps[w])
  }

  ghost predicate Critical(g: Graph, dur: map<Id, real>, order: seq<Id>, end: real, p: seq<Id>) {
    Chain(g, p) && Last(p) in order && Sum(dur, p) == end
  }

  // ------------------------------------------------------------------
  // No chain is longer than the times allow
  // ------------------------------------------------------------------

  lemma {:induction false} ChainEndsInTime(g: Graph, dur: map<Id, real>, order: seq<Id>, t: Cpm, p: seq<Id>)
    requires ValidPlan(g, dur) && CpmOf(g, dur, order, t) && Chain(g, p) && Last(p) in order
    ensures Sum(dur, p) <= t.es[Last(p)] + dur[Last(p)]
  {
    var v := Last(p);
    assert StartsOnTime(g, dur, t.es, v);
    if |p| == 1 {
      assert p == [v];
      SumOne(dur, v);
    } else {
      var q := p[..|p| - 1];
      ChainPrefix(g, p, |p| - 1);
      assert Last(q) in g.deps[v];
      DepBefore(g, order, Last(q), v);
      ChainEndsInTime(g, dur, order, t, q);
    }
  }

  lemma {:induction false} ChainStartsInTime(g: Graph, dur: map<Id, real>, order: seq<Id>, t: Cpm, p: seq<Id>)
    requires ValidPlan(g, dur) && CpmOf(g, dur, order, t) && Chain(g, p) && Last(p) in order
    ensures p[0] in order && p[0] in t.ls && Sum(dur, p) <= t.end - t.ls[p[0]]
  {
    var v := p[0];
    ChainInOrder(g, order, p);
    assert v in order;
    assert EndsOnTime(g, dur, t.ls, t.end, v);
    if |p| == 1 {
      assert p == [v];
      SumOne(dur, v);
    } else {
      var q := p[1..];
      ChainSuffix(g, p, 1);
      ChainStartsInTime(g, dur, order, t, q);
      SumOne(dur, v);
      SumJoin(dur, [v], q);
      assert p == [v] + q;
      assert v in g.deps[q[0]];
    }
  }

  lemma {:induction false} SumSplit(dur: map<Id, real>, p: seq<Id>, k: nat)
    requires k < |p|
    ensures Sum(dur, p[..k + 1]) + Sum(dur, p[k..]) == Sum(dur, p) + At(dur, p[k], 0.0)
  {
    SumJoin(dur, p[..k], p[k..]);
    assert p == p[..k] + p[k..];
    assert p[..k + 1][..k] == p[..k];
  }

  /** A chain through v leaves at least v's slack before the project end. */
  lemma {:induction false} ChainThrough(g: Graph, dur: map<Id, real>, order: seq<Id>, t: Cpm, p: seq<Id>, k: nat)
    requires ValidPlan(g, dur) && CpmOf(g, dur, order, t) && Chain(g, p) && Last(p) in order && k < |p|
    ensures p[k] in order && p[k] in t.ls && p[k] in t.es
    ensures Sum(dur, p) <= t.end - (t.ls[p[k]] - t.es[p[k]])
  {
    ChainInOrder(g, order, p);
    ChainPrefix(g, p, k + 1);
    assert Last(p[..k + 1]) == p[k];
    ChainEndsInTime(g, dur, order, t, p[..k + 1]);
    ChainSuffix(g, p, k);
    assert Last(p[k..]) == Last(p) && p[k..][0] == p[k];
    ChainStartsInTime(g, dur, order, t, p[k..]);
    SumSplit(dur, p, k);
  }

  // ------------------------------------------------------------------
  // Chains that use up the time
  // ------------------------------------------------------------------

  lemma {:induction false} TightChainTo(g: Graph, dur: map<Id, real>, order: seq<Id>, t: Cpm, v: Id)
    returns (p: seq<Id>)
    requires ValidPlan(g, dur) && CpmOf(g, dur, order, t) && v in order && v in g.deps
    ensures Chain(g, p) && Last(p) == v && g.deps[p[0]] == []
    ensures Sum(dur, p) == t.es[v] + dur[v]
    decreases IndexIn(order, v)
  {
    assert StartsOnTime(g, dur, t.es, v);
    if t.es[v] == 0.0 {
      RootAtZero(g, dur, order, t, v);
      p := [v];
      SumOne(dur, v);
    } else {
      var d :| d in g.deps[v] && t.es[d] + dur[d] == t.es[v];
      DepBefore(g, order, d, v);
      p := TightChainTo(g, dur, order, t, d);
      ChainAppend(g, p, v);
      SumOne(dur, v);
      SumJoin(dur, p, [v]);
      p := p + [v];
    }
  }

  /** Durations are positive, so only a task without dependencies starts at 0. */
  lemma {:induction false} RootAtZero(g: Graph, dur: map<Id, real>, order: seq<Id>, t: Cpm, v: Id)
    requires ValidPlan(g, dur) && CpmOf(g, dur, order, t) && v in order && v in g.deps
    requires t.es[v] == 0.0
    ensures g.deps[v] == []
  {
    assert StartsOnTime(g, dur, t.es, v);
    if g.deps[v] != [] {
      DepBefore(g, order, g.deps[v][0], v);
      EarliestIsSchedule(g, dur, order, t);
    }
  }

  lemma {:induction false} TightChainFrom(g: Graph, dur: map<Id, real>, order: seq<Id>, t: Cpm, v: Id)
    returns (p: seq<Id>)
    requires ValidPlan(g, dur) && CpmOf(g, dur, order, t) && v in order && v in g.deps
    ensures Chain(g, p) && p[0] == v && Last(p) in order
    ensures v in t.ls && Sum(dur, p) == t.end - t.ls[v]
    ensures forall w :: w in order && w in g.deps ==> Last(p) !in g.deps[w]
    decreases |order| - IndexIn(order, v)
  {
    assert EndsOnTime(g, dur, t.ls, t.end, v);
    SumOne(dur, v);
    if t.ls[v] + dur[v] == t.end {
      SinkAtEnd(g, dur, order, t, v);
      p := [v];
    } else {
      var w :| w in t.ls && w in g.deps && v in g.deps[w] && t.ls[v] + dur[v] == t.ls[w];
      DepBefore(g, order, v, w);
      p := TightChainFrom(g, dur, order, t, w);
      ChainPrepend(g, v, p);
      SumJoin(dur, [v], p);
      p := [v] + p;
    }
  }

  lemma {:induction false} SinkAtEnd(g: Graph, dur: map<Id, real>, order: seq<Id>, t: Cpm, v: Id)
    requires ValidPlan(g, dur) && CpmOf(g, dur, order, t) && v in order && v in g.deps && v in t.ls
    requires t.ls[v] + dur[v] == t.end
    ensures forall w :: w in order && w in g.deps ==> v !in g.deps[w]
  {
    assert EndsOnTime(g, dur, t.ls, t.end, v);
    forall w | w in order && w in g.deps
      ensures v !in g.deps[w]
    {
      assert w in t.ls;
      assert EndsOnTime(g, dur, t.ls, t.end, w);
    }
  }

  lemma {:induction false} ChainJoin(g: Graph, a: seq<Id>, b: seq<Id>)
    requires Chain(g, a) && Chain(g, b) && Last(a) == b[0]
    ensures Chain(g, a + b[1..])
    ensures Last(a + b[1..]) == Last(b) && (a + b[1..])[0] == a[0]
  {
    var p := a + b[1..];
    forall i, j | 0 <= i < j < |p| && j == i + 1
      ensures p[i] in g.deps[p[j]]
    {
      if j >= |a| {
        assert p[i] == b[i - (|a| - 1)] && p[j] == b[j - (|a| - 1)];
      }
    }
  }

  /** Through a task without slack runs a chain, from a root to a sink, that takes the whole project. */
  lemma {:induction false} CriticalChainThrough(g: Graph, dur: map<Id, real>, order: seq<Id>, t: Cpm, v: Id)
    returns (p: seq<Id>)
    requires ValidPlan(g, dur) && CpmOf(g, dur, order, t) && v in order && v in g.deps
    requires v in t.ls && t.ls[v] == t.es[v]
    ensures Critical(g, dur, order, t.end, p) && RootToSink(g, order, p) && v in p
  {
    var a := TightChainTo(g, dur, order, t, v);
    var b := TightChainFrom(g, dur, order, t, v);
    ChainJoin(g, a, b);
    p := a + b[1..];
    SumJoin(dur, a, b[1..]);
    SumJoin(dur, [v], b[1..]);
    SumOne(dur, v);
    assert b == [v] + b[1..];
    assert p[|a| - 1] == v;
  }

  lemma {:induction false} ZeroSlackIffCritical(g: Graph, dur: map<Id, real>, order: seq<Id>, t: Cpm, v: Id)
    requires ValidPlan(g, dur) && CpmOf(g, dur, order, t) && v in order && v in g.deps
    ensures v in t.ls
    ensures t.ls[v] == t.es[v] <==> exists p :: Critical(g, dur, order, t.end, p) && v in p
  {
    SlackNonNegative(g, dur, order, t, v);
    if t.ls[v] == t.es[v] {
      var p := CriticalChainThrough(g, dur, order, t, v);
    }
    forall p | Critical(g, dur, order, t.end, p) && v in p
      ensures t.ls[v] == t.es[v]
    {
      var k :| 0 <= k < |p| && p[k] == v;
      ChainThrough(g, dur, order, t, p, k);
    }
  }

  /** Something ends when the project ends, and it has no slack. */
  lemma {:induction false} CriticalTaskExists(g: Graph, dur: map<Id, real>, order: seq<Id>, t: Cpm) returns (v: Id)
    requires ValidPlan(g, dur) && CpmOf(g, dur, order, t) && order != []
    ensures v in order && v in g.deps && v in t.ls && t.ls[v] == t.es[v]
  {
    EarliestIsSchedule(g, dur, order, t);
    assert order[0] in Elements(order) && t.es[order[0]] + dur[order[0]] <= t.end;
    v :| v in t.es && v in Elements(order) && t.es[v] + dur[v] == t.end;
    SlackNonNegative(g, dur, order, t, v);
    assert EndsOnTime(g, dur, t.ls, t.end, v);
  }

  /** No chain of processed tasks takes longer than the project. */
  lemma {:induction false} ChainWithinProject(g: Graph, dur: map<Id, real>, order: seq<Id>, t: Cpm, p: seq<Id>)
    requires ValidPlan(g, dur) && CpmOf(g, dur, order, t) && Chain(g, p) && Last(p) in order
    ensures Sum(dur, p) <= t.end
  {
    ChainEndsInTime(g, dur, order, t, p);
    EarliestIsSchedule(g, dur, order, t);
  }

  // ------------------------------------------------------------------
  // Shortening one task
  // ------------------------------------------------------------------

  lemma {:induction false} SumShortened(shorter: map<Id, real>, dur: map<Id, real>, v: Id, d: real, p: seq<Id>)
    requires LongerBy(shorter, dur, v, d) && d >= 0.0
    ensures v !in p ==> Sum(shorter, p) == Sum(dur, p)
    ensures v in p ==> Sum(shorter, p) + d <= Sum(dur, p)
  {
    if p != [] {
      var q := p[..|p| - 1];
      SumShortened(shorter, dur, v, d, q);
      assert p == q + [p[|p| - 1]];
    }
  }

  /** Shortening v brings the end forward exactly when every critical chain runs through v. */
  lemma {:induction false} ShortenEnd(g: Graph, dur: map<Id, real>, order: seq<Id>, t: Cpm, v: Id, d: real,
      shorter: map<Id, real>, order': seq<Id>, t': Cpm)
    requires ValidPlan(g, dur) && CpmOf(g, dur, order, t) && v in order && v in g.deps && d > 0.0
    requires ValidPlan(g, shorter) && LongerBy(shorter, dur, v, d)
    requires CpmOf(g, shorter, order', t')
    ensures t'.end < t.end <==> forall p :: Critical(g, dur, order, t.end, p) ==> v in p
  {
    OrdersAgree(g, order, order');
    if forall p :: Critical(g, dur, order, t.end, p) ==> v in p {
      var u := CriticalTaskExists(g, shorter, order', t');
      var p := CriticalChainThrough(g, shorter, order', t', u);
      SumShortened(shorter, dur, v, d, p);
      ChainWithinProject(g, dur, order, t, p);
    }
    forall p | Critical(g, dur, order, t.end, p) && v !in p
      ensures t'.end >= t.end
    {
      SumShortened(shorter, dur, v, d, p);
      ChainWithinProject(g, shorter, order', t', p);
    }
  }

  // ------------------------------------------------------------------
  // Durations on a grid
  // ------------------------------------------------------------------

  ghost function Grid(q: real, k: int): real {
    k as real * q
  }

  ghost predicate MultipleOf(q: real, x: real) {
    exists k: int :: x == Grid(q, k)
  }

  lemma {:induction false} MultipleSum(q: real, x: real, y: real)
    requires MultipleOf(q, x) && MultipleOf(q, y)
    ensures MultipleOf(q, x + y) && MultipleOf(q, x - y)
  {
    var j: int, k: int :| x == Grid(q, j) && y == Grid(q, k);
    assert x + y == Grid(q, j + k);
    assert x - y == Grid(q, j - k);
  }

  lemma {:induction false} MultipleZero(q: real)
    ensures MultipleOf(q, 0.0)
  {
    assert 0.0 == Grid(q, 0);
  }

  lemma {:induction false} GridSteps(q: real, k: int)
    requires q > 0.0
    ensures k >= 1 ==> Grid(q, k) >= q
    ensures k <= -1 ==> Grid(q, k) <= -q
    ensures k == 0 ==> Grid(q, k) == 0.0
  {
    if k >= 1 {
      assert (k - 1) as real * q >= 0.0;
    } else if k <= -1 {
      assert (-1 - k) as real * q >= 0.0;
    }
  }

  lemma {:induction false} MultipleBelowQuantum(q: real, x: real)
    requires MultipleOf(q, x) && 0.0 <= x < q
    ensures x == 0.0
  {
    var k: int :| x == Grid(q, k);
    GridSteps(q, k);
  }

  lemma {:induction false} EarliestOnGrid(g: Graph, dur: map<Id, real>, order: seq<Id>, t: Cpm, q: real, v: Id)
    requires ValidPlan(g, dur) && CpmOf(g, dur, order, t) && v in order && v in g.deps
    requires forall u :: u in dur ==> MultipleOf(q, dur[u])
    ensures MultipleOf(q, t.es[v])
    decreases IndexIn(order, v)
  {
    assert StartsOnTime(g, dur, t.es, v);
    if t.es[v] == 0.0 {
      MultipleZero(q);
    } else {
      var d :| d in g.deps[v] && t.es[d] + dur[d] == t.es[v];
      DepBefore(g, order, d, v);
      EarliestOnGrid(g, dur, order, t, q, d);
      MultipleSum(q, t.es[d], dur[d]);
    }
  }

  lemma {:induction false} EndOnGrid(g: Graph, dur: map<Id, real>, order: seq<Id>, t: Cpm, q: real)
    requires ValidPlan(g, dur) && CpmOf(g, dur, order, t)
    requires forall u :: u in dur ==> MultipleOf(q, dur[u])
    ensures MultipleOf(q, t.end)
  {
    if t.end == 0.0 {
      MultipleZero(q);
    } else {
      var u :| u in t.es && u in Elements(order) && t.es[u] + dur[u] == t.end;
      EarliestOnGrid(g, dur, order, t, q, u);
      MultipleSum(q, t.es[u], dur[u]);
    }
  }

  lemma {:induction false} LatestOnGrid(g: Graph, dur: map<Id, real>, order: seq<Id>, t: Cpm, q: real, v: Id)
    requires ValidPlan(g, dur) && CpmOf(g, dur, order, t) && v in order && v in g.deps
    requires forall u :: u in dur ==> MultipleOf(q, dur[u])
    requires MultipleOf(q, t.end)
    ensures v in t.ls && MultipleOf(q, t.ls[v])
    decreases |order| - IndexIn(order, v)
  {
    assert EndsOnTime(g, dur, t.ls, t.end, v);
    if t.ls[v] + dur[v] == t.end {
      MultipleSum(q, t.end, dur[v]);
    } else {
      var w :| w in t.ls && w in g.deps && v in g.deps[w] && t.ls[v] + dur[v] == t.ls[w];
      DepBefore(g, order, v, w);
      LatestOnGrid(g, dur, order, t, q, w);
      MultipleSum(q, t.ls[w], dur[v]);
    }
  }

  /** On a grid no finer than the tolerance, the tolerance test is the test for zero. */
  lemma {:induction false} SlackOnGrid(g: Graph, dur: map<Id, real>, order: seq<Id>, t: Cpm, q: real, v: Id)
    requires ValidPlan(g, dur) && CpmOf(g, dur, order, t) && v in order && v in g.deps
    requires q >= CRITICAL_SLACK && forall u :: u in dur ==> MultipleOf(q, dur[u])
    ensures v in t.ls && (t.ls[v] - t.es[v] < CRITICAL_SLACK <==> t.ls[v] == t.es[v])
  {
    EarliestOnGrid(g, dur, order, t, q, v);
    EndOnGrid(g, dur, order, t, q);
    LatestOnGrid(g, dur, order, t, q, v);
    MultipleSum(q, t.ls[v], t.es[v]);
    SlackNonNegative(g, dur, order, t, v);
    if t.ls[v] - t.es[v] < CRITICAL_SLACK {
      MultipleBelowQuantum(q, t.ls[v] - t.es[v]);
    }
  }
}
