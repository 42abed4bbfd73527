/**
 * The theory of the two passes, on the graph: earliest starts are the least
 * schedule, latest starts the greatest, and what follows for the project end
 * when a duration changes.
 */
module CriticalPath {
  import opened Prelude
  import opened PlanGraph
  import opened PlanGantt

  /** s starts every task of done after its dependencies end. */
  ghost predicate Respects(g: Graph, dur: map<Id, real>, done: set<Id>, s: map<Id, real>)
    requires ValidPlan(g, dur)
  {
    && done <= s.Keys
    && forall v, d :: v in done && v in g.deps && d in g.deps[v] && d in s ==> s[d] + dur[d] <= s[v]
  }

  ghost predicate NonNegative(done: set<Id>, s: map<Id, real>)
    requires done <= s.Keys
  {
    forall v :: v in done ==> s[v] >= 0.0
  }

  ghost predicate FinishesBy(dur: map<Id, real>, done: set<Id>, s: map<Id, real>, bound: real)
    requires done <= s.Keys && done <= dur.Keys
  {
    forall v :: v in done ==> s[v] + dur[v] <= bound
  }

  lemma {:induction false} DoneWithin(g: Graph, order: seq<Id>)
    requires Valid(g) && TopologicalPrefix(g, order)
    ensures Elements(order) <= g.deps.Keys
  {
  }

  /** No non-negative schedule starts a processed task before its earliest start. */
  lemma {:induction false} EarliestLeast(g: Graph, dur: map<Id, real>, order: seq<Id>, t: Cpm, s: map<Id, real>, v: Id)
    requires ValidPlan(g, dur) && CpmOf(g, dur, order, t) && v in order && v in g.deps
    requires Respects(g, dur, Elements(order), s) && NonNegative(Elements(order), s)
    ensures t.es[v] <= s[v]
    decreases IndexIn(order, v)
  {
    assert StartsOnTime(g, dur, t.es, v);
    if t.es[v] != 0.0 {
      var d :| d in g.deps[v] && t.es[d] + dur[d] == t.es[v];
      DepBefore(g, order, d, v);
      EarliestLeast(g, dur, order, t, s, d);
    }
  }

  /** No schedule finishing by bound starts a processed task later than its latest start, shifted by
   *  the delay allowed. */
  lemma {:induction false} LatestGreatest(g: Graph, dur: map<Id, real>, order: seq<Id>, t: Cpm, s: map<Id, real>,
      bound: real, v: Id)
    requires ValidPlan(g, dur) && CpmOf(g, dur, order, t) && v in order && v in g.deps
    requires Elements(order) <= g.deps.Keys
    requires Respects(g, dur, Elements(order), s) && FinishesBy(dur, Elements(order), s, bound)
    ensures v in t.ls && s[v] <= t.ls[v] + (bound - t.end)
    decreases |order| - IndexIn(order, v)
  {
    assert EndsOnTime(g, dur, t.ls, t.end, v);
    if t.ls[v] + dur[v] != t.end {
      var w :| w in t.ls && w in g.deps && v in g.deps[w] && t.ls[v] + dur[v] == t.ls[w];
      DepBefore(g, order, v, w);
      LatestGreatest(g, dur, order, t, s, bound, w);
      assert s[v] + dur[v] <= s[w];
    }
  }

  lemma {:induction false} EarliestIsSchedule(g: Graph, dur: map<Id, real>, order: seq<Id>, t: Cpm)
    requires ValidPlan(g, dur) && CpmOf(g, dur, order, t)
    ensures Elements(order) <= g.deps.Keys
    ensures Respects(g, dur, Elements(order), t.es)
    ensures NonNegative(Elements(order), t.es)
    ensures FinishesBy(dur, Elements(order), t.es, t.end)
  {
    DoneWithin(g, order);
    forall v | v in Elements(order)
      ensures t.es[v] >= 0.0 && forall d :: d in g.deps[v] ==> t.es[d] + dur[d] <= t.es[v]
    {
      assert StartsOnTime(g, dur, t.es, v);
    }
  }

  /** A processed task can start at its earliest start and still leave room: slack is not negative. */
  lemma {:induction false} SlackNonNegative(g: Graph, dur: map<Id, real>, order: seq<Id>, t: Cpm, v: Id)
    requires ValidPlan(g, dur) && CpmOf(g, dur, order, t) && v in order && v in g.deps
    ensures v in t.ls && 0.0 <= t.es[v] <= t.ls[v]
  {
    EarliestIsSchedule(g, dur, order, t);
    LatestGreatest(g, dur, order, t, t.es, t.end, v);
  }

  lemma {:induction false} LatestIsSchedule(g: Graph, dur: map<Id, real>, order: seq<Id>, t: Cpm)
    requires ValidPlan(g, dur) && CpmOf(g, dur, order, t)
    ensures Elements(order) <= g.deps.Keys
    ensures Respects(g, dur, Elements(order), t.ls)
    ensures NonNegative(Elements(order), t.ls)
    ensures FinishesBy(dur, Elements(order), t.ls, t.end)
  {
    DoneWithin(g, order);
    forall v | v in Elements(order)
      ensures t.ls[v] >= 0.0 && t.ls[v] + dur[v] <= t.end
    {
      SlackNonNegative(g, dur, order, t, v);
      assert EndsOnTime(g, dur, t.ls, t.end, v);
    }
    forall v, d | v in t.ls && v in g.deps && d in g.deps[v] && d in t.ls
      ensures t.ls[d] + dur[d] <= t.ls[v]
    {
      assert EndsOnTime(g, dur, t.ls, t.end, d);
    }
  }

  /** If some schedule finishes by bound, so does the project. */
  lemma {:induction false} EndIsLeast(g: Graph, dur: map<Id, real>, order: seq<Id>, t: Cpm, s: map<Id, real>,
      bound: real)
    requires ValidPlan(g, dur) && CpmOf(g, dur, order, t) && Elements(order) <= g.deps.Keys
    requires Respects(g, dur, Elements(order), s) && NonNegative(Elements(order), s)
    requires FinishesBy(dur, Elements(order), s, bound) && bound >= 0.0
    ensures t.end <= bound
  {
    if t.end != 0.0 {
      var u :| u in t.es && u in Elements(order) && t.es[u] + dur[u] == t.end;
      EarliestLeast(g, dur, order, t, s, u);
    }
  }

  /** Two solutions of the equations of one plan, whatever the orders: neither starts anything later. */
  lemma {:induction false} NoEarlierSolution(g: Graph, dur: map<Id, real>, a: seq<Id>, t: Cpm, b: seq<Id>, u: Cpm)
    requires ValidPlan(g, dur) && CpmOf(g, dur, a, t) && CpmOf(g, dur, b, u)
    requires Elements(a) == Elements(b)
    ensures forall v :: v in g.deps ==> t.es[v] <= u.es[v]
    ensures t.end <= u.end
  {
    EarliestIsSchedule(g, dur, b, u);
    EndIsLeast(g, dur, a, t, u.es, u.end);
    forall v | v in g.deps
      ensures t.es[v] <= u.es[v]
    {
      if v in a {
        EarliestLeast(g, dur, a, t, u.es, v);
      } else {
        assert v !in Elements(a) && v !in Elements(b);
      }
    }
  }

  lemma {:induction false} NoLaterSolution(g: Graph, dur: map<Id, real>, a: seq<Id>, t: Cpm, b: seq<Id>, u: Cpm)
    requires ValidPlan(g, dur) && CpmOf(g, dur, a, t) && CpmOf(g, dur, b, u)
    requires Elements(a) == Elements(b) && t.end == u.end
    ensures forall v :: v in Elements(a) ==> v in t.ls && v in u.ls && u.ls[v] <= t.ls[v]
  {
    LatestIsSchedule(g, dur, b, u);
    forall v | v in Elements(a)
      ensures v in t.ls && v in u.ls && u.ls[v] <= t.ls[v]
    {
      LatestGreatest(g, dur, a, t, u.ls, t.end, v);
    }
  }

  /** The equations have one solution: same plan, same times, whatever the orders. */
  lemma {:induction false} CpmUnique(g: Graph, dur: map<Id, real>, a: seq<Id>, t: Cpm, b: seq<Id>, u: Cpm)
    requires ValidPlan(g, dur) && CpmOf(g, dur, a, t) && CpmOf(g, dur, b, u)
    ensures t == u
  {
    OrdersAgree(g, a, b);
    assert Elements(a) == Elements(b);
    NoEarlierSolution(g, dur, a, t, b, u);
    NoEarlierSolution(g, dur, b, u, a, t);
    assert t.es == u.es;
    NoLaterSolution(g, dur, a, t, b, u);
    NoLaterSolution(g, dur, b, u, a, t);
    assert t.ls == u.ls;
  }

  // ------------------------------------------------------------------
  // Lengthening one task
  // ------------------------------------------------------------------

  /** longer gives v d more than dur does, and every other task the same. */
  ghost predicate LongerBy(dur: map<Id, real>, longer: map<Id, real>, v: Id, d: real) {
    && v in dur && longer.Keys == dur.Keys
    && longer[v] == dur[v] + d
    && forall u :: u in dur && u != v ==> longer[u] == dur[u]
  }

  function Excess(d: real, slack: real): real {
    Max(0.0, d - slack)
  }

  /**
   * A schedule for the plan in which v takes d longer: everything up to v in the
   * order as early as before, everything after it at its latest start, moved
   * back by the part of d that the slack does not absorb.
   */
  ghost function Absorbing(order: seq<Id>, t: Cpm, v: Id, delay: real): map<Id, real>
    requires v in order && forall u :: u in order ==> u in t.es && u in t.ls
  {
    map u | u in Elements(order) ::
      if IndexIn(order, u) <= IndexIn(order, v) then t.es[u] else t.ls[u] + delay
  }

  lemma {:induction false} AbsorbingLink(g: Graph, dur: map<Id, real>, order: seq<Id>, t: Cpm, v: Id, d: real, u: Id,
      w: Id)
    requires ValidPlan(g, dur) && CpmOf(g, dur, order, t) && v in order && v in g.deps && v in t.ls && d >= 0.0
    requires forall u :: u in order ==> u in t.es && u in t.ls
    requires w in order && w in g.deps && u in g.deps[w] && u in order
    ensures var s := Absorbing(order, t, v, Excess(d, t.ls[v] - t.es[v]));
      s[u] + dur[u] + (if u == v then d else 0.0) <= s[w]
  {
    DepBefore(g, order, u, w);
    assert StartsOnTime(g, dur, t.es, w);
    assert EndsOnTime(g, dur, t.ls, t.end, u);
    SlackNonNegative(g, dur, order, t, w);
  }

  lemma {:induction false} AbsorbingIsSchedule(g: Graph, dur: map<Id, real>, order: seq<Id>, t: Cpm, v: Id, d: real,
      longer: map<Id, real>)
    requires ValidPlan(g, dur) && CpmOf(g, dur, order, t) && v in order && v in g.deps && d >= 0.0
    requires Elements(order) <= g.deps.Keys && forall u :: u in order ==> u in t.es && u in t.ls
    requires ValidPlan(g, longer) && LongerBy(dur, longer, v, d)
    ensures var delay := Excess(d, t.ls[v] - t.es[v]);
      var s := Absorbing(order, t, v, delay);
      && Respects(g, longer, Elements(order), s)
      && NonNegative(Elements(order), s)
      && FinishesBy(longer, Elements(order), s, t.end + delay)
  {
    var delay := Excess(d, t.ls[v] - t.es[v]);
    var s := Absorbing(order, t, v, delay);
    forall w, u | w in Elements(order) && w in g.deps && u in g.deps[w] && u in s
      ensures s[u] + longer[u] <= s[w]
    {
      AbsorbingLink(g, dur, order, t, v, d, u, w);
    }
    forall u | u in Elements(order)
      ensures s[u] >= 0.0 && s[u] + longer[u] <= t.end + delay
    {
      AbsorbingEnds(g, dur, order, t, v, d, u);
    }
  }

  lemma {:induction false} AbsorbingEnds(g: Graph, dur: map<Id, real>, order: seq<Id>, t: Cpm, v: Id, d: real, u: Id)
    requires ValidPlan(g, dur) && CpmOf(g, dur, order, t) && v in order && v in g.deps && v in t.ls && d >= 0.0
    requires forall w :: w in order ==> w in t.es && w in t.ls
    requires u in order && u in g.deps
    ensures var delay := Excess(d, t.ls[v] - t.es[v]);
      var s := Absorbing(order, t, v, delay);
      s[u] >= 0.0 && s[u] + dur[u] + (if u == v then d else 0.0) <= t.end + delay
  {
    SlackNonNegative(g, dur, order, t, u);
    assert EndsOnTime(g, dur, t.ls, t.end, u);
  }

  lemma {:induction false} LengthenAtMost(g: Graph, dur: map<Id, real>, order: seq<Id>, t: Cpm, v: Id, d: real,
      longer: map<Id, real>, order': seq<Id>, t': Cpm)
    requires ValidPlan(g, dur) && CpmOf(g, dur, order, t) && v in order && v in g.deps && d >= 0.0
    requires ValidPlan(g, longer) && LongerBy(dur, longer, v, d)
    requires CpmOf(g, longer, order', t') && Elements(order) == Elements(order')
    ensures v in t.ls && t'.end <= t.end + Excess(d, t.ls[v] - t.es[v])
  {
    LatestIsSchedule(g, dur, order, t);
    var delay := Excess(d, t.ls[v] - t.es[v]);
    AbsorbingIsSchedule(g, dur, order, t, v, d, longer);
    EndIsLeast(g, longer, order', t', Absorbing(order, t, v, delay), t.end + delay);
  }

  lemma {:induction false} LengthenAtLeast(g: Graph, dur: map<Id, real>, order: seq<Id>, t: Cpm, v: Id, d: real,
      longer: map<Id, real>, s: map<Id, real>, bound: real)
    requires ValidPlan(g, dur) && CpmOf(g, dur, order, t) && v in order && v in g.deps && d >= 0.0
    requires ValidPlan(g, longer) && LongerBy(dur, longer, v, d) && Elements(order) <= g.deps.Keys
    requires Respects(g, longer, Elements(order), s) && NonNegative(Elements(order), s)
    requires FinishesBy(longer, Elements(order), s, bound) && bound >= 0.0
    ensures v in t.ls && bound >= t.end + Excess(d, t.ls[v] - t.es[v])
  {
    NotSooner(g, dur, order, t, v, d, longer, s, bound);
    Pushed(g, dur, order, t, v, d, longer, s, bound);
  }

  lemma {:induction false} EndAtMost(g: Graph, dur: map<Id, real>, order: seq<Id>, t: Cpm, v: Id, d: real,
      longer: map<Id, real>, order': seq<Id>, t': Cpm)
    requires ValidPlan(g, dur) && CpmOf(g, dur, order, t) && v in order && v in g.deps && d >= 0.0
    requires ValidPlan(g, longer) && LongerBy(dur, longer, v, d) && CpmOf(g, longer, order', t')
    ensures v in t.ls && t'.end <= t.end + Excess(d, t.ls[v] - t.es[v])
  {
    SameDone(g, dur, order, t, longer, order', t');
    LengthenAtMost(g, dur, order, t, v, d, longer, order', t');
  }

  lemma {:induction false} SameDone(g: Graph, dur: map<Id, real>, order: seq<Id>, t: Cpm, longer: map<Id, real>,
      order': seq<Id>, t': Cpm)
    requires ValidPlan(g, dur) && CpmOf(g, dur, order, t) && ValidPlan(g, longer) && CpmOf(g, longer, order', t')
    ensures Elements(order) == Elements(order')
  {
    OrdersAgree(g, order, order');
  }

  /** The earliest starts of another plan on the same graph are a schedule of that plan for the same tasks. */
  lemma {:induction false} EarliestOfOther(g: Graph, dur: map<Id, real>, order: seq<Id>, t: Cpm, other: map<Id, real>,
      order': seq<Id>, t': Cpm)
    requires ValidPlan(g, dur) && CpmOf(g, dur, order, t) && ValidPlan(g, other) && CpmOf(g, other, order', t')
    ensures Elements(order) <= g.deps.Keys && t'.end >= 0.0
    ensures Respects(g, other, Elements(order), t'.es) && NonNegative(Elements(order), t'.es)
    ensures FinishesBy(other, Elements(order), t'.es, t'.end)
  {
    SameDone(g, dur, order, t, other, order', t');
    EarliestIsSchedule(g, other, order', t');
  }

  lemma {:induction false} EndAtLeast(g: Graph, dur: map<Id, real>, order: seq<Id>, t: Cpm, v: Id, d: real,
      longer: map<Id, real>, order': seq<Id>, t': Cpm)
    requires ValidPlan(g, dur) && CpmOf(g, dur, order, t) && v in order && v in g.deps && d >= 0.0
    requires ValidPlan(g, longer) && LongerBy(dur, longer, v, d) && CpmOf(g, longer, order', t')
    ensures v in t.ls && t'.end >= t.end + Excess(d, t.ls[v] - t.es[v])
  {
    EarliestOfOther(g, dur, order, t, longer, order', t');
    LengthenAtLeast(g, dur, order, t, v, d, longer, t'.es, t'.end);
  }

  /**
   * Lengthening a processed task by d makes the project end later by exactly the
   * part of d that exceeds its slack.
   */
  lemma {:induction false} LengthenEnd(g: Graph, dur: map<Id, real>, order: seq<Id>, t: Cpm, v: Id, d: real,
      longer: map<Id, real>, order': seq<Id>, t': Cpm)
    requires ValidPlan(g, dur) && CpmOf(g, dur, order, t) && v in order && v in g.deps && d >= 0.0
    requires ValidPlan(g, longer) && LongerBy(dur, longer, v, d)
    requires CpmOf(g, longer, order', t')
    ensures v in t.ls && t'.end == t.end + Excess(d, t.ls[v] - t.es[v])
  {
    EndAtMost(g, dur, order, t, v, d, longer, order', t');
    EndAtLeast(g, dur, order, t, v, d, longer, order', t');
  }

  lemma {:induction false} LengthenBySlack(g: Graph, dur: map<Id, real>, order: seq<Id>, t: Cpm, v: Id, d: real,
      slack: real, longer: map<Id, real>, order': seq<Id>, t': Cpm)
    requires ValidPlan(g, dur) && CpmOf(g, dur, order, t) && v in order && v in g.deps && d >= 0.0
    requires ValidPlan(g, longer) && LongerBy(dur, longer, v, d)
    requires CpmOf(g, longer, order', t')
    requires v in t.ls && slack == t.ls[v] - t.es[v]
    ensures d <= slack ==> t'.end == t.end
    ensures d > slack ==> t'.end == t.end + d - slack
  {
    LengthenEnd(g, dur, order, t, v, d, longer, order', t');
  }

  /** Nothing starts or ends earlier when a task takes longer ... */
  lemma {:induction false} NotSooner(g: Graph, dur: map<Id, real>, order: seq<Id>, t: Cpm, v: Id, d: real,
      longer: map<Id, real>, s: map<Id, real>, bound: real)
    requires ValidPlan(g, dur) && CpmOf(g, dur, order, t) && v in order && v in g.deps && d >= 0.0
    requires ValidPlan(g, longer) && LongerBy(dur, longer, v, d) && Elements(order) <= g.deps.Keys
    requires Respects(g, longer, Elements(order), s) && NonNegative(Elements(order), s)
    requires FinishesBy(longer, Elements(order), s, bound) && bound >= 0.0
    ensures t.end <= bound && t.es[v] <= s[v]
  {
    ShorterRespects(g, dur, Elements(order), v, d, longer, s, bound);
    EndIsLeast(g, dur, order, t, s, bound);
    EarliestLeast(g, dur, order, t, s, v);
  }

  lemma {:induction false} ShorterRespects(g: Graph, dur: map<Id, real>, done: set<Id>, v: Id, d: real,
      longer: map<Id, real>, s: map<Id, real>, bound: real)
    requires ValidPlan(g, dur) && v in g.deps && d >= 0.0
    requires ValidPlan(g, longer) && LongerBy(dur, longer, v, d) && done <= g.deps.Keys
    requires Respects(g, longer, done, s) && FinishesBy(longer, done, s, bound)
    ensures Respects(g, dur, done, s) && FinishesBy(dur, done, s, bound)
  {
    assert forall u :: u in dur ==> dur[u] <= longer[u];
  }

  /** ... and the lengthened task takes all of its slack before it delays the end. */
  lemma {:induction false} Pushed(g: Graph, dur: map<Id, real>, order: seq<Id>, t: Cpm, v: Id, d: real,
      longer: map<Id, real>, s: map<Id, real>, bound: real)
    requires ValidPlan(g, dur) && CpmOf(g, dur, order, t) && v in order && v in g.deps && d >= 0.0
    requires ValidPlan(g, longer) && LongerBy(dur, longer, v, d) && Elements(order) <= g.deps.Keys
    requires Respects(g, longer, Elements(order), s) && FinishesBy(longer, Elements(order), s, bound)
    ensures v in t.ls && s[v] + d <= t.ls[v] + (bound - t.end)
  {
    PushedIsSchedule(g, dur, order, v, d, longer, s, bound);
    LatestGreatest(g, dur, order, t, s[v := s[v] + d], bound, v);
  }

  /** Where v takes d longer, it may as well take its old time and start d later. */
  lemma {:induction false} PushedIsSchedule(g: Graph, dur: map<Id, real>, order: seq<Id>, v: Id, d: real,
      longer: map<Id, real>, s: map<Id, real>, bound: real)
    requires ValidPlan(g, dur) && ValidPlan(g, longer) && TopologicalPrefix(g, order)
    requires v in order && v in g.deps && d >= 0.0 && LongerBy(dur, longer, v, d)
    requires Elements(order) <= g.deps.Keys
    requires Respects(g, longer, Elements(order), s) && FinishesBy(longer, Elements(order), s, bound)
    ensures Respects(g, dur, Elements(order), s[v := s[v] + d])
    ensures FinishesBy(dur, Elements(order), s[v := s[v] + d], bound)
  {
    DepsNotNewSelf(g, order, v);
  }

  lemma {:induction false} DepsNotNewSelf(g: Graph, order: seq<Id>, v: Id)
    requires Valid(g) && TopologicalPrefix(g, order) && v in order && v in g.deps
    ensures v !in g.deps[v]
  {
    if v in g.deps[v] {
      DepBefore(g, order, v, v);
    }
  }
}
