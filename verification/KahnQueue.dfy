/**
 * What the two copies of Kahn's algorithm share: the successor lists, the
 * in-degree counters, and one round of the queue.
 */
module KahnQueue {
  import opened Prelude
  import opened PlanGraph

  /** How many entries of s are x. */
  ghost function Times(s: seq<Id>, x: Id): nat {
    multiset(s)[x]
  }

  lemma {:induction false} TimesSnoc(s: seq<Id>, y: Id, x: Id)
    ensures Times(s + [y], x) == Times(s, x) + (if x == y then 1 else 0)
  {
  }

  lemma {:induction false} TimesTake(s: seq<Id>, k: nat, x: Id)
    requires k < |s|
    ensures Times(s[..k + 1], x) == Times(s[..k], x) + (if s[k] == x then 1 else 0)
  {
    assert s[..k + 1] == s[..k] + [s[k]];
  }

  lemma {:induction false} TimesAll(s: seq<Id>, x: Id)
    ensures Times(s[..|s|], x) == Times(s, x)
    ensures x in s <==> Times(s, x) > 0
  {
    assert s[..|s|] == s;
  }

  /** How many entries of deps are still missing from done. */
  ghost function Pending(deps: seq<Id>, done: seq<Id>): nat {
    if deps == [] then 0
    else (if deps[0] in done then 0 else 1) + Pending(deps[1..], done)
  }

  lemma {:induction false} PendingNone(deps: seq<Id>)
    ensures Pending(deps, []) == |deps|
  {
    if deps != [] {
      PendingNone(deps[1..]);
    }
  }

  lemma {:induction false} PendingZero(deps: seq<Id>, done: seq<Id>)
    ensures Pending(deps, done) == 0 <==> forall d :: d in deps ==> d in done
  {
    if deps != [] {
      PendingZero(deps[1..], done);
      assert deps == [deps[0]] + deps[1..];
    }
  }

  lemma {:induction false} PendingStep(deps: seq<Id>, done: seq<Id>, id: Id)
    requires id !in done
    ensures Pending(deps, done + [id]) == Pending(deps, done) - Times(deps, id)
  {
    if deps != [] {
      PendingStep(deps[1..], done, id);
      assert deps == [deps[0]] + deps[1..];
      assert multiset(deps) == multiset{deps[0]} + multiset(deps[1..]);
    }
  }

  // ------------------------------------------------------------------
  // Successor lists
  // ------------------------------------------------------------------

  /** c occurs among the successors of p exactly as often as p among the dependencies of c. */
  ghost predicate SuccessorsOf(g: Graph, succ: map<Id, seq<Id>>) {
    && succ.Keys == g.deps.Keys
    && (forall p, c :: p in succ && c in g.deps ==> Times(succ[p], c) == Times(g.deps[c], p))
    && (forall p, c :: p in succ && c in succ[p] ==> c in g.deps)
  }

  lemma {:induction false} SuccessorMembership(g: Graph, succ: map<Id, seq<Id>>, p: Id, c: Id)
    requires SuccessorsOf(g, succ) && p in succ
    ensures c in succ[p] <==> c in g.deps && p in g.deps[c]
  {
    TimesAll(succ[p], c);
    if c in g.deps {
      assert Times(succ[p], c) == Times(g.deps[c], p);
      TimesAll(g.deps[c], p);
    }
  }

  /** Entries of c among the successors of p once i nodes are entered, and k dependencies of the next. */
  ghost function Entered(g: Graph, p: Id, c: Id, i: nat, k: nat): nat
    requires Valid(g) && c in g.deps
    requires i <= |g.nodes| && (i < |g.nodes| ==> k <= |g.deps[g.nodes[i]]|)
  {
    if c in g.nodes[..i] then Times(g.deps[c], p)
    else if i < |g.nodes| && c == g.nodes[i] then Times(g.deps[c][..k], p)
    else 0
  }

  ghost predicate EnteredUpTo(g: Graph, succ: map<Id, seq<Id>>, i: nat, k: nat)
    requires Valid(g) && i <= |g.nodes| && (i < |g.nodes| ==> k <= |g.deps[g.nodes[i]]|)
  {
    && succ.Keys == g.deps.Keys
    && (forall p, c :: p in succ && c in g.deps ==> Times(succ[p], c) == Entered(g, p, c, i, k))
    && (forall p, c :: p in succ && c in succ[p] ==> c in g.deps)
  }

  method BuildSuccessors(g: Graph) returns (succ: map<Id, seq<Id>>)
    requires Valid(g)
    ensures SuccessorsOf(g, succ)
  {
    succ := map v | v in g.deps :: [];
    for i := 0 to |g.nodes|
      invariant EnteredUpTo(g, succ, i, 0)
    {
      var child := g.nodes[i];
      var parents := g.deps[child];
      for k := 0 to |parents|
        invariant EnteredUpTo(g, succ, i, k)
      {
        ghost var before := succ;
        succ := succ[parents[k] := succ[parents[k]] + [child]];
        EnterOne(g, before, i, k);
      }
      EnterNext(g, succ, i);
    }
    assert g.nodes[..|g.nodes|] == g.nodes;
  }

  lemma {:induction false} EnteredStep(g: Graph, p: Id, c: Id, i: nat, k: nat)
    requires Valid(g) && c in g.deps && i < |g.nodes| && k < |g.deps[g.nodes[i]]|
    ensures Entered(g, p, c, i, k + 1)
         == Entered(g, p, c, i, k) + (if c == g.nodes[i] && p == g.deps[c][k] then 1 else 0)
  {
    TimesTake(g.deps[g.nodes[i]], k, p);
    if c in g.nodes[..i] {
      var j :| 0 <= j < i && g.nodes[j] == c;
    }
  }

  lemma {:induction false} EnteredNext(g: Graph, p: Id, c: Id, i: nat)
    requires Valid(g) && c in g.deps && i < |g.nodes|
    ensures Entered(g, p, c, i + 1, 0) == Entered(g, p, c, i, |g.deps[g.nodes[i]]|)
  {
    TimesAll(g.deps[g.nodes[i]], p);
    assert g.nodes[..i + 1] == g.nodes[..i] + [g.nodes[i]];
  }

  lemma {:induction false} EnterOne(g: Graph, succ: map<Id, seq<Id>>, i: nat, k: nat)
    requires Valid(g) && i < |g.nodes| && k < |g.deps[g.nodes[i]]|
    requires EnteredUpTo(g, succ, i, k)
    ensures g.deps[g.nodes[i]][k] in succ
    ensures var p := g.deps[g.nodes[i]][k];
      EnteredUpTo(g, succ[p := succ[p] + [g.nodes[i]]], i, k + 1)
  {
    var child := g.nodes[i];
    var parent := g.deps[child][k];
    assert parent in g.deps[child];
    var after := succ[parent := succ[parent] + [child]];
    forall p, c | p in after && c in g.deps
      ensures Times(after[p], c) == Entered(g, p, c, i, k + 1)
    {
      TimesSnoc(succ[parent], child, c);
      EnteredStep(g, p, c, i, k);
    }
  }

  lemma {:induction false} EnterNext(g: Graph, succ: map<Id, seq<Id>>, i: nat)
    requires Valid(g) && i < |g.nodes|
    requires EnteredUpTo(g, succ, i, |g.deps[g.nodes[i]]|)
    ensures EnteredUpTo(g, succ, i + 1, 0)
  {
    forall p, c | p in succ && c in g.deps
      ensures Times(succ[p], c) == Entered(g, p, c, i + 1, 0)
    {
      EnteredNext(g, p, c, i);
    }
  }

  // ------------------------------------------------------------------
  // The queue
  // ------------------------------------------------------------------

  /** Between two rounds: done tasks in order, released ones in the queue. */
  ghost predicate QueueState(g: Graph, order: seq<Id>, queue: seq<Id>, indegree: map<Id, int>) {
    && TopologicalPrefix(g, order)
    && NoDuplicates(order + queue)
    && indegree.Keys == g.deps.Keys
    && (forall v :: v in g.deps ==> indegree[v] == Pending(g.deps[v], order))
    && (forall v :: v in order + queue <==> v in g.deps && indegree[v] == 0)
  }

  /** Inside a round: k of the successors of the task just shifted are counted down. */
  ghost predicate Releasing(queue0: seq<Id>, indegree0: map<Id, int>, successors: seq<Id>, k: nat, queue: seq<Id>,
      indegree: map<Id, int>)
    requires k <= |successors|
  {
    && indegree.Keys == indegree0.Keys
    && (forall v :: v in indegree ==> indegree[v] == indegree0[v] - Times(successors[..k], v))
    && NoDuplicates(queue)
    && (forall v :: v in queue <==> v in queue0 || (v in successors[..k] && v in indegree && indegree[v] == 0))
  }

  /** What a round may assume: every successor is still waiting, and is counted down to no less than 0. */
  ghost predicate Releasable(queue0: seq<Id>, indegree0: map<Id, int>, successors: seq<Id>) {
    && NoDuplicates(queue0)
    && (forall v :: v in successors ==> v in indegree0 && v !in queue0)
    && (forall v :: v in indegree0 ==> indegree0[v] >= Times(successors, v))
  }

  /** One iteration of the inner loop keeps Releasing. */
  lemma {:induction false} ReleaseOne(queue0: seq<Id>, indegree0: map<Id, int>, successors: seq<Id>, k: nat,
      queue: seq<Id>, indegree: map<Id, int>)
    requires k < |successors|
    requires Releasable(queue0, indegree0, successors)
    requires Releasing(queue0, indegree0, successors, k, queue, indegree)
    ensures successors[k] in indegree
    ensures var s := successors[k];
      var counted := indegree[s := indegree[s] - 1];
      Releasing(queue0, indegree0, successors, k + 1,
                if counted[s] == 0 then queue + [s] else queue, counted)
  {
    var s := successors[k];
    var counted := indegree[s := indegree[s] - 1];
    var pushed := if counted[s] == 0 then queue + [s] else queue;
    assert successors[..k + 1] == successors[..k] + [s];
    TimesTake(successors, k, s);
    TimesSuffix(successors, k);
    assert indegree[s] > 0;
    forall v | v in counted
      ensures counted[v] == indegree0[v] - Times(successors[..k + 1], v)
    {
      TimesTake(successors, k, v);
    }
    assert s !in queue;
    forall v
      ensures v in pushed <==> v in queue0 || (v in successors[..k + 1] && v in counted && counted[v] == 0)
    {
    }
  }

  lemma {:induction false} TimesSuffix(s: seq<Id>, k: nat)
    requires k < |s|
    ensures Times(s[..k], s[k]) < Times(s, s[k])
  {
    assert s == s[..k] + [s[k]] + s[k + 1..];
    assert multiset(s) == multiset(s[..k]) + multiset{s[k]} + multiset(s[k + 1..]);
  }

  /** The first task of the queue waits for nothing. */
  lemma {:induction false} HeadReady(g: Graph, order: seq<Id>, queue: seq<Id>, indegree: map<Id, int>)
    requires Valid(g) && QueueState(g, order, queue, indegree) && queue != []
    ensures queue[0] in g.deps && queue[0] !in order && NoDuplicates(queue[1..])
    ensures forall d :: d in g.deps[queue[0]] ==> d in order
    ensures NoDuplicates(order + [queue[0]] + queue[1..])
  {
    var id := queue[0];
    assert (order + queue)[|order|] == id;
    forall j | 0 <= j < |order|
      ensures order[j] != id
    {
      assert (order + queue)[j] == order[j];
    }
    PendingZero(g.deps[id], order);
    assert order + [id] + queue[1..] == order + queue;
    assert queue[1..] == (order + queue)[|order| + 1..];
  }

  /** A successor of the head is still waiting, once for each time it names the head. */
  lemma {:induction false} HeadBlocks(g: Graph, succ: map<Id, seq<Id>>, order: seq<Id>, queue: seq<Id>,
      indegree: map<Id, int>, v: Id)
    requires Valid(g) && SuccessorsOf(g, succ) && QueueState(g, order, queue, indegree) && queue != []
    requires v in g.deps && queue[0] in succ && queue[0] !in order
    ensures indegree[v] - Times(succ[queue[0]], v) == Pending(g.deps[v], order + [queue[0]])
    ensures v in succ[queue[0]] ==> indegree[v] > 0 && v !in order + queue
  {
    PendingStep(g.deps[v], order, queue[0]);
    assert Times(succ[queue[0]], v) == Times(g.deps[v], queue[0]);
    TimesAll(succ[queue[0]], v);
  }

  /** Shifting the first task of the queue makes its successors releasable. */
  lemma {:induction false} RoundBegins(g: Graph, succ: map<Id, seq<Id>>, order: seq<Id>, queue: seq<Id>,
      indegree: map<Id, int>)
    requires Valid(g) && SuccessorsOf(g, succ) && QueueState(g, order, queue, indegree) && queue != []
    ensures queue[0] in succ && queue[0] in g.deps && queue[0] !in order
    ensures forall d :: d in g.deps[queue[0]] ==> d in order
    ensures Releasable(queue[1..], indegree, succ[queue[0]])
  {
    HeadReady(g, order, queue, indegree);
    forall v | v in g.deps
      ensures indegree[v] >= Times(succ[queue[0]], v)
      ensures v in succ[queue[0]] ==> v !in queue[1..]
    {
      HeadBlocks(g, succ, order, queue, indegree, v);
    }
  }

  lemma {:induction false} TopologicalExtend(g: Graph, order: seq<Id>, id: Id)
    requires TopologicalPrefix(g, order) && id in g.deps && id !in order
    requires forall d :: d in g.deps[id] ==> d in order
    ensures TopologicalPrefix(g, order + [id])
  {
    var longer := order + [id];
    forall i, d | 0 <= i < |longer| && d in g.deps[longer[i]]
      ensures d in longer[..i]
    {
      if i < |order| {
        assert longer[..i] == order[..i];
      } else {
        assert longer[..i] == order;
      }
    }
  }

  /** Counting all of them down gives the state for the next round. */
  lemma {:induction false} RoundEnds(g: Graph, succ: map<Id, seq<Id>>, order: seq<Id>, queue: seq<Id>,
      indegree: map<Id, int>, queue': seq<Id>, indegree': map<Id, int>)
    requires Valid(g) && SuccessorsOf(g, succ) && QueueState(g, order, queue, indegree) && queue != []
    requires queue[0] in succ
    requires Releasing(queue[1..], indegree, succ[queue[0]], |succ[queue[0]]|, queue', indegree')
    ensures QueueState(g, order + [queue[0]], queue', indegree')
  {
    var id := queue[0];
    HeadReady(g, order, queue, indegree);
    TopologicalExtend(g, order, id);
    RoundMembers(g, succ, order, queue, indegree, queue', indegree');
    forall v | v in g.deps
      ensures indegree'[v] == Pending(g.deps[v], order + [id])
    {
      HeadBlocks(g, succ, order, queue, indegree, v);
      TimesAll(succ[id], v);
    }
    forall v | v in succ[id] && v in indegree
      ensures indegree[v] > 0
    {
      HeadBlocks(g, succ, order, queue, indegree, v);
    }
    forall v | v in order + [id] && v in indegree
      ensures indegree[v] == 0
    {
      assert v in order + queue;
    }
    RoundDistinct(order + [id], queue', indegree, succ[id], queue[1..], indegree');
  }

  lemma {:induction false} RoundMembers(g: Graph, succ: map<Id, seq<Id>>, order: seq<Id>, queue: seq<Id>,
      indegree: map<Id, int>, queue': seq<Id>, indegree': map<Id, int>)
    requires Valid(g) && SuccessorsOf(g, succ) && QueueState(g, order, queue, indegree) && queue != []
    requires queue[0] in succ
    requires Releasing(queue[1..], indegree, succ[queue[0]], |succ[queue[0]]|, queue', indegree')
    ensures forall v :: v in order + [queue[0]] + queue' <==> v in g.deps && indegree'[v] == 0
  {
    RoundBegins(g, succ, order, queue, indegree);
    var id := queue[0];
    assert succ[id][..|succ[id]|] == succ[id];
    forall v
      ensures v in order + [id] + queue' <==> v in g.deps && indegree'[v] == 0
    {
      assert v in order + queue <==> v in order || v == id || v in queue[1..];
      if v in g.deps {
        TimesAll(succ[id], v);
        assert indegree'[v] == indegree[v] - Times(succ[id], v);
        PendingStep(g.deps[v], order, id);
      }
    }
  }

  lemma {:induction false} RoundDistinct(order': seq<Id>, queue': seq<Id>, indegree0: map<Id, int>,
      successors: seq<Id>, rest: seq<Id>, indegree': map<Id, int>)
    requires NoDuplicates(order' + rest)
    requires Releasing(rest, indegree0, successors, |successors|, queue', indegree')
    requires forall v :: v in order' && v in indegree0 ==> indegree0[v] == 0
    requires forall v :: v in successors && v in indegree0 ==> indegree0[v] > 0
    ensures NoDuplicates(order' + queue')
  {
    forall i, j | 0 <= i < j < |order' + queue'|
      ensures (order' + queue')[i] != (order' + queue')[j]
    {
      if i < |order'| <= j {
        var v := queue'[j - |order'|];
        assert v in queue';
        if v in rest {
          var r :| 0 <= r < |rest| && rest[r] == v;
          assert (order' + rest)[i] != (order' + rest)[|order'| + r];
        }
      } else if j < |order'| {
        assert (order' + rest)[i] != (order' + rest)[j];
      }
    }
  }

  /** An empty queue means a complete queue order. */
  lemma {:induction false} QueueDone(g: Graph, order: seq<Id>, indegree: map<Id, int>)
    requires Valid(g) && QueueState(g, order, [], indegree)
    ensures KahnOrder(g, order)
  {
    assert order + [] == order;
    forall v | v in g.deps && v !in order
      ensures Waiting(g, order, v)
    {
      PendingZero(g.deps[v], order);
    }
  }

  lemma {:induction false} QueueBegins(g: Graph, queue: seq<Id>, indegree: map<Id, int>)
    requires Valid(g) && NoDuplicates(queue) && indegree.Keys == g.deps.Keys
    requires forall v :: v in g.deps ==> indegree[v] == |g.deps[v]|
    requires forall v :: v in queue <==> v in g.deps && indegree[v] == 0
    ensures QueueState(g, [], queue, indegree)
  {
    assert [] + queue == queue;
    forall v | v in g.deps
      ensures indegree[v] == Pending(g.deps[v], [])
    {
      PendingNone(g.deps[v]);
    }
  }

  /** The tasks with nothing to wait for, in task order: the queue both loops start from. */
  method InitialQueue(g: Graph, indegree: map<Id, int>) returns (queue: seq<Id>)
    requires Valid(g) && indegree.Keys == g.deps.Keys
    requires forall v :: v in g.deps ==> indegree[v] == |g.deps[v]|
    ensures QueueState(g, [], queue, indegree)
  {
    queue := [];
    for i := 0 to |g.nodes|
      invariant NoDuplicates(queue)
      invariant forall v :: v in queue <==> v in g.nodes[..i] && indegree[v] == 0
    {
      assert g.nodes[..i + 1] == g.nodes[..i] + [g.nodes[i]];
      if indegree[g.nodes[i]] == 0 {
        queue := queue + [g.nodes[i]];
      }
    }
    assert g.nodes[..|g.nodes|] == g.nodes;
    QueueBegins(g, queue, indegree);
  }

  /** The order stays within the plan, so the loop ends. */
  lemma {:induction false} QueueBounded(g: Graph, order: seq<Id>, queue: seq<Id>, indegree: map<Id, int>)
    requires Valid(g) && QueueState(g, order, queue, indegree)
    ensures |order| + |queue| <= |g.nodes|
  {
    forall x | x in order + queue ensures x in g.nodes {
      assert x in g.deps;
    }
    Pigeonhole(order + queue, g.nodes);
  }
}
