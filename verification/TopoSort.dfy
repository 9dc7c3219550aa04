/** The dependency order of milestones (crates/mp/src/path_engine.rs, topo_sort_milestones):
    Kahn's algorithm with a sorted frontier, then the rest in id order. */
module TopoSort {
  import opened Prelude
  import opened Digraph
  import opened MilestoneIds
  import opened PlanGraph
  import opened Sorting

  // ---------- What the order is ----------

  /** `id` can come next: all its dependencies are done. */
  predicate Available(g: Graph, done: set<string>, id: string) {
    id in g && id !in done && forall d :: d in g[id] ==> d in done
  }

  /** At every point a least available id is taken, until none is available. */
  ghost predicate GreedyOrder(g: Graph, le: (string, string) -> bool, order: seq<string>) {
    && (forall i :: 0 <= i < |order| ==> LeastAvailable(g, le, Elements(order[..i]), order[i]))
    && Exhausted(g, Elements(order))
  }

  ghost predicate LeastAvailable(g: Graph, le: (string, string) -> bool, done: set<string>, id: string) {
    Available(g, done, id) && forall other :: Available(g, done, other) ==> le(id, other)
  }

  ghost predicate Exhausted(g: Graph, done: set<string>) {
    forall id :: !Available(g, done, id)
  }

  /** No chain of dependencies from `id` ever comes back to an id on it. */
  ghost predicate Settled(g: Graph, id: string) {
    forall walk, i, j :: IsWalk(g, walk) && 0 <= i < j < |walk| && walk[0] == id ==> walk[i] != walk[j]
  }

  lemma SettledOfMilestones(ms: seq<Milestone>, norm: string -> string, id: string)
    requires exists k :: 0 <= k < |ms| && norm(ms[k].id) == id
    ensures Settled(DependencyGraph(ms, norm), id) <==> ReachesNoCycle(ms, norm, id)
  {
    var g := DependencyGraph(ms, norm);
    GraphIsOfMilestones(ms, norm);
    forall walk | |walk| > 0 && walk[0] == id ensures IsWalk(g, walk) <==> IsChain(ms, norm, walk) {
      WalkIsChain(ms, norm, walk);
    }
  }

  lemma GreedyIsNextFirst(g: Graph, le: (string, string) -> bool, order: seq<string>)
    requires GreedyOrder(g, le, order)
    ensures NextFirst(g, order) && Elements(order) <= g.Keys
  {
    forall i | 0 <= i < |order| ensures Available(g, Elements(order[..i]), order[i]) {
      assert LeastAvailable(g, le, Elements(order[..i]), order[i]);
    }
    forall i, j | 0 <= i < j < |order| ensures order[i] != order[j] {
      assert order[..j][i] == order[i];
    }
  }

  /** The ids taken are exactly those with no cycle among their transitive dependencies. */
  lemma GreedyTakesSettled(g: Graph, le: (string, string) -> bool, order: seq<string>, id: string)
    requires GreedyOrder(g, le, order) && id in g
    requires forall n, d :: n in g && d in g[n] ==> d in g
    ensures id in order <==> Settled(g, id)
  {
    GreedyIsNextFirst(g, le, order);
    if id in order {
      forall walk, i, j | IsWalk(g, walk) && 0 <= i < j < |walk| && walk[0] == id ensures walk[i] != walk[j] {
        if i > 0 {
          WalkDescends(g, order, walk, i);
        }
        WalkSlice(g, walk, i, |walk|);
        WalkDescends(g, order, walk[i..], j - i);
      }
    } else {
      var rest := g.Keys - Elements(order);
      forall n | n in rest ensures StaysIn(g, rest, n) {
        assert !Available(g, Elements(order), n);
        var d :| d in g[n] && d !in Elements(order);
        assert d in Next(g, n) && d in rest;
      }
      var walk, i, j := NoSinkHasCycle(g, rest, id);
    }
  }

  /** The order is lexicographically least: where another dependency-respecting order of
      known ids first differs, it has an id that is no smaller. */
  lemma GreedyIsLeast(g: Graph, le: (string, string) -> bool, order: seq<string>, other: seq<string>, i: nat)
    requires GreedyOrder(g, le, order) && NextFirst(g, other) && Elements(other) <= g.Keys
    requires i < |order| && i < |other| && order[..i] == other[..i]
    ensures le(order[i], other[i])
  {
    assert LeastAvailable(g, le, Elements(order[..i]), order[i]);
    assert other[i] in Elements(other);
    assert Available(g, Elements(order[..i]), other[i]);
  }

  /** `a` equals `b` or has a no larger id where they first differ. */
  ghost predicate LexLeast(le: (string, string) -> bool, a: seq<string>, b: seq<string>) {
    a == b || exists i :: 0 <= i < |a| && i < |b| && a[..i] == b[..i] && a[i] != b[i] && le(a[i], b[i])
  }

  lemma AcyclicIsSettled(g: Graph, id: string)
    requires Acyclic(g)
    ensures Settled(g, id)
  {
    forall walk, i, j | IsWalk(g, walk) && 0 <= i < j < |walk| && walk[0] == id ensures walk[i] != walk[j] {
      if walk[i] == walk[j] {
        RepeatIsCycle(g, walk, i, j);
      }
    }
  }

  /** On an acyclic graph the order holds every id, and no other order of all ids that puts
      dependencies first is lexicographically smaller. */
  lemma AcyclicOrderIsLeast(g: Graph, le: (string, string) -> bool, order: seq<string>, other: seq<string>)
    requires Acyclic(g) && GreedyOrder(g, le, order)
    requires forall n, d :: n in g && d in g[n] ==> d in g
    requires NextFirst(g, other) && Elements(other) == g.Keys
    ensures Elements(order) == g.Keys && LexLeast(le, order, other)
  {
    GreedyIsNextFirst(g, le, order);
    forall id | id in g ensures id in order {
      AcyclicIsSettled(g, id);
      GreedyTakesSettled(g, le, order, id);
    }
    assert Elements(order) == g.Keys;
    DistinctSize(order);
    DistinctSize(other);
    FirstDifference(g, le, order, other, 0);
  }

  lemma {:induction false} FirstDifference(g: Graph, le: (string, string) -> bool,
      order: seq<string>, other: seq<string>, i: nat)
    requires GreedyOrder(g, le, order) && NextFirst(g, other) && Elements(other) <= g.Keys
    requires |order| == |other| && i <= |order| && order[..i] == other[..i]
    ensures LexLeast(le, order, other)
    decreases |order| - i
  {
    if i == |order| {
      assert order == order[..i] && other == other[..i];
    } else if order[i] == other[i] {
      assert order[..i + 1] == order[..i] + [order[i]] && other[..i + 1] == other[..i] + [other[i]];
      FirstDifference(g, le, order, other, i + 1);
    } else {
      GreedyIsLeast(g, le, order, other, i);
    }
  }

  lemma SameNext(g: Graph, le: (string, string) -> bool, a: seq<string>, b: seq<string>, i: nat)
    requires GreedyOrder(g, le, a) && GreedyOrder(g, le, b) && Antisymmetric(g, le)
    requires i < |a| && i <= |b| && a[..i] == b[..i]
    ensures i < |b| && a[i] == b[i]
  {
    assert LeastAvailable(g, le, Elements(a[..i]), a[i]);
    assert b[..|b|] == b;
    if i < |b| {
      assert LeastAvailable(g, le, Elements(b[..i]), b[i]);
    }
  }

  ghost predicate Antisymmetric(g: Graph, le: (string, string) -> bool) {
    forall x, y :: x in g && y in g && le(x, y) && le(y, x) ==> x == y
  }

  /** Where no two ids compare equal the order is a function of the graph alone, whatever
      the iteration order of the hash maps. */
  lemma {:induction false} GreedyIsUnique(g: Graph, le: (string, string) -> bool,
      a: seq<string>, b: seq<string>, i: nat)
    requires GreedyOrder(g, le, a) && GreedyOrder(g, le, b) && Antisymmetric(g, le)
    requires i <= |a| && i <= |b| && a[..i] == b[..i]
    ensures a == b
    decreases |a| - i
  {
    if i < |a| {
      SameNext(g, le, a, b, i);
      assert a[..i + 1] == a[..i] + [a[i]] && b[..i + 1] == b[..i] + [b[i]];
      GreedyIsUnique(g, le, a, b, i + 1);
    } else if i < |b| {
      SameNext(g, le, b, a, i);
    } else {
      assert a == a[..i] && b == b[..i];
    }
  }

  // ---------- The whole order ----------

  /** What the program computes: the greedy order, then all other ids in id order. */
  ghost predicate IsPlanOrder(g: Graph, le: (string, string) -> bool, out: seq<string>, settled: nat) {
    && Distinct(out) && Elements(out) == g.Keys && settled <= |out|
    && GreedyOrder(g, le, out[..settled]) && SortedBy(out[settled..], le)
  }

  /** On an acyclic plan the whole order is greedy, and the least of all orders of its ids that
      put dependencies first. */
  lemma AcyclicPlanOrder(g: Graph, le: (string, string) -> bool, out: seq<string>, settled: nat)
    requires IsPlanOrder(g, le, out, settled) && Acyclic(g)
    requires forall n, d :: n in g && d in g[n] ==> d in g
    ensures settled == |out| && NextFirst(g, out)
    ensures forall other :: NextFirst(g, other) && Elements(other) == g.Keys ==> LexLeast(le, out, other)
  {
    var prefix := out[..settled];
    GreedyIsNextFirst(g, le, prefix);
    forall id | id in g ensures id in prefix {
      AcyclicIsSettled(g, id);
      GreedyTakesSettled(g, le, prefix, id);
    }
    assert Elements(prefix) == g.Keys;
    DistinctSize(prefix);
    DistinctSize(out);
    assert prefix == out;
    forall other | NextFirst(g, other) && Elements(other) == g.Keys ensures LexLeast(le, out, other) {
      AcyclicOrderIsLeast(g, le, out, other);
    }
  }

  /** With distinct sort keys two plan orders of one graph are equal, cyclic remainder included. */
  lemma PlanOrderIsUnique(g: Graph, le: (string, string) -> bool,
      a: seq<string>, aSettled: nat, b: seq<string>, bSettled: nat)
    requires IsPlanOrder(g, le, a, aSettled) && IsPlanOrder(g, le, b, bSettled) && Antisymmetric(g, le)
    ensures a == b
  {
    var aFront, bFront, aRest, bRest := a[..aSettled], b[..bSettled], a[aSettled..], b[bSettled..];
    assert aFront[..0] == bFront[..0];
    GreedyIsUnique(g, le, aFront, bFront, 0);
    RestOf(a, aSettled);
    RestOf(b, bSettled);
    SortedIsUnique(g, le, aRest, bRest);
    assert a == aFront + aRest && b == bFront + bRest;
  }

  lemma RestOf(s: seq<string>, k: nat)
    requires Distinct(s) && k <= |s|
    ensures Distinct(s[k..]) && Elements(s[k..]) == Elements(s) - Elements(s[..k])
  {
    assert s == s[..k] + s[k..];
    forall x | x in s[k..] ensures x !in s[..k] {
      var i :| 0 <= i < |s| - k && s[k..][i] == x;
      assert s[k + i] == x;
    }
  }

  lemma {:induction false} SortedIsUnique(g: Graph, le: (string, string) -> bool, a: seq<string>, b: seq<string>)
    requires Distinct(a) && Distinct(b) && Elements(a) == Elements(b) <= g.Keys
    requires SortedBy(a, le) && SortedBy(b, le) && Antisymmetric(g, le)
    ensures a == b
  {
    DistinctSize(a);
    DistinctSize(b);
    if a != [] {
      assert a[0] in Elements(b) && b[0] in Elements(a);
      var i :| 0 <= i < |b| && b[i] == a[0];
      var j :| 0 <= j < |a| && a[j] == b[0];
      assert a[0] == b[0];
      RestOf(a, 1);
      RestOf(b, 1);
      assert a[..1] == b[..1];
      SortedIsUnique(g, le, a[1..], b[1..]);
      assert a == [a[0]] + a[1..] && b == [b[0]] + b[1..];
    }
  }

  // ---------- Counting unfinished dependencies ----------

  /** How many entries of `deps` are not done. */
  function Undone(deps: seq<string>, done: set<string>): nat {
    if deps == [] then 0
    else Undone(deps[..|deps| - 1], done) + if deps[|deps| - 1] in done then 0 else 1
  }

  lemma {:induction false} UndoneZero(deps: seq<string>, done: set<string>)
    ensures Undone(deps, done) == 0 <==> forall d :: d in deps ==> d in done
  {
    if deps != [] {
      UndoneZero(deps[..|deps| - 1], done);
      assert deps == deps[..|deps| - 1] + [deps[|deps| - 1]];
    }
  }

  lemma {:induction false} UndoneInitially(deps: seq<string>)
    ensures Undone(deps, {}) == |deps|
  {
    if deps != [] {
      UndoneInitially(deps[..|deps| - 1]);
    }
  }

  lemma {:induction false} UndoneDrops(deps: seq<string>, done: set<string>, n: string)
    requires n !in done
    ensures Undone(deps, done) == Undone(deps, done + {n}) + Count(deps, n)
  {
    if deps != [] {
      UndoneDrops(deps[..|deps| - 1], done, n);
      assert deps == deps[..|deps| - 1] + [deps[|deps| - 1]];
    }
  }

  // ---------- Building the counters and the edges ----------

  ghost predicate CountsDeps(g: Graph, indegree: map<string, nat>) {
    indegree.Keys == g.Keys && forall id :: id in g ==> indegree[id] == |g[id]|
  }

  /** `edges` is `g` turned around, with the same multiplicities. */
  ghost predicate Mirrors(g: Graph, edges: Graph) {
    && (forall from, to :: to in g ==> Count(Next(edges, from), to) == Count(g[to], from))
    && (forall from, to :: to in Next(edges, from) ==> to in g)
  }

  lemma EdgeAdded(g: Graph, edges: Graph, from: string, to: string)
    requires Mirrors(g, edges) && to in g
    ensures Mirrors(g[to := g[to] + [from]], edges[from := Next(edges, from) + [to]])
  {
    var g', edges' := g[to := g[to] + [from]], edges[from := Next(edges, from) + [to]];
    forall f, t | t in g' ensures Count(Next(edges', f), t) == Count(g'[t], f) {
      assert Count(Next(edges, f), t) == Count(g[t], f);
      CountAppended(g[to], from, f);
      CountAppended(Next(edges, from), to, t);
    }
    EdgeTargetsKnown(g, edges, edges', from, to);
  }

  lemma EdgeTargetsKnown(g: Graph, edges: Graph, edges': Graph, from: string, to: string)
    requires (forall f, t :: t in Next(edges, f) ==> t in g) && to in g
    requires edges' == edges[from := Next(edges, from) + [to]]
    ensures forall f, t :: t in Next(edges', f) ==> t in g
  {
    forall f, t | t in Next(edges', f) ensures t in g {
      assert t == to || t in Next(edges, f);
    }
  }

  method BuildTables(ms: seq<Milestone>, norm: string -> string) returns (indegree: map<string, nat>, edges: Graph)
    ensures CountsDeps(DependencyGraph(ms, norm), indegree) && Mirrors(DependencyGraph(ms, norm), edges)
  {
    var ids := KnownIds(ms, norm);
    indegree, edges := map id | id in ids :: 0, map[];
    ghost var g: Graph := map id | id in ids :: [];
    for i := 0 to |ms|
      invariant CountsDeps(g, indegree) && Mirrors(g, edges) && g.Keys == ids
      invariant forall id :: id in ids ==> g[id] == DepsOf(ms[..i], ids, id, norm)
    {
      DepsOfNext(ms, ids, i, norm);
      indegree, edges, g := AddMilestone(norm(ms[i].id), ms[i].dependsOn, ids, norm, indegree, edges, g);
    }
    assert ms[..|ms|] == ms;
    assert g == DependencyGraph(ms, norm);
  }

  lemma DepsOfNext(ms: seq<Milestone>, ids: set<string>, i: nat, norm: string -> string)
    requires i < |ms|
    ensures ids == KnownIds(ms, norm) ==> norm(ms[i].id) in ids
    ensures forall id :: DepsOf(ms[..i + 1], ids, id, norm)
                      == DepsOf(ms[..i], ids, id, norm) +
                         if id == norm(ms[i].id) then KnownDeps(ms[i].dependsOn, ids, norm) else []
  {
    assert ms[i] in ms && ms[..i + 1][..i] == ms[..i];
  }

  lemma KnownDepsNext(deps: seq<string>, ids: set<string>, norm: string -> string, j: nat)
    requires j < |deps|
    ensures KnownDeps(deps[..j + 1], ids, norm) == KnownDeps(deps[..j], ids, norm) +
      if deps[j] == "" || deps[j] == "none" || norm(deps[j]) !in ids then [] else [norm(deps[j])]
  {
    assert deps[..j + 1][..j] == deps[..j];
  }

  /** One milestone: an edge and a count for each known dependency. */
  method AddMilestone(to: string, deps: seq<string>, ids: set<string>, norm: string -> string,
      indegree: map<string, nat>, edges: Graph, ghost g: Graph)
    returns (indegree': map<string, nat>, edges': Graph, ghost g': Graph)
    requires CountsDeps(g, indegree) && Mirrors(g, edges) && to in g
    ensures g'.Keys == g.Keys && (forall id :: id in g && id != to ==> g'[id] == g[id])
    ensures g'[to] == g[to] + KnownDeps(deps, ids, norm)
    ensures CountsDeps(g', indegree') && Mirrors(g', edges')
  {
    indegree', edges', g' := indegree, edges, g;
    for j := 0 to |deps|
      invariant CountsDeps(g', indegree') && Mirrors(g', edges')
      invariant g'.Keys == g.Keys && g'[to] == g[to] + KnownDeps(deps[..j], ids, norm)
      invariant forall id :: id in g && id != to ==> g'[id] == g[id]
    {
      KnownDepsNext(deps, ids, norm, j);
      edges', indegree', g' := AddDependency(to, deps[j], ids, norm, edges', indegree', g');
    }
    assert deps[..|deps|] == deps;
  }

  // ---------- The loop ----------

  lemma IdOrder()
    ensures TotalPreorder(IdLe)
  {
    forall x: string, y: string ensures IdLe(x, y) || IdLe(y, x) {
      KeyTotal(MilestoneSortKey(x), MilestoneSortKey(y));
    }
    forall x: string, y: string, z: string | IdLe(x, y) && IdLe(y, z) ensures IdLe(x, z) {
      KeyTransitive(MilestoneSortKey(x), MilestoneSortKey(y), MilestoneSortKey(z));
    }
  }

  /** Push, then sort. */
  method Enqueue(queue: seq<string>, child: string, le: (string, string) -> bool) returns (queue': seq<string>)
    requires TotalPreorder(le) && Distinct(queue) && child !in queue
    ensures SortedBy(queue', le) && Distinct(queue')
    ensures forall id :: id in queue' <==> id in queue || id == child
  {
    var longer := queue + [child];
    queue' := StableSort(longer, le);
    StableSortSorted(longer, le);
    SameElements(longer, queue');
    assert forall id :: id in queue' <==> id in Elements(queue');
    assert forall id :: id in longer <==> id in Elements(longer);
  }

  lemma CountNext(s: seq<string>, j: nat)
    requires j < |s|
    ensures forall x :: Count(s[..j + 1], x) == Count(s[..j], x) + if x == s[j] then 1 else 0
    ensures forall x :: Count(s[..j + 1], x) <= Count(s, x)
  {
    assert s == s[..j] + [s[j]] + s[j + 1..];
    assert multiset(s) == multiset(s[..j]) + multiset{s[j]} + multiset(s[j + 1..]);
    assert s[..j + 1] == s[..j] + [s[j]];
    assert multiset(s[..j + 1]) == multiset(s[..j]) + multiset{s[j]};
  }

  /** Decrements the counters of the children and enqueues those that reach zero. A counter
      is never decremented below zero. */
  method ReleaseChildren(children: seq<string>, indegree: map<string, nat>, queue: seq<string>,
      le: (string, string) -> bool)
    returns (indegree': map<string, nat>, queue': seq<string>)
    requires TotalPreorder(le) && SortedBy(queue, le) && Distinct(queue)
    requires forall c :: c in children ==> c in indegree && c !in queue && Count(children, c) <= indegree[c]
    ensures indegree'.Keys == indegree.Keys
    ensures forall id :: id in indegree ==> indegree'[id] + Count(children, id) == indegree[id]
    ensures SortedBy(queue', le) && Distinct(queue')
    ensures forall id :: id in queue' <==> id in queue || (id in children && indegree'[id] == 0)
  {
    indegree', queue' := indegree, queue;
    for j := 0 to |children|
      invariant indegree'.Keys == indegree.Keys
      invariant forall id :: id in indegree ==> indegree'[id] + Count(children[..j], id) == indegree[id]
      invariant SortedBy(queue', le) && Distinct(queue')
      invariant forall id :: id in queue' <==> id in queue || (id in children[..j] && indegree'[id] == 0)
    {
      var child := children[j];
      CountNext(children, j);
      assert children[..j + 1] == children[..j] + [child];
      indegree' := indegree'[child := indegree'[child] - 1];
      if indegree'[child] == 0 {
        queue' := Enqueue(queue', child, le);
      }
    }
    assert children[..|children|] == children;
  }

  /** The invariant of the loop: the counters count the unfinished dependencies, the queue is
      the sorted set of available ids, and `order` has been greedy so far. */
  ghost predicate Frontier(g: Graph, le: (string, string) -> bool,
      indegree: map<string, nat>, queue: seq<string>, order: seq<string>)
  {
    && indegree.Keys == g.Keys
    && (forall id :: id in g ==> indegree[id] == Undone(g[id], Elements(order)))
    && SortedBy(queue, le) && Distinct(queue)
    && (forall id :: id in queue <==> Available(g, Elements(order), id))
    && (forall i :: 0 <= i < |order| ==> LeastAvailable(g, le, Elements(order[..i]), order[i]))
  }

  lemma InitialFrontier(g: Graph, le: (string, string) -> bool, indegree: map<string, nat>, queue: seq<string>)
    requires CountsDeps(g, indegree) && Distinct(queue) && SortedBy(queue, le)
    requires forall id :: id in queue <==> id in indegree && indegree[id] == 0
    ensures Frontier(g, le, indegree, queue, [])
  {
    assert Elements<string>([]) == {};
    forall id | id in g ensures indegree[id] == Undone(g[id], {}) {
      UndoneInitially(g[id]);
    }
    forall id ensures id in queue <==> Available(g, {}, id) {
      if id in g && g[id] != [] {
        assert g[id][0] in g[id];
      }
    }
  }

  /** Taking the head of the queue keeps the invariant. */
  lemma StepKeepsFrontier(g: Graph, le: (string, string) -> bool, edges: Graph,
      indegree: map<string, nat>, queue: seq<string>, order: seq<string>,
      indegree': map<string, nat>, queue': seq<string>)
    requires Frontier(g, le, indegree, queue, order) && TotalPreorder(le) && Mirrors(g, edges) && NextFirst(g, order)
    requires queue != []
    requires indegree'.Keys == g.Keys
    requires forall id :: id in g ==> indegree'[id] + Count(Next(edges, queue[0]), id) == indegree[id]
    requires SortedBy(queue', le) && Distinct(queue')
    requires forall id :: id in queue' <==> id in queue[1..] || (id in Next(edges, queue[0]) && indegree'[id] == 0)
    ensures Frontier(g, le, indegree', queue', order + [queue[0]]) && NextFirst(g, order + [queue[0]])
  {
    var node, longer := queue[0], order + [queue[0]];
    var done, done' := Elements(order), Elements(longer);
    assert done' == done + {node};
    assert Available(g, done, node) by { assert node in queue; }
    Appended(g, order, node);
    forall id | id in g ensures indegree'[id] == Undone(g[id], done') {
      UndoneDrops(g[id], done, node);
      assert Count(Next(edges, node), id) == Count(g[id], node);
    }
    forall id ensures id in queue' <==> Available(g, done', id) {
      QueueIsAvailable(g, le, edges, indegree, queue, order, indegree', queue', id);
    }
    assert LeastAvailable(g, le, done, node) by {
      forall other | Available(g, done, other) ensures le(node, other) {
        assert other in queue;
      }
    }
    forall i | 0 <= i < |longer| ensures LeastAvailable(g, le, Elements(longer[..i]), longer[i]) {
      assert longer[..i] == order[..i];
      assert order[..|order|] == order;
    }
  }

  lemma QueueIsAvailable(g: Graph, le: (string, string) -> bool, edges: Graph,
      indegree: map<string, nat>, queue: seq<string>, order: seq<string>,
      indegree': map<string, nat>, queue': seq<string>, id: string)
    requires Frontier(g, le, indegree, queue, order) && Mirrors(g, edges) && NextFirst(g, order)
    requires queue != [] && indegree'.Keys == g.Keys
    requires forall id :: id in g ==> indegree'[id] + Count(Next(edges, queue[0]), id) == indegree[id]
    requires forall id :: id in queue' <==> id in queue[1..] || (id in Next(edges, queue[0]) && indegree'[id] == 0)
    requires forall id :: id in g ==> indegree'[id] == Undone(g[id], Elements(order + [queue[0]]))
    ensures id in queue' <==> Available(g, Elements(order + [queue[0]]), id)
  {
    var node := queue[0];
    var done, done' := Elements(order), Elements(order + [node]);
    assert Available(g, done, node) by { assert node in queue; }
    assert done' == done + {node};
    assert queue == [node] + queue[1..];
    assert id in queue[1..] <==> id in queue && id != node;
    if id in g {
      UndoneZero(g[id], done');
      assert Count(Next(edges, node), id) == Count(g[id], node);
      CountPositive(Next(edges, node), id);
      CountPositive(g[id], node);
      if id in order {
        var i :| 0 <= i < |order| && order[i] == id;
        assert forall t :: t in Next(g, order[i]) ==> t in order[..i];
        assert node !in g[id] && id !in queue && id !in Next(edges, node);
        assert id in done';
      } else if node in g[id] {
        assert node !in done;
        assert id !in queue && id in Next(edges, node) && id !in done';
        assert id in queue' <==> Undone(g[id], done') == 0;
      } else {
        assert id !in Next(edges, node);
        assert id in queue' <==> id in queue && id != node;
        assert Available(g, done', id) <==> Available(g, done, id) && id != node;
      }
    } else {
      assert id !in queue && id !in Next(edges, node);
    }
  }

  /** No child of the head is in the queue, and each has that many unfinished dependencies. */
  lemma ReleaseAllowed(g: Graph, le: (string, string) -> bool, edges: Graph,
      indegree: map<string, nat>, queue: seq<string>, order: seq<string>)
    requires Frontier(g, le, indegree, queue, order) && Mirrors(g, edges) && queue != []
    ensures SortedBy(queue[1..], le) && Distinct(queue[1..])
    ensures forall c :: c in Next(edges, queue[0]) ==>
      c in indegree && c !in queue[1..] && Count(Next(edges, queue[0]), c) <= indegree[c]
  {
    var node, done := queue[0], Elements(order);
    assert Available(g, done, node) by { assert node in queue; }
    forall c | c in Next(edges, node)
      ensures c in indegree && c !in queue[1..] && Count(Next(edges, node), c) <= indegree[c]
    {
      assert Count(Next(edges, node), c) == Count(g[c], node);
      UndoneDrops(g[c], done, node);
      assert node in g[c];
      assert !Available(g, done, c);
      assert c !in queue;
    }
  }

  /** One dependency: nothing, unless it names a milestone of the plan. */
  method AddDependency(to: string, dep: string, ids: set<string>, norm: string -> string,
      edges: Graph, indegree: map<string, nat>, ghost g: Graph)
    returns (edges': Graph, indegree': map<string, nat>, ghost g': Graph)
    requires CountsDeps(g, indegree) && Mirrors(g, edges) && to in g
    ensures g'.Keys == g.Keys && (forall id :: id in g && id != to ==> g'[id] == g[id])
    ensures g'[to] == g[to] + if dep == "" || dep == "none" || norm(dep) !in ids then [] else [norm(dep)]
    ensures CountsDeps(g', indegree') && Mirrors(g', edges')
  {
    edges', indegree', g' := edges, indegree, g;
    if dep != "" && dep != "none" {
      var from := norm(dep);
      if from in ids {
        EdgeAdded(g, edges, from, to);
        edges' := edges[from := Next(edges, from) + [to]];
        indegree' := indegree[to := indegree[to] + 1];
        g' := g[to := g[to] + [from]];
      }
    }
  }

  /** The ids without dependencies, sorted; collected in any order. */
  method InitialQueue(indegree: map<string, nat>, le: (string, string) -> bool) returns (queue: seq<string>)
    requires TotalPreorder(le)
    ensures Distinct(queue) && SortedBy(queue, le)
    ensures forall id :: id in queue <==> id in indegree && indegree[id] == 0
  {
    var free := set id | id in indegree && indegree[id] == 0;
    queue := SortedIds(free, le);
    assert forall id :: id in queue <==> id in Elements(queue);
  }

  /** Collects a hash set, in whatever order, and sorts it. */
  method SortedIds(ids: set<string>, le: (string, string) -> bool) returns (sorted: seq<string>)
    requires TotalPreorder(le)
    ensures Distinct(sorted) && SortedBy(sorted, le) && Elements(sorted) == ids
  {
    var todo, all := ids, [];
    while todo != {}
      invariant todo <= ids && Distinct(all) && Elements(all) == ids - todo
    {
      var id :| id in todo;
      assert id !in Elements(all);
      assert Elements(all + [id]) == Elements(all) + {id};
      all := all + [id];
      todo := todo - {id};
    }
    sorted := StableSort(all, le);
    StableSortSorted(all, le);
    SameElements(all, sorted);
  }

  /** One round of the loop: the head of the queue is done, its children are released. */
  method TakeNode(ghost g: Graph, le: (string, string) -> bool, edges: Graph, indegree: map<string, nat>,
      queue: seq<string>, ghost order: seq<string>)
    returns (indegree': map<string, nat>, queue': seq<string>)
    requires Frontier(g, le, indegree, queue, order) && TotalPreorder(le) && Mirrors(g, edges) && NextFirst(g, order)
    requires queue != []
    ensures Frontier(g, le, indegree', queue', order + [queue[0]]) && NextFirst(g, order + [queue[0]])
    ensures queue[0] in g && queue[0] !in order
  {
    ReleaseAllowed(g, le, edges, indegree, queue, order);
    indegree', queue' := ReleaseChildren(Next(edges, queue[0]), indegree, queue[1..], le);
    StepKeepsFrontier(g, le, edges, indegree, queue, order, indegree', queue');
    assert Available(g, Elements(order), queue[0]) by { assert queue[0] in queue; }
  }

  lemma QueueEmpty(g: Graph, le: (string, string) -> bool, indegree: map<string, nat>, order: seq<string>)
    requires Frontier(g, le, indegree, [], order)
    ensures GreedyOrder(g, le, order)
  {
    forall id ensures !Available(g, Elements(order), id) {
      assert id !in [];
    }
  }

  method DrainQueue(ghost g: Graph, le: (string, string) -> bool, edges: Graph,
      indegree: map<string, nat>, queue: seq<string>)
    returns (out: seq<string>)
    requires Frontier(g, le, indegree, queue, []) && TotalPreorder(le) && Mirrors(g, edges)
    ensures GreedyOrder(g, le, out)
  {
    out := [];
    var counts, frontier := indegree, queue;
    while frontier != []
      invariant Frontier(g, le, counts, frontier, out) && NextFirst(g, out)
      decreases g.Keys - Elements(out)
    {
      var node := frontier[0];
      counts, frontier := TakeNode(g, le, edges, counts, frontier, out);
      assert Elements(out + [node]) == Elements(out) + {node};
      out := out + [node];
    }
    QueueEmpty(g, le, counts, out);
  }

  /** topo_sort_milestones: the greedy order of the ids that are on no cycle and behind none,
      then all other ids in id order; every id of the plan exactly once. */
  method TopoSort(ms: seq<Milestone>, norm: string -> string, le: (string, string) -> bool)
    returns (out: seq<string>, ghost settled: nat)
    requires TotalPreorder(le)
    ensures Elements(out) == KnownIds(ms, norm)
    ensures IsPlanOrder(DependencyGraph(ms, norm), le, out, settled)
  {
    var indegree, edges := BuildTables(ms, norm);
    ghost var g := DependencyGraph(ms, norm);
    var queue := InitialQueue(indegree, le);
    InitialFrontier(g, le, indegree, queue);
    var prefix := DrainQueue(g, le, edges, indegree, queue);
    GreedyIsNextFirst(g, le, prefix);
    settled := |prefix|;
    out := AppendRest(KnownIds(ms, norm), prefix, le);
    assert out[..settled] == prefix;
  }

  lemma DistinctConcat(a: seq<string>, b: seq<string>)
    requires Distinct(a) && Distinct(b) && Elements(a) !! Elements(b)
    ensures Distinct(a + b) && Elements(a + b) == Elements(a) + Elements(b)
  {
    var c := a + b;
    forall i, j | 0 <= i < j < |c| ensures c[i] != c[j] {
      assert i < |a| ==> c[i] in Elements(a);
      assert j >= |a| ==> c[j] in Elements(b);
    }
  }

  /** The ids that never became available follow in sorted order. */
  method AppendRest(ids: set<string>, out: seq<string>, le: (string, string) -> bool) returns (all: seq<string>)
    requires Distinct(out) && Elements(out) <= ids && TotalPreorder(le)
    ensures out <= all && Distinct(all) && Elements(all) == ids
    ensures SortedBy(all[|out|..], le)
  {
    if |out| < |ids| {
      var rest := SortedIds(ids - (set id | id in out), le);
      DistinctConcat(out, rest);
      assert (out + rest)[|out|..] == rest;
      all := out + rest;
    } else {
      DistinctSize(out);
      SubsetSize(Elements(out), ids);
      all := out;
    }
  }

  /** The program's order, by normalized id and sort key. In terms of the milestones: every id of
      the plan once; where no cycle can be reached from an id, it stands behind everything it
      depends on, and before every id from which one can be reached. */
  method TopoSortMilestones(ms: seq<Milestone>) returns (out: seq<string>, ghost settled: nat)
    ensures var g := DependencyGraph(ms, Normalize);
      && IsPlanOrder(g, IdLe, out, settled)
      && (Acyclic(g) ==> IsLeastOrder(g, out))
      && (DistinctKeys(g.Keys) ==> forall other, n :: IsPlanOrder(g, IdLe, other, n) ==> other == out)
    ensures Distinct(out)
    ensures forall id :: id in out <==> exists k :: 0 <= k < |ms| && Normalize(ms[k].id) == id
    ensures forall i, dep ::
      0 <= i < |out| && ReachesNoCycle(ms, Normalize, out[i]) && DependsOn(ms, Normalize, out[i], dep) ==>
      dep in out[..i]
    ensures forall i, j :: 0 <= i < |out| && 0 <= j < |out| ==>
      ReachesNoCycle(ms, Normalize, out[i]) && !ReachesNoCycle(ms, Normalize, out[j]) ==> i < j
  {
    IdOrder();
    out, settled := TopoSort(ms, Normalize, IdLe);
    ghost var g := DependencyGraph(ms, Normalize);
    if Acyclic(g) {
      AcyclicPlanOrder(g, IdLe, out, settled);
    }
    if DistinctKeys(g.Keys) {
      KeysDecide(g);
      forall other, n | IsPlanOrder(g, IdLe, other, n) ensures other == out {
        PlanOrderIsUnique(g, IdLe, other, n, out, settled);
      }
    }
    PlanOrderOfMilestones(ms, Normalize, IdLe, out, settled);
  }

  lemma PlanOrderOfMilestones(ms: seq<Milestone>, norm: string -> string, le: (string, string) -> bool,
      out: seq<string>, settled: nat)
    requires IsPlanOrder(DependencyGraph(ms, norm), le, out, settled)
    ensures forall id :: id in out <==> exists k :: 0 <= k < |ms| && norm(ms[k].id) == id
    ensures forall i :: 0 <= i < |out| ==> (ReachesNoCycle(ms, norm, out[i]) <==> i < settled)
    ensures forall i, dep :: 0 <= i < settled && DependsOn(ms, norm, out[i], dep) ==> dep in out[..i]
  {
    GraphIsOfMilestones(ms, norm);
    assert forall id :: id in out <==> id in Elements(out);
    forall i | 0 <= i < |out| ensures ReachesNoCycle(ms, norm, out[i]) <==> i < settled {
      SettledAt(ms, norm, le, out, settled, i);
    }
    forall i, dep | 0 <= i < settled && DependsOn(ms, norm, out[i], dep) ensures dep in out[..i] {
      DependencyBefore(ms, norm, le, out, settled, i, dep);
    }
  }

  lemma SettledAt(ms: seq<Milestone>, norm: string -> string, le: (string, string) -> bool,
      out: seq<string>, settled: nat, i: nat)
    requires IsPlanOrder(DependencyGraph(ms, norm), le, out, settled) && i < |out|
    ensures ReachesNoCycle(ms, norm, out[i]) <==> i < settled
  {
    var g, front := DependencyGraph(ms, norm), out[..settled];
    GraphIsOfMilestones(ms, norm);
    assert out[i] in Elements(out);
    SettledOfMilestones(ms, norm, out[i]);
    GreedyTakesSettled(g, le, front, out[i]);
    if out[i] in front {
      var j :| 0 <= j < settled && front[j] == out[i];
      assert out[j] == out[i];
    }
    assert i < settled ==> front[i] == out[i];
  }

  lemma DependencyBefore(ms: seq<Milestone>, norm: string -> string, le: (string, string) -> bool,
      out: seq<string>, settled: nat, i: nat, dep: string)
    requires IsPlanOrder(DependencyGraph(ms, norm), le, out, settled)
    requires i < settled && DependsOn(ms, norm, out[i], dep)
    ensures dep in out[..i]
  {
    var g, front := DependencyGraph(ms, norm), out[..settled];
    GraphIsOfMilestones(ms, norm);
    GreedyIsNextFirst(g, le, front);
    assert front[i] == out[i] && front[i] in Elements(front);
    assert dep in Next(g, front[i]);
    assert front[..i] == out[..i];
  }

  /** Every id after its dependencies, and no such order of all ids is lexicographically smaller. */
  ghost predicate IsLeastOrder(g: Graph, out: seq<string>) {
    && NextFirst(g, out) && Elements(out) == g.Keys
    && forall other :: NextFirst(g, other) && Elements(other) == g.Keys ==> LexLeast(IdLe, out, other)
  }

  predicate DistinctKeys(ids: set<string>) {
    forall x, y :: x in ids && y in ids && MilestoneSortKey(x) == MilestoneSortKey(y) ==> x == y
  }

  lemma KeysDecide(g: Graph)
    ensures DistinctKeys(g.Keys) <==> Antisymmetric(g, IdLe)
  {
    forall x: string, y: string
      ensures IdLe(x, y) && IdLe(y, x) <==> MilestoneSortKey(x) == MilestoneSortKey(y)
    {
      KeyTotal(MilestoneSortKey(x), MilestoneSortKey(y));
    }
  }
}
